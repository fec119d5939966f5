/**
 * The driver's result-consumption loop: enumerate the outcomes in the order
 * the pool delivers them, report every outcome that is not the success
 * marker, and report progress at every position divisible by 100 (starting
 * with position 0). The printed lines are modelled as events; each event
 * carries the enumeration position it was emitted at.
 */
module Driver {
  import opened Wrappers
  import opened Keys
  import opened Reader
  import opened Worker

  /** Progress is reported at the positions i with i % PROGRESS_EVERY == 0. */
  const PROGRESS_EVERY: nat := 100

  /** "Worker caught an exception: ..." and "loaded i of nitems". */
  datatype Event = Caught(position: nat, msg: string) | Loaded(position: nat, nitems: int)

  /** The events of one iteration of the loop body, at position i. */
  function EventsAt(i: nat, o: Outcome, nitems: int): seq<Event>
  {
    (if o.Failure? then [Caught(i, o.msg)] else []) +
    (if i % PROGRESS_EVERY == 0 then [Loaded(i, nitems)] else [])
  }

  /** All events of the loop over the outcomes, in emission order. */
  function Report(outcomes: seq<Outcome>, nitems: int): seq<Event>
  {
    if outcomes == [] then []
    else Report(outcomes[..|outcomes| - 1], nitems) + EventsAt(|outcomes| - 1, outcomes[|outcomes| - 1], nitems)
  }

  /** for i, item in enumerate(processed_data): ... */
  method ConsumeOutcomes(outcomes: seq<Outcome>, nitems: int) returns (events: seq<Event>)
    ensures events == Report(outcomes, nitems)
  {
    events := [];
    var i := 0;
    while i < |outcomes|
      invariant 0 <= i <= |outcomes|
      invariant events == Report(outcomes[..i], nitems)
    {
      var item := outcomes[i];
      assert outcomes[..i + 1][..i] == outcomes[..i];
      if item != Success {
        events := events + [Caught(i, item.msg)];
      }
      if i % PROGRESS_EVERY == 0 {
        events := events + [Loaded(i, nitems)];
      }
      i := i + 1;
    }
    assert outcomes[..i] == outcomes;
  }

  /** How many failure reports for position i the events hold. */
  function CaughtAt(events: seq<Event>, i: nat): nat
  {
    if events == [] then 0
    else
      var last := events[|events| - 1];
      CaughtAt(events[..|events| - 1], i) + (if last.Caught? && last.position == i then 1 else 0)
  }

  /** How many progress reports for position i the events hold. */
  function LoadedAt(events: seq<Event>, i: nat): nat
  {
    if events == [] then 0
    else
      var last := events[|events| - 1];
      LoadedAt(events[..|events| - 1], i) + (if last.Loaded? && last.position == i then 1 else 0)
  }

  lemma {:induction false} CountsAppend(a: seq<Event>, b: seq<Event>, i: nat)
    ensures CaughtAt(a + b, i) == CaughtAt(a, i) + CaughtAt(b, i)
    ensures LoadedAt(a + b, i) == LoadedAt(a, i) + LoadedAt(b, i)
    decreases |b|
  {
    if b == [] {
      assert a + b == a;
    } else {
      var n := |b| - 1;
      assert (a + b)[..|a + b| - 1] == a + b[..n];
      CountsAppend(a, b[..n], i);
    }
  }

  /** One iteration reports its own position only. */
  lemma EventsAtCounts(n: nat, o: Outcome, nitems: int, i: nat)
    ensures CaughtAt(EventsAt(n, o, nitems), i) == if i == n && o.Failure? then 1 else 0
    ensures LoadedAt(EventsAt(n, o, nitems), i) == if i == n && n % PROGRESS_EVERY == 0 then 1 else 0
  {
    var f: seq<Event> := if o.Failure? then [Caught(n, o.msg)] else [];
    var p: seq<Event> := if n % PROGRESS_EVERY == 0 then [Loaded(n, nitems)] else [];
    CountsAppend(f, p, i);
    assert f == [] || f[..0] == [];
    assert p == [] || p[..0] == [];
  }

  /**
   * Every outcome that is not the success marker is reported exactly once,
   * and no success outcome is ever reported; progress is reported exactly
   * once at each position i with i % 100 == 0 and at no other position.
   */
  lemma {:induction false} ReportedExactlyOnce(outcomes: seq<Outcome>, nitems: int, i: nat)
    ensures CaughtAt(Report(outcomes, nitems), i) == if i < |outcomes| && outcomes[i].Failure? then 1 else 0
    ensures LoadedAt(Report(outcomes, nitems), i) == if i < |outcomes| && i % PROGRESS_EVERY == 0 then 1 else 0
    decreases |outcomes|
  {
    if outcomes != [] {
      var n := |outcomes| - 1;
      ReportedExactlyOnce(outcomes[..n], nitems, i);
      CountsAppend(Report(outcomes[..n], nitems), EventsAt(n, outcomes[n], nitems), i);
      EventsAtCounts(n, outcomes[n], nitems, i);
      if i < n {
        assert outcomes[..n][i] == outcomes[i];
      }
    }
  }

  /**
   * Every event names a position of the enumeration: a failure report
   * carries exactly the message of the failure at its position, and a
   * progress report a position divisible by 100 and the item total.
   */
  lemma {:induction false} EventsDescribeOutcomes(outcomes: seq<Outcome>, nitems: int)
    ensures forall e :: e in Report(outcomes, nitems) && e.Caught? ==>
      e.position < |outcomes| && outcomes[e.position] == Failure(e.msg)
    ensures forall e :: e in Report(outcomes, nitems) && e.Loaded? ==>
      e.position < |outcomes| && e.position % PROGRESS_EVERY == 0 && e.nitems == nitems
    decreases |outcomes|
  {
    if outcomes != [] {
      var n := |outcomes| - 1;
      EventsDescribeOutcomes(outcomes[..n], nitems);
      forall j | 0 <= j < n ensures outcomes[..n][j] == outcomes[j] { }
    }
  }

  /** Events are emitted in enumeration order: their positions never decrease. */
  lemma {:induction false} EventsInOrder(outcomes: seq<Outcome>, nitems: int)
    ensures forall a, b :: 0 <= a < b < |Report(outcomes, nitems)| ==>
      Report(outcomes, nitems)[a].position <= Report(outcomes, nitems)[b].position
    ensures forall e :: e in Report(outcomes, nitems) ==> e.position < |outcomes|
    decreases |outcomes|
  {
    if outcomes != [] {
      var n := |outcomes| - 1;
      EventsInOrder(outcomes[..n], nitems);
    }
  }

  /** The attempts of a whole run in which the store accepts every write. */
  function Accepted(items: seq<WorkItem>): (attempts: seq<Attempt>)
  {
    seq(|items|, j requires 0 <= j < |items| => Attempt(items[j], None))
  }

  /** The writes of a fresh reader's items: indices 1 .. nitems-1, all distinct, all of the reader's size. */
  lemma AcceptedItems(itemsMB: nat, nitems: int)
    ensures |Accepted(Pending(Fresh(itemsMB, nitems)))| == ItemCount(nitems)
    ensures forall j :: 0 <= j < ItemCount(nitems) ==>
      Accepted(Pending(Fresh(itemsMB, nitems)))[j] == Attempt(WorkItem(j + 1, itemsMB * BYTES_PER_MB), None)
    ensures DistinctIndices(Accepted(Pending(Fresh(itemsMB, nitems))))
  {
  }

  /** An attempt of a fresh reader's run is the write of index x in 1 .. nitems-1, with the reader's size. */
  lemma AcceptedElement(itemsMB: nat, nitems: int, e: Attempt)
    requires e in multiset(Accepted(Pending(Fresh(itemsMB, nitems))))
    ensures 1 <= e.item.index < nitems
    ensures e == Attempt(WorkItem(e.item.index, itemsMB * BYTES_PER_MB), None)
  {
    var b := Accepted(Pending(Fresh(itemsMB, nitems)));
    AcceptedItems(itemsMB, nitems);
    assert e in b;
    var k :| 0 <= k < |b| && b[k] == e;
  }

  /** In a sequence with distinct indices no attempt occurs twice. */
  lemma {:induction false} DistinctOccursOnce(b: seq<Attempt>, e: Attempt)
    requires DistinctIndices(b)
    ensures multiset(b)[e] <= 1
  {
    if b != [] {
      var n := |b| - 1;
      assert b == b[..n] + [b[n]];
      assert DistinctIndices(b[..n]);
      DistinctOccursOnce(b[..n], e);
    }
  }

  /** An attempt found at two positions occurs at least twice. */
  lemma TwiceCounted(a: seq<Attempt>, i: nat, j: nat)
    requires i < j < |a| && a[i] == a[j]
    ensures multiset(a)[a[i]] >= 2
  {
    assert a == a[..j] + [a[j]] + a[j + 1..];
    assert a[..j][i] == a[i];
    assert a[i] in multiset(a[..j]);
  }

  /**
   * Any order in which the pool may process a fresh reader's items keeps
   * their indices distinct.
   */
  lemma PermutedDistinct(itemsMB: nat, nitems: int, attempts: seq<Attempt>)
    requires multiset(attempts) == multiset(Accepted(Pending(Fresh(itemsMB, nitems))))
    ensures DistinctIndices(attempts)
  {
    var b := Accepted(Pending(Fresh(itemsMB, nitems)));
    AcceptedItems(itemsMB, nitems);
    forall i, j | 0 <= i < j < |attempts| ensures attempts[i].item.index != attempts[j].item.index {
      if attempts[i].item.index == attempts[j].item.index {
        assert attempts[i] in multiset(attempts) && attempts[j] in multiset(attempts);
        AcceptedElement(itemsMB, nitems, attempts[i]);
        AcceptedElement(itemsMB, nitems, attempts[j]);
        TwiceCounted(attempts, i, j);
        DistinctOccursOnce(b, attempts[i]);
        assert false;
      }
    }
  }

  /**
   * The outcomes of a whole run on a store that accepts every write, for a
   * reader built with nitems items, processed in ANY order (any permutation
   * of the dispatched items): one per item, each for an index in
   * 1 .. nitems-1, each Success unless its index has more than 4300 digits
   * (which fails the key's formatting), and all of them Success when
   * nitems - 1 is within that bound. (By ReportedExactlyOnce, the driver
   * reports none of the successes.)
   */
  lemma RunOutcomes(itemsMB: nat, nitems: int, m: Store, attempts: seq<Attempt>, outcomes: seq<Outcome>)
    requires multiset(attempts) == multiset(Accepted(Pending(Fresh(itemsMB, nitems))))
    requires outcomes == WriteAll(m, attempts).1
    ensures |outcomes| == ItemCount(nitems)
    ensures forall j :: 0 <= j < |outcomes| ==> 1 <= attempts[j].item.index < nitems
    ensures forall j :: 0 <= j < |outcomes| ==>
      outcomes[j] == if WithinDigitLimit(attempts[j].item.index) then Success else Failure(DIGIT_LIMIT_MESSAGE)
    ensures WithinDigitLimit(nitems - 1) ==> forall j :: 0 <= j < |outcomes| ==> outcomes[j] == Success
  {
    AcceptedItems(itemsMB, nitems);
    assert |attempts| == |multiset(attempts)| == |Accepted(Pending(Fresh(itemsMB, nitems)))|;
    WriteAllOutcomes(m, attempts);
    forall j | 0 <= j < |outcomes|
      ensures 1 <= attempts[j].item.index < nitems
      ensures outcomes[j] == if WithinDigitLimit(attempts[j].item.index) then Success else Failure(DIGIT_LIMIT_MESSAGE)
    {
      assert attempts[j] in multiset(attempts);
      AcceptedElement(itemsMB, nitems, attempts[j]);
    }
    if WithinDigitLimit(nitems - 1) {
      forall j | 0 <= j < |outcomes| ensures outcomes[j] == Success {
        DigitCountMonotone(attempts[j].item.index, nitems - 1);
      }
    }
  }

  /**
   * The store after a whole run that accepts every write, processed in ANY
   * order: every index 1 .. nitems-1 within the 4300-digit bound is keyed
   * to items_mb * 1048576 zero bytes.
   */
  lemma RunStore(itemsMB: nat, nitems: int, m: Store, attempts: seq<Attempt>, store: Store)
    requires multiset(attempts) == multiset(Accepted(Pending(Fresh(itemsMB, nitems))))
    requires store == WriteAll(m, attempts).0
    ensures forall idx :: 1 <= idx < nitems && WithinDigitLimit(idx) ==>
      KeyFor(idx) in store && store[KeyFor(idx)] == Zeros(itemsMB * BYTES_PER_MB)
  {
    var size := itemsMB * BYTES_PER_MB;
    var b := Accepted(Pending(Fresh(itemsMB, nitems)));
    AcceptedItems(itemsMB, nitems);
    PermutedDistinct(itemsMB, nitems, attempts);
    forall idx | 1 <= idx < nitems && WithinDigitLimit(idx)
      ensures KeyFor(idx) in store && store[KeyFor(idx)] == Zeros(size)
    {
      assert b[idx - 1] == Attempt(WorkItem(idx, size), None);
      assert b[idx - 1] in multiset(attempts);
      var j :| 0 <= j < |attempts| && attempts[j] == b[idx - 1];
      WriteAllStored(m, attempts, j);
    }
  }
}
