/**
 * process_data: the per-item write. The store (a DDict in the program) is
 * modelled as a class holding a map from keys to byte strings, passed in
 * explicitly instead of being fetched from the worker's stash. What the
 * foreign store answers to a write (accepted, or an exception with a
 * message) is a parameter. Every exception raised while building or
 * writing the value is returned as a Failure outcome, never propagated.
 */
module Worker {
  import opened Wrappers
  import opened Keys
  import opened Reader

  /** The value process_data returns: True, or the exception it caught. */
  datatype Outcome = Success | Failure(msg: string)

  /** The message of the ValueError bytearray raises for a negative size. */
  const NEGATIVE_COUNT: string := "negative count"

  type Store = map<string, seq<bv8>>

  /** bytearray(n): n zero bytes. */
  function Zeros(n: nat): (v: seq<bv8>)
    ensures |v| == n && forall i :: 0 <= i < n ==> v[i] == 0
  {
    seq(n, _ => 0)
  }

  /** The abstract distributed dictionary: a flat key/value map with single-key writes. */
  class DDict {
    var contents: Store

    constructor ()
      ensures contents == map[]
    {
      contents := map[];
    }

    /**
     * the_ddict[k] = v. The store either accepts the write (verdict None) or
     * raises an exception whose message is the verdict; a rejected write
     * changes nothing.
     */
    method Put(k: string, v: seq<bv8>, verdict: Option<string>) returns (err: Option<string>)
      modifies this
      ensures err == verdict
      ensures contents == if verdict.None? then old(contents)[k := v] else old(contents)
    {
      err := verdict;
      if verdict.None? {
        contents := contents[k := v];
      }
    }
  }

  /**
   * The outcome of process_data for an item, given the store's verdict on
   * the write, in the order the body can fail: formatting the key, then
   * allocating the bytes, then the write itself.
   */
  function OutcomeOf(item: WorkItem, verdict: Option<string>): Outcome
  {
    if !WithinDigitLimit(item.index) then Failure(DIGIT_LIMIT_MESSAGE)
    else if item.size < 0 then Failure(NEGATIVE_COUNT)
    else if verdict.Some? then Failure(verdict.value)
    else Success
  }

  /** The store after process_data, and its outcome: only a successful write changes the store. */
  function Write(m: Store, item: WorkItem, verdict: Option<string>): (Store, Outcome)
  {
    var o := OutcomeOf(item, verdict);
    (if o.Success? then m[KeyFor(item.index) := Zeros(item.size)] else m, o)
  }

  /** process_data((idx, size)) against an explicit store. */
  method ProcessData(store: DDict, item: WorkItem, verdict: Option<string>) returns (o: Outcome)
    modifies store
    ensures o == Success <==> WithinDigitLimit(item.index) && item.size >= 0 && verdict.None?
    ensures !WithinDigitLimit(item.index) ==> o == Failure(DIGIT_LIMIT_MESSAGE)
    ensures o.Success? ==> store.contents == old(store.contents)[KeyFor(item.index) := Zeros(item.size)]
    ensures o.Failure? ==> store.contents == old(store.contents)
    ensures (store.contents, o) == Write(old(store.contents), item, verdict)
  {
    if !WithinDigitLimit(item.index) {
      return Failure(DIGIT_LIMIT_MESSAGE);
    }
    var k := KeyFor(item.index);
    if item.size < 0 {
      return Failure(NEGATIVE_COUNT);
    }
    var v := Zeros(item.size);
    var err := store.Put(k, v, verdict);
    if err.Some? {
      return Failure(err.value);
    }
    return Success;
  }

  /** One dispatched item together with the store's verdict on its write. */
  datatype Attempt = Attempt(item: WorkItem, verdict: Option<string>)

  /**
   * The store and the outcomes after the attempts are processed one after
   * another, in the order given; the pool gives no order, and the lemmas
   * below hold for every order.
   */
  function WriteAll(m: Store, attempts: seq<Attempt>): (r: (Store, seq<Outcome>))
    ensures |r.1| == |attempts|
  {
    if attempts == [] then (m, [])
    else
      var before := WriteAll(m, attempts[..|attempts| - 1]);
      var last := attempts[|attempts| - 1];
      var after := Write(before.0, last.item, last.verdict);
      (after.0, before.1 + [after.1])
  }

  predicate DistinctIndices(attempts: seq<Attempt>)
  {
    forall i, j :: 0 <= i < j < |attempts| ==> attempts[i].item.index != attempts[j].item.index
  }

  /** The keys written by the attempts that succeed. */
  function WrittenKeys(attempts: seq<Attempt>): set<string>
  {
    set i | 0 <= i < |attempts| && OutcomeOf(attempts[i].item, attempts[i].verdict).Success? ::
      KeyFor(attempts[i].item.index)
  }

  /** Every item gets exactly one outcome, its own, whatever the other items do. */
  lemma {:induction false} WriteAllOutcomes(m: Store, attempts: seq<Attempt>)
    ensures forall j :: 0 <= j < |attempts| ==>
      WriteAll(m, attempts).1[j] == OutcomeOf(attempts[j].item, attempts[j].verdict)
  {
    if attempts != [] {
      var n := |attempts| - 1;
      WriteAllOutcomes(m, attempts[..n]);
      forall j | 0 <= j < n
        ensures WriteAll(m, attempts).1[j] == OutcomeOf(attempts[j].item, attempts[j].verdict)
      {
        assert attempts[..n][j] == attempts[j];
      }
    }
  }

  /**
   * With distinct indices no item overwrites another: at the end the key
   * of every item whose write succeeded holds that item's zero bytes.
   */
  lemma {:induction false} WriteAllStored(m: Store, attempts: seq<Attempt>, j: nat)
    requires DistinctIndices(attempts)
    requires j < |attempts| && OutcomeOf(attempts[j].item, attempts[j].verdict).Success?
    ensures KeyFor(attempts[j].item.index) in WriteAll(m, attempts).0
    ensures WriteAll(m, attempts).0[KeyFor(attempts[j].item.index)] == Zeros(attempts[j].item.size)
  {
    var n := |attempts| - 1;
    var last := attempts[n];
    var before := WriteAll(m, attempts[..n]);
    assert WriteAll(m, attempts).0 == Write(before.0, last.item, last.verdict).0;
    if j < n {
      assert attempts[..n][j] == attempts[j];
      WriteAllStored(m, attempts[..n], j);
      KeyInjective(attempts[j].item.index, last.item.index);
    }
  }

  /** A key that no successful item wrote is present and bound exactly as before the batch. */
  lemma {:induction false} WriteAllFrame(m: Store, attempts: seq<Attempt>, k: string)
    requires k !in WrittenKeys(attempts)
    ensures k in WriteAll(m, attempts).0 <==> k in m
    ensures k in m ==> WriteAll(m, attempts).0[k] == m[k]
  {
    if attempts != [] {
      var n := |attempts| - 1;
      var last := attempts[n];
      WriteAllFrame(m, attempts[..n], k);
      if OutcomeOf(last.item, last.verdict).Success? {
        assert KeyFor(last.item.index) in WrittenKeys(attempts);
      }
    }
  }
}
