/**
 * DataReader, the lazy work generator. Its cursor idx starts at 0 and
 * __next__ increments it BEFORE the termination test, so a reader built
 * for nitems items yields the indices 1 .. nitems-1 (nitems-1 items, none
 * for nitems <= 1) and then raises StopIteration on every later call.
 * The class mirrors the Python object; Cursor, Advance and Run are its
 * pure specification, about which the generator's properties are proved.
 */
module Reader {

  /** 1024**2: bytes per megabyte in the item-size computation. */
  const BYTES_PER_MB: int := 1048576

  /** The tuple (idx, size) handed to one worker. */
  datatype WorkItem = WorkItem(index: int, size: int)

  /** What one __next__ call produces: an item, or the StopIteration signal. */
  datatype Step = Item(item: WorkItem) | StopIteration

  /** The reader's three fields as a value. */
  datatype Cursor = Cursor(size: int, nitems: int, idx: int)

  /** The state __init__(items_mb, nitems) leaves behind. */
  function Fresh(itemsMB: int, nitems: int): Cursor
  {
    Cursor(itemsMB * BYTES_PER_MB, nitems, 0)
  }

  /** One __next__ call: the new state and its result. */
  function Advance(c: Cursor): (Cursor, Step)
  {
    var next := c.(idx := c.idx + 1);
    (next, if next.idx >= next.nitems then StopIteration else Item(WorkItem(next.idx, next.size)))
  }

  /** The results of k successive __next__ calls starting in state c. */
  function Run(c: Cursor, k: nat): (r: seq<Step>)
    ensures |r| == k
    decreases k
  {
    if k == 0 then [] else [Advance(c).1] + Run(Advance(c).0, k - 1)
  }

  /** The number of items a fresh reader for nitems items yields. */
  function ItemCount(nitems: int): nat
  {
    if nitems >= 1 then nitems - 1 else 0
  }

  /** The j-th of k calls from any state: an item whose index is idx + j + 1 while that is below nitems. */
  lemma {:induction false} RunAt(c: Cursor, k: nat, j: nat)
    requires j < k
    ensures Run(c, k)[j] ==
      if c.idx + j + 1 < c.nitems then Item(WorkItem(c.idx + j + 1, c.size)) else StopIteration
    decreases j
  {
    if j > 0 {
      RunAt(Advance(c).0, k - 1, j - 1);
    }
  }

  /**
   * A fresh reader yields exactly ItemCount(nitems) items, the i-th of them
   * (counting from 0) with index i + 1 and size items_mb * 1048576, and
   * signals exhaustion on every call after that.
   */
  lemma GeneratorYields(itemsMB: int, nitems: int, k: nat)
    ensures forall j :: 0 <= j < k ==>
      Run(Fresh(itemsMB, nitems), k)[j] ==
        if j < ItemCount(nitems) then Item(WorkItem(j + 1, itemsMB * BYTES_PER_MB)) else StopIteration
  {
    forall j | 0 <= j < k
      ensures Run(Fresh(itemsMB, nitems), k)[j] ==
        if j < ItemCount(nitems) then Item(WorkItem(j + 1, itemsMB * BYTES_PER_MB)) else StopIteration
    {
      RunAt(Fresh(itemsMB, nitems), k, j);
    }
  }

  /** Exhaustion is sticky: once a call has signalled StopIteration, so does every later call. */
  lemma ExhaustionSticky(c: Cursor, k: nat)
    requires Advance(c).1 == StopIteration
    ensures forall j :: 0 <= j < k ==> Run(Advance(c).0, k)[j] == StopIteration
  {
    forall j | 0 <= j < k ensures Run(Advance(c).0, k)[j] == StopIteration {
      RunAt(Advance(c).0, k, j);
    }
  }

  /** The yielded indices strictly increase, from any state, so no index is yielded twice. */
  lemma IndicesIncrease(c: Cursor, k: nat, i: nat, j: nat)
    requires i < j < k
    requires Run(c, k)[i].Item? && Run(c, k)[j].Item?
    ensures Run(c, k)[i].item.index < Run(c, k)[j].item.index
  {
    RunAt(c, k, i);
    RunAt(c, k, j);
  }

  /** The items a reader in state c yields before it is exhausted. */
  function Pending(c: Cursor): (items: seq<WorkItem>)
  {
    var n := if c.nitems - c.idx - 1 > 0 then c.nitems - c.idx - 1 else 0;
    seq(n, j requires 0 <= j < n => WorkItem(c.idx + j + 1, c.size))
  }

  /** Pending lists exactly the items of the calls before the first StopIteration, which follows them. */
  lemma PendingIsRun(c: Cursor)
    ensures Run(c, |Pending(c)| + 1) == seq(|Pending(c)|, j requires 0 <= j < |Pending(c)| => Item(Pending(c)[j])) + [StopIteration]
  {
    var n := |Pending(c)|;
    var lhs := Run(c, n + 1);
    var rhs := seq(n, j requires 0 <= j < n => Item(Pending(c)[j])) + [StopIteration];
    forall j | 0 <= j < n + 1 ensures lhs[j] == rhs[j] {
      RunAt(c, n + 1, j);
    }
  }

  class DataReader {
    var size: int
    var nitems: int
    var idx: int

    /** The reader's fields as a Cursor value. */
    function State(): Cursor
      reads this
    {
      Cursor(size, nitems, idx)
    }

    /** __init__(items_mb, nitems): size in bytes, the item count, the cursor at 0. */
    constructor (itemsMB: int, nitems: int)
      ensures size == itemsMB * BYTES_PER_MB && this.nitems == nitems && idx == 0
      ensures State() == Fresh(itemsMB, nitems)
    {
      size := itemsMB * BYTES_PER_MB;
      this.nitems := nitems;
      idx := 0;
    }

    /** __next__: advance the cursor by one, then yield (idx, size) unless idx >= nitems. */
    method Next() returns (s: Step)
      modifies this
      ensures idx == old(idx) + 1 && size == old(size) && nitems == old(nitems)
      ensures s == if idx >= nitems then StopIteration else Item(WorkItem(idx, size))
      ensures (State(), s) == Advance(old(State()))
    {
      idx := idx + 1;
      if idx >= nitems {
        return StopIteration;
      }
      return Item(WorkItem(idx, size));
    }
  }

  /**
   * A plain `for` loop over a reader (the reader is its own iterator): it
   * stops at the first StopIteration, having collected exactly Pending of
   * the starting state, and the reader has taken one call more than it
   * yielded items.
   */
  method Drain(r: DataReader) returns (items: seq<WorkItem>)
    modifies r
    ensures items == Pending(old(r.State()))
    ensures r.size == old(r.size) && r.nitems == old(r.nitems)
    ensures r.idx == old(r.idx) + |items| + 1
  {
    items := [];
    var done := false;
    while !done
      invariant r.size == old(r.size) && r.nitems == old(r.nitems)
      invariant r.idx == old(r.idx) + |items| + (if done then 1 else 0)
      invariant !done ==> r.idx < r.nitems || items == []
      invariant forall j :: 0 <= j < |items| ==> items[j] == WorkItem(old(r.idx) + j + 1, r.size)
      invariant !done ==> |items| <= |Pending(old(r.State()))|
      invariant done ==> |items| == |Pending(old(r.State()))|
      decreases !done, r.nitems - r.idx
    {
      var s := r.Next();
      match s
      case StopIteration =>
        done := true;
      case Item(w) =>
        items := items + [w];
    }
  }
}
