# Bulk ingestion into a distributed dictionary: a verified model

`data_loading_ddict.py` fills a Dragon distributed dictionary (DDict) with
synthetic records. A pool of worker processes does the writing. This project
models the sequential core of that script in Dafny and proves its properties:

- **`DataReader`** (module `Reader`) is the lazy work generator. It is a class
  with the fields `size`, `nitems` and `idx`. Its method `Next` is the Python
  `__next__`: it increments `idx` first, then returns `StopIteration` once
  `idx >= nitems`, and otherwise returns the item `(idx, size)`. The pure
  values `Cursor`, `Advance` and `Run` are its specification. `Run(c, k)` is
  the result of `k` successive calls.
- **`process_data`** (module `Worker`) is the per-item write. The store is a
  class `DDict` holding a `map<string, seq<bv8>>`, and it is passed in
  explicitly. The key is `"some_key_"` followed by the decimal digits of the
  index (module `Keys`). The value is `size` zero bytes. Any exception becomes
  the outcome `Failure(msg)`. The failures are checked in the order the body
  can raise them:
  - formatting the key raises Python's `ValueError` for an index of more than
    4300 digits, the default `sys.get_int_max_str_digits()`;
  - `bytearray` rejects a negative size with `"negative count"`;
  - the store's answer to the write is a parameter (`verdict`). `None` means
    the write was accepted. `Some(msg)` means an exception was raised with
    that message.
- **`setup_ddict`'s budget** (module `Capacity`) takes the node memories as a
  `seq<nat>`. A loop sums them. The store gets a tenth of the total, with two
  managers on each node.
- **The driver's loop over outcomes** (module `Driver`) produces events instead
  of printing. `Caught` stands for a "Worker caught an exception" line, and
  `Loaded` for a "loaded i of nitems" line at every position divisible by 100.
  Each event records the enumeration position it was emitted at. This is
  bookkeeping of the model, so that "reported exactly once" can be stated.

**Off-by-one in the generator, kept as written.** `__next__` moves the cursor before it tests
it, so a reader built for `nitems` items yields only `nitems - 1` of them,
with the indices `1 .. nitems-1` (and none when `nitems <= 1`). The driver
then prints `loaded 0 of 1000` up to `loaded 900 of 1000` for 999 items.
This may well be unintended. The model keeps the code's behaviour and states
it outright in `Reader.GeneratorYields`.

The store budget is `int(0.1 * total_mem)`, a fixed tenth of the summed node
memory, and `process_data` always writes `bytearray(size)`, a blob of zero bytes.

## Model

| member | source | states |
|---|---|---|
| `Keys.NatToDecimal` | data_loading_ddict.py:23 | the rendering of an index is a nonempty string of decimal digits in canonical form: it starts with '0' only for 0, and then it is that single digit |
| `Keys.ParseNatToDecimal` | data_loading_ddict.py:23 | reading the decimal digits back gives the original natural number |
| `Keys.IntToDecimal` | data_loading_ddict.py:23 | f-string rendering of an int: nonempty, with a leading '-' exactly for negative values |
| `Keys.ParseIntToDecimal` | data_loading_ddict.py:23 | rendering an int and parsing it back is the identity, negatives included |
| `Keys.KeyFor` | data_loading_ddict.py:23 | every derived key begins with "some_key_" and has at least one character after it |
| `Keys.KeyRoundTrip` | data_loading_ddict.py:23 | the index can be recovered from its key |
| `Keys.KeyInjective` | data_loading_ddict.py:23 | two keys are equal if and only if their indices are equal |
| `Keys.DigitsBelowPower` | data_loading_ddict.py:23 | a natural number has at most k >= 1 decimal digits exactly when it is below 10^k |
| `Keys.DigitLimitBound` | data_loading_ddict.py:23 | formatting an index stays within Python's 4300-digit bound exactly when -10^4300 < idx < 10^4300 |
| `Keys.DigitCountMonotone` | data_loading_ddict.py:23 | a smaller natural number never has more digits, so if the largest index a reader yields is within the bound, so is every index before it |
| `Reader.DataReader.constructor` | data_loading_ddict.py:52-55 | a fresh reader has size = items_mb * 1048576, the given nitems and idx = 0 |
| `Reader.DataReader.Next` | data_loading_ddict.py:60-64 | idx grows by exactly one, size and nitems are unchanged; the result is StopIteration when the new idx >= nitems, and otherwise the item (new idx, size) |
| `Reader.RunAt` | data_loading_ddict.py:60-64 | from any state, the j-th of k calls yields index idx + j + 1 with the reader's size while that index is below nitems, and StopIteration from then on |
| `Reader.GeneratorYields` | data_loading_ddict.py:52-64 | a fresh reader yields exactly max(nitems - 1, 0) items, the i-th with index i + 1 and size items_mb * 1048576, and every later call signals exhaustion |
| `Reader.ExhaustionSticky` | data_loading_ddict.py:61-63 | once a call has signalled StopIteration, every later call signals it too |
| `Reader.IndicesIncrease` | data_loading_ddict.py:61-64 | yielded indices strictly increase, so no index is yielded twice |
| `Reader.PendingIsRun` | data_loading_ddict.py:60-64 | the calls from any state are exactly the items of Pending, followed by StopIteration |
| `Reader.Drain` | data_loading_ddict.py:57-64 | a plain `for` loop over the reader (`__iter__` returns the reader itself) stops at the first StopIteration; it has then collected exactly Pending of the starting state, and the reader has taken one call more than it yielded items |
| `Worker.Zeros` | data_loading_ddict.py:24 | bytearray(n) has length n, and every byte in it is zero |
| `Worker.DDict.constructor` | data_loading_ddict.py:43-47 | a newly created store holds no keys |
| `Worker.DDict.Put` | data_loading_ddict.py:25 | an accepted write binds the key to the value and leaves the other keys alone; a rejected write changes nothing and its message is returned |
| `Worker.ProcessData` | data_loading_ddict.py:19-28 | the outcome is Success exactly when the index has at most 4300 digits, the size is non-negative, and the store accepts the write; an index over the bound fails with Python's digit-limit message; on success, key "some_key_idx" maps to size zero bytes and nothing else changes; on failure the store is unchanged and the exception comes back as a value. The result is exactly `Write` (whose outcome is `OutcomeOf`), the pure form of process_data that the batch lemmas are stated over |
| `Worker.WriteAll` | data_loading_ddict.py:79 | a batch of writes, each applying `Write` to the store left by the one before, produces exactly one outcome per item |
| `Worker.WriteAllOutcomes` | data_loading_ddict.py:21-28 | the j-th outcome is that item's own `OutcomeOf`, so one failing item does not change any other item's outcome |
| `Worker.WriteAllStored` | data_loading_ddict.py:22-26 | if the indices are distinct, the key of every successfully written item holds that item's zero bytes at the end, in any processing order: no item overwrites another |
| `Worker.WriteAllFrame` | data_loading_ddict.py:25 | a key that no successful item wrote is present and bound exactly as before the batch |
| `Capacity.TotalMemory` | data_loading_ddict.py:36-39 | the accumulation loop yields the sum of all node memories |
| `Capacity.DictMem` | data_loading_ddict.py:40 | the budget is the largest b with 10 * b <= total, so it never exceeds the total |
| `Capacity.SetupDDict` | data_loading_ddict.py:31-47 | the store request has two managers per node, all nodes, and a tenth of the summed memory (at most a tenth of the total) |
| `Capacity.SumAppend` | data_loading_ddict.py:36-39 | the total over two groups of nodes is the sum of the two totals |
| `Capacity.SumBoundsEach` | data_loading_ddict.py:36-39 | every node's memory is at most the total |
| `Capacity.SumPermutation` | data_loading_ddict.py:37-39 | the total does not depend on the order in which the nodes are enumerated |
| `Capacity.BudgetGrowsWithNodes` | data_loading_ddict.py:36-40 | adding a node never shrinks the budget |
| `Driver.ConsumeOutcomes` | data_loading_ddict.py:80-84 | the loop emits exactly the events of Report for the outcomes, in order; Report concatenates `EventsAt` (one iteration: a failure report if the outcome is not Success, then a progress report if the position is divisible by 100) over the positions |
| `Driver.EventsAtCounts` | data_loading_ddict.py:81-84 | `EventsAt`, one iteration, reports only its own position: one failure report when the outcome is a failure, and one progress report when the position is divisible by 100 |
| `Driver.ReportedExactlyOnce` | data_loading_ddict.py:80-84 | every failure outcome is reported exactly once and no success is ever reported; progress is reported exactly once at each position i with i % 100 == 0, starting at 0, and at no other position |
| `Driver.EventsDescribeOutcomes` | data_loading_ddict.py:80-84 | a failure report carries the message of the failure at its position; a progress report names a position divisible by 100 and the item total |
| `Driver.EventsInOrder` | data_loading_ddict.py:80 | events appear in enumeration order, and each one names a position that exists |
| `Driver.AcceptedItems` | data_loading_ddict.py:60-79 | the items dispatched from a fresh reader are nitems - 1 writes with indices 1 .. nitems-1 and the reader's size, all indices distinct: the premise under which no item overwrites another |
| `Driver.PermutedDistinct` | data_loading_ddict.py:61-79 | every order in which the pool may process a fresh reader's items (any permutation of them) keeps their indices distinct |
| `Driver.RunOutcomes` | data_loading_ddict.py:70-84 | on a store that accepts every write, a run over a fresh reader's items in any order gives nitems - 1 outcomes; each is for an index in 1 .. nitems-1 and is Success unless that index exceeds the digit bound, and all are Success when nitems - 1 is within the bound |
| `Driver.RunStore` | data_loading_ddict.py:70-84 | after such a run, in any order, key some_key_idx holds items_mb * 1048576 zero bytes for every idx in 1 .. nitems-1 within the digit bound |

## Left out

- initialize_worker and the `current_process().stash` handle are ambient per-process state. The store is passed to `ProcessData` explicitly instead.
- Pool, `imap_unordered` (chunks of 64), `cpu_count`, `set_start_method` and the `with` scope are concurrency and scheduling. `WriteAll` processes the items in the order it is given. Its lemmas hold for every order, and nothing is said about the order in which outcomes arrive.
- The internals of DDict (shards, manager placement, the byte budget's enforcement) and `destroy()` belong to a foreign service. The store is an abstract map, and whether it accepts a write is the `verdict` parameter.
- `System()`, `nnodes` and `Node(huid).physical_mem` are foreign cluster queries. The node memories are an input sequence, and the node count is its length.
- Capacity.DictMem: it models `int(0.1 * total_mem)` as the exact integer tenth `total / 10`. The double-precision product is not modelled, and it can round differently for totals near or above 2^52 bytes.
- Reader.DataReader.constructor: `items_mb` is an integer. A fractional `items_mb` (a float product truncated by `int`) is not modelled.
- Unpacking `idx, size = idx_size` cannot fail in the model, because a WorkItem is always a pair. An exception raised while allocating the bytes counts as a rejected write (`verdict`), and in both cases the store is unchanged.
- The text of the printed lines, `flush`, and the "DDict will be ... bytes" line are output only. They are modelled as events, or left out.
- Worker.ProcessData: uses Python's default digit bound of 4300. A bound changed through `sys.set_int_max_str_digits` or `PYTHONINTMAXSTRDIGITS` is not modelled, because the script never changes it.
- Reader.Drain: stops at the first StopIteration, as a `for` loop does. The pool at line 79 reads the reader in chunks of 64. After a partial last chunk it may call `__next__` once more, which is again StopIteration (`Reader.ExhaustionSticky`). The items are the same; only the final `idx`, which nothing reads again, can be one higher.
