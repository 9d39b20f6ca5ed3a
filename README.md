# Ordered multi-index key/value store (db.go), in Dafny

The package `db` keeps byte-string records in named indices. A package-level
registry maps each index name to an ordered tree of key/value pairs. The tree
orders pairs by the strict lexicographic comparison of their keys (Go's
`bytes.Compare(a, b) == -1`). The package offers four operations:

- `Put(keys, item)` writes one value under a list of (index, key) coordinates.
  It creates each unseen index on the way, copies the key and value, and
  replaces or inserts the pair.
- `Get(key)` is a point lookup. It returns `ErrInvalidIndex` for an unknown
  index and `ErrNotFound` for a missing key.
- `GetRange(start, end, values)` checks that both coordinates name the same
  index (`ErrIndexNotMatch`) and that the index exists (`ErrInvalidIndex`).
  It then streams the pairs with `start <= key < end` in ascending key order.
- `Count(index)` returns the number of distinct keys of an index, or
  `ErrInvalidIndex`.

The model has two modules:

- `ByteOrder` (`byte_order.dfy`) defines `Compare`, the three-way byte
  comparison, and `Less`, the item order. It proves that `Less` is a strict
  total order: irreflexive, asymmetric, transitive, and for distinct keys
  exactly one direction holds. Two keys count as the same tree key exactly
  when they are equal byte strings, so a tree is modelled as a finite map
  `map<seq<byte>, seq<byte>>`. `Least` picks the smallest key of a set,
  which is where an ascending traversal starts.
- `Db` (`db.dfy`) holds the data types: `Key`, `KeyValuePair`, `Error`,
  `Result`, `Tree` and `Registry`. `Get`, `Count` and `GetRange` are functions
  of the registry; the package global `indices` becomes their first parameter.
  `Store` is the object that owns the registry. Its `Put` method runs the
  loop of `Put` (db.go:38-50) and is proved equal to the specification function `PutAll`.
  The lemmas then characterise `Get`, `Count` and `GetRange` after any `Put`.

## Model

| member | source | states |
|---|---|---|
| ByteOrder.Compare | db.go:30 | result is -1, 0 or +1; 0 exactly when the byte strings are equal; a proper prefix compares as smaller |
| ByteOrder.CompareFirstDifference | db.go:30 | when two keys agree on their first `i` bytes and differ at byte `i`, that byte decides the comparison (lexicographic, not shorter-first) |
| ByteOrder.CompareAntisymmetric | db.go:30 | swapping the arguments negates the comparison |
| ByteOrder.LessIrreflexive | db.go:28-31 | no key is less than itself |
| ByteOrder.LessAsymmetric | db.go:28-31 | `Less(a, b)` excludes `Less(b, a)` |
| ByteOrder.LessTransitive | db.go:28-31 | `Less(a, b)` and `Less(b, c)` give `Less(a, c)` |
| ByteOrder.LessTrichotomy | db.go:28-31 | equal keys are unordered; for distinct keys exactly one of `Less(a, b)`, `Less(b, a)` holds, so tree keys are unique |
| ByteOrder.Least | db.go:92 | the result is in the set and sorts strictly before every other member |
| Db.Get | db.go:53-71 | `ErrInvalidIndex` exactly when the index is unknown; `ErrNotFound` exactly when the index exists and lacks the key; otherwise the stored value |
| Db.Count | db.go:103-109 | succeeds exactly when the index exists, with its number of distinct keys; otherwise `ErrInvalidIndex` |
| Db.Ascend | db.go:92-97 | the emitted pairs are strictly ascending by key, one per requested key, each with the value the tree stores |
| Db.GetRange | db.go:73-101 | different index names give `ErrIndexNotMatch` whether or not the indices exist; then an unknown index gives `ErrInvalidIndex`; errors emit nothing; on success exactly the stored pairs with `start <= key < end`, strictly ascending |
| Db.PutOne | db.go:39-49 | one loop round: the index exists afterwards, the key maps to the item, other keys and other indices keep their values |
| Db.Store.constructor | db.go:34-36 | the registry starts empty: every `Get` and `Count` fails with `ErrInvalidIndex` |
| Db.Store.Put | db.go:33-51 | the new registry is `PutAll` of the old one; every named index exists; unnamed indices are unchanged; every written coordinate reads back the item |
| Db.PutAllIndices | db.go:38-50 | after `Put` the index names are the old ones plus those named in `keys`; indices not named are unchanged |
| Db.PutAllKeys | db.go:38-50 | after `Put` each index holds its old keys plus the keys written to it, and no others |
| Db.PutThenGet | db.go:33-71 | `Get` after `Put`: a written coordinate returns the item; an unwritten key of an index `Put` just created is `ErrNotFound`; every other coordinate answers as before |
| Db.PutThenCount | db.go:38-50 | `Count` after `Put` is the size of the union of old and written keys for a known or named index; other indices stay `ErrInvalidIndex` |
| Db.PutTwiceReplaces | db.go:49 | repeating a `Put` with a new value makes `Get` return the new value, leaves every other coordinate alone, and changes no `Count` |
| Db.PutExistingKeepsCount | db.go:49 | writing a key already present does not change the index's count |
| Db.PutNewGrowsCount | db.go:39-49 | writing a missing key adds one to the count; writing to an unknown index creates it with count 1 |
| Db.ScanCoveringAllKeys | db_test.go:100-136 | a scan whose interval covers every stored key emits as many pairs as `Count` reports |
| Db.ScanEmptyUnlessStartBeforeEnd | db.go:92 | an end key that does not sort after the start key gives an empty successful scan |
| Db.ScanLeastToBumpedLargest | db_test.go:100-136 | a scan from the smallest stored key to the largest stored key with its last byte bumped succeeds and emits as many pairs as `Count` reports |
| Db.AscendingUnique | db.go:89-97 | two strictly ascending sequences with the same pairs are equal, so `GetRange`'s contract fixes its output |
| Db.PutThenScan | db.go:89-97 | after writing `(I, k)`, a scan of `I` whose interval holds `k` emits `(k, item)` |
| Db.BumpLast | db_test.go:118 | adding one to the last byte keeps the length and the other bytes |
| Db.BumpLastIsAbove | db_test.go:118 | the bumped key sorts strictly after the original |
| Db.BumpLastBoundsBelow | db_test.go:107-119 | every key up to the largest key sorts strictly before the bumped largest key, so an end-exclusive scan to it includes the largest key |

## Left out

- The goroutine and channel of `GetRange` (db.go:89-98) are concurrency. The model returns the finite sequence the producer would send. Closing the channel on an error path becomes "error, nothing emitted". Blocking, back-pressure and an abandoned consumer are not modelled.
- The tree library `github.com/petar/GoLLRB/llrb` is not part of this model. Its `ReplaceOrInsert`, `Get`, `AscendRange` and `Len` are abstracted as map update, map lookup, `Ascend` over `RangeKeys`, and map size. Red-black balancing is not modelled.
- Slice aliasing is not modelled. `Get` returns the stored slice without a copy (db.go:70), while `Put` copies key and value (db.go:44-47). Dafny sequences are values, so both behave as copies.
- The lazy `nil` initialisation of `indices` (db.go:34-36) is modelled as a registry that starts empty. `Get` on a `nil` registry and on an empty one both answer `ErrInvalidIndex`.
- Data races between concurrent callers are not modelled; the package has no locking.
- A `nil` `*Key` argument is not modelled; coordinates are values. Go panics on it in `Put`, in `GetRange`, and in `Get` once `indices` exists; `Get` before the first `Put` answers `ErrInvalidIndex` without reading the key (db.go:54-55).
- db.go has no arena and no allocation failure: it allocates with `make` (db.go:44, 46), so the model has no `OutOfMemory` error.
- The error messages ("Key not found" and the others, db.go:12-14) are not modelled; the errors are the three constructors of `Error`.
- Db.BumpLast: requires a last byte below 255. Go's `++` on a byte wraps 255 to 0, which would give a smaller end key. The test's keys are letters, so it never meets that case.
- `randString` and the benchmarks (db_test.go:13-37, 139-193) are test utilities and timing harnesses.
