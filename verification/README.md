# rustyrocks: the associative-merge protocol, modelled in Dafny

rustyrocks is a typed layer over RocksDB. Keys and values are stored as byte
strings produced by per-type codecs. A value type may also be
*mergeable*: callers queue values with `merge`, and RocksDB folds them
into the stored value with a registered callback, the reducer.

This project models the following, as pure functions over immutable data:

- `Codecs` (`codecs.dfy`): byte strings, `Option`/`Result`, and the codec
  pair that `StaticSerialize` and `StaticDeserialize` stand for. Encoding is
  total. Decoding is fallible. The round-trip law `Lawful` is a predicate
  over the codec, so every codec stays an abstract function parameter.
- `Reducer` (`reducer.dfy`): the callback `merge::<V>` and `unwrap_or_log`.
  It also gives a reference semantics: a left fold of `combine` over the
  values that decode. Lemmas link the callback to that reference and state
  skip-resilience, re-merging and batching.
- `TypedStore` (`store.dfy`): `KeyValueDB`/`MergeableDB` `get`, `put`,
  `merge` and `new`. They run over an engine modelled as a map from key
  bytes to a record: the value last `put`, plus the operands queued since.
  The model also covers the engine's use of the registered callback, both
  on reads and during full and partial compaction.
- `TypedIter` (`iter.dfy`): `DBIter::next` over the engine's remaining
  pairs, and a consumer that drains it.
- `WordSets` (`wordsets.dfy`): the example `examples/helloworld.rs`. It has
  `BSet` with `append` as its merge, the always-panicking
  `handle_deser_error`, the `trim().splitn(2, ' ')` line parse, and the
  loader that merges `{value}` under `word` for each line.

`AssociateMergeable::merge(&mut self, other)` is modelled by a pure
`combine: (V, V) -> V`, which gives the value `self` holds afterwards.
`MergeableDB::get` and `MergeableDB::put` (src/lib.rs:158-170) forward to
`KeyValueDB::get` and `KeyValueDB::put`, so `TypedStore.Get` and
`TypedStore.Put` model both.

Choices about the engine, which the source leaves to RocksDB:

- `MergeableDB::new(path)` opens whatever database is at `path`.
  `create_if_missing(true)` (src/lib.rs:180) makes an empty one when none
  is there. `Open` therefore takes the engine found at the path.
- `put` replaces the whole record. Operands queued earlier no longer apply,
  and later `merge`s fold onto the `put` value as their base.
- A read of a record with no queued operands returns the stored bytes
  without calling the reducer.
- A read whose reducer returns `None` is a failed merge. The engine reports
  it as an error, the `MergeError` outcome of `get`, not as an absent key.
  This happens when there is no stored value and no queued operand decodes.
- A full compaction stores the reducer's output with no operands queued.
  A failed merge fails the compaction, and a reducer panic aborts it.
- When a partial merge returns `None`, its operands are left queued.
- `MergeableDB::new` passes no partial-merge function (src/lib.rs:182), so
  partial merges run the same callback with no stored value.

Facts about the code that shape the model:

- The reducer calls `expect` on the stored value (src/lib.rs:129-130), so an
  undecodable stored value panics. This is the `Aborted` outcome. As a
  result, `get` reports `Undecodable` for a corrupt `put` value, but once
  one operand is queued on that key, the same read is `Crashed`.
- The library's reducer has no decode-error hook. It logs an undecodable
  operand and skips it (src/lib.rs:114-122, 133).
- The example is written against an API the library does not define:
  `Serializable`, `handle_deser_error`, `into_bytes`, `db_iter`, and a
  `MergeableDB` with three type parameters. Each file is modelled as
  written and the two are not reconciled. The example's
  `handle_deser_error` is modelled on its own, and the library's reducer
  never calls it.

## Model

| member | source | states |
|---|---|---|
| Codecs.LawfulIsInjective | src/lib.rs:47-53 | Under the round-trip law, two keys with the same encoding are equal, so distinct typed keys never share an engine key. |
| Reducer.UnwrapOrLog | src/lib.rs:114-122 | A decode result becomes `Some` exactly when decoding succeeded, holding the decoded value. A failure becomes `None`, not an error. |
| Reducer.Step | src/lib.rs:135-143 | The running value is absent afterwards only if it was absent and the operand did not decode. An operand that fails leaves the running value unchanged. With no running value, the decoded operand is adopted. |
| Reducer.FoldOperands | src/lib.rs:132-144 | After the operand loop there is no running value exactly when there was none at the start and no operand decoded. |
| Reducer.Reduce | src/lib.rs:124-147 | The reducer aborts exactly when a stored value is present and does not decode. It returns `None` exactly when there is no stored value and no operand decodes, so with no stored value and no operands it returns `None`. |
| Reducer.FoldOperandsIsFold | src/lib.rs:132-144 | The operand loop computes the left fold of `combine` over the starting value, followed by the operands that decode, in order. |
| Reducer.ReduceIsFoldOfDecoded | src/lib.rs:129-146 | With a decodable or absent stored value, the reducer returns the encoding of the left fold over the decoded stored value followed by the decodable operands, in order. With an undecodable stored value it aborts. |
| Reducer.DecodedHas | src/lib.rs:132-134 | Every operand that decodes contributes its value to the sequence the reducer folds. |
| Reducer.SkipUndecodableOperand | src/lib.rs:133-143 | Inserting an undecodable operand at any position leaves the reducer's result unchanged. |
| Reducer.ReduceAgainOnResult | src/lib.rs:124-147 | Under the round-trip law, running the reducer on its own earlier output plus later operands gives the same result as one run over all the operands. |
| Reducer.FoldSplit | src/lib.rs:135-143 | For an associative `combine`, the fold of a concatenation is `combine` of the two folds. |
| Reducer.FoldCollapse | src/lib.rs:135-143 | For an associative `combine`, replacing any non-empty run of values by its fold leaves the whole fold unchanged. |
| Reducer.FoldOfSpliced | src/lib.rs:182 | For an associative `combine`, standing a run of values in for their own fold leaves the fold over the whole queue unchanged. |
| Reducer.DecodedPartialMerge | src/lib.rs:182 | Under the round-trip law, the output of a partial merge decodes to the fold of the operands it consumed. |
| Reducer.PartialMergeBatching | src/lib.rs:182 | For a lawful codec and an associative `combine`, merging a contiguous run of operands on its own and splicing the result back gives the same final value as one full merge. |
| TypedStore.Read | src/lib.rs:57 | The engine's read of an absent key finds nothing. A record with no queued operands gives its stored bytes, or nothing when it has none. Otherwise the read panics exactly when the stored value does not decode, and fails exactly when there is no stored value and no operand decodes. In every other case it finds the encoding of the left fold of the decoded stored value and the decodable operands. |
| TypedStore.Get | src/lib.rs:55-66 | An absent key, or a record holding nothing, gives `None`. A plain record whose value decodes gives that value. A plain record whose value does not decode gives that decode error. The read crashes exactly when operands are queued and the stored value does not decode. It reports a merge error exactly when operands are queued, there is no stored value and none of them decodes. |
| TypedStore.Open | src/lib.rs:178-188 | Opening gives the store over the database found at the path, with the value type's schema. When that database is newly created and empty, every key reads as absent. |
| TypedStore.Put | src/lib.rs:47-53 | The record at the encoded key becomes the encoded value with no queued operands. Every other record is unchanged, and no other key is added. |
| TypedStore.Merge | src/lib.rs:190-196 | One encoded operand is appended to the key's queue. The stored value and earlier operands are kept, and every other record is unchanged. |
| TypedStore.GetMerged | src/lib.rs:55-66 | Under the value round-trip law, `get` of a key with queued operands, when it neither crashes nor reports a merge error, returns the left fold of `combine` over the decoded stored value followed by the operands that decode, in order. |
| TypedStore.PutThenGet | src/lib.rs:47-66 | Under the value round-trip law, `get` after `put` returns the value that was put. |
| TypedStore.PutLeavesOtherKeys | src/lib.rs:47-53 | Under the key round-trip law, `put` does not change what `get` returns for any other key. |
| TypedStore.MergeLeavesOtherKeys | src/lib.rs:190-196 | Under the key round-trip law, `merge` does not change what `get` returns for any other key. |
| TypedStore.ReduceAfterMerge | src/lib.rs:124-147 | After a successful `get`, queueing one more encoded operand makes the reducer output the encoding of `combine(previous, v)`, or of `v` alone when nothing was there. |
| TypedStore.MergeThenGet | src/lib.rs:124-147 | After a successful `get`, merging `v` makes the next `get` return `combine(previous, v)`, or `v` alone when nothing was there. |
| TypedStore.ReduceOneOperand | src/lib.rs:129-146 | Under the round-trip law, reducing one operand gives that operand when there is no stored value, and `combine(stored, operand)` when there is a decodable one. |
| TypedStore.Compact | src/lib.rs:182 | This is the engine's full compaction of one key with the registered callback. It aborts exactly when the read panics, and fails exactly when the read's merge fails. When the read finds bytes, the key is left holding exactly those bytes with no queued operands. When it finds nothing, the key is removed. Every other record is unchanged. |
| TypedStore.CompactPreservesGet | src/lib.rs:182 | A compaction that neither aborts nor fails never changes what `get` returns for any key. |
| TypedStore.PartialCompact | src/lib.rs:182 | When the callback returns bytes for a run of queued operands, a partial merge replaces that run with them. When it returns nothing, the store is left exactly as it was. The stored value and every other record are unchanged. |
| TypedStore.PartialCompactPreservesRead | src/lib.rs:182 | For a lawful value codec and an associative `combine`, a partial merge leaves the engine's read of that key unchanged. |
| TypedStore.PartialCompactPreservesGet | src/lib.rs:182 | For a lawful value codec and an associative `combine`, a partial merge of any run of queued operands never changes what `get` returns. |
| TypedIter.DecodePair | src/lib.rs:81-93 | The item is `Ok((k, v))` exactly when both decode. The key is decoded first: its error wins, and the value's error appears only when the key decodes. |
| TypedIter.Next | src/lib.rs:78-94 | `next` returns `None` exactly when the engine is exhausted. Otherwise it returns the item for the engine's next pair and advances past that pair. |
| TypedIter.Drain | src/lib.rs:75-94 | Draining the iterator yields exactly one item per engine pair, in the engine's order, and skips none. |
| WordSets.Append | examples/helloworld.rs:27-29 | `BSet::merge` leaves `self` holding exactly the elements of both sets, and leaves `other` empty. |
| WordSets.UnionIsAssociative | examples/helloworld.rs:27-29 | The merge of `BSet` is associative. |
| WordSets.UnionCommutesAndAbsorbs | examples/helloworld.rs:27-29 | The merge of `BSet` is commutative, and merging an already merged operand again changes nothing. |
| WordSets.HandleDeserError | examples/helloworld.rs:31-36 | The example's decode-error hook never recovers a value and never drops the operand. It always panics with the key, the raw bytes and the error. |
| WordSets.SkipWhitespace | examples/helloworld.rs:52 | Stops at the first non-whitespace character at or after the start, having passed over only whitespace. |
| WordSets.SkipWhitespaceBack | examples/helloworld.rs:52 | Stops after the last non-whitespace character, having passed over only whitespace. |
| WordSets.TrimBounds | examples/helloworld.rs:52 | `trim` keeps one slice. Everything before and after it is whitespace, and the slice starts and ends on non-whitespace. If nothing is kept, the whole line was whitespace. |
| WordSets.Trim | examples/helloworld.rs:52 | A trimmed line is one contiguous slice of the line. Everything before and after that slice is whitespace, and the slice neither starts nor ends with whitespace. |
| WordSets.FirstIndexOf | examples/helloworld.rs:52 | Returns the position of the first occurrence of the character, or `None` exactly when it does not occur. |
| WordSets.SplitN2 | examples/helloworld.rs:52 | `splitn(2, sep)` returns one part, the whole text, exactly when `sep` does not occur. Otherwise it returns the text before the first `sep` and the rest, which join back with `sep`. |
| WordSets.ParseLine | examples/helloworld.rs:52-58 | A line is rejected exactly when its trimmed form has no space. Otherwise the word is the text before the first space and the value is everything after it. Both are non-empty, and the word contains no space. |
| WordSets.IngestLine | examples/helloworld.rs:52-64 | A rejected line leaves the store unchanged. An accepted line queues the encoded set `{value}` at the encoded `word`, after the operands already there, and changes no other record. |
| WordSets.Ingest | examples/helloworld.rs:50-64 | Loading lines only queues operands. Every stored value stays, every queued operand stays at the front of its queue, and any record it adds has no stored value. |
| WordSets.Extend | examples/helloworld.rs:59-64 | What `get` of a word returns after values are merged onto what it returned before. It is absent only if it was absent and no value arrived. A set, even an empty one, gains exactly the new values. |
| WordSets.ExtendTwice | examples/helloworld.rs:59-64 | Extending by one set of values and then another is extending once by their union. |
| WordSets.MergeExtends | examples/helloworld.rs:59-62 | When `get` of a word succeeded, merging `{value}` under it makes `get` return the previous result extended by `value`. |
| WordSets.IngestLineStep | examples/helloworld.rs:59-64 | When `get` of a word succeeded, one loader step makes it return the previous result extended by what the line contributes under that word. |
| WordSets.ValuesForMembers | examples/helloworld.rs:52-62 | A value is among those collected for a word exactly when some line contributes it under that word. |
| WordSets.IngestReadsBack | examples/helloworld.rs:50-64 | From any store where `get` of a word succeeds, a reopened one included, loading lines makes `get` of that word return the previous result extended by every value the lines bring under it. This covers a stored empty set too, which stays a set. |
| WordSets.IngestThenGet | examples/helloworld.rs:50-64 | After lines are loaded into a newly created, empty store, `get` of a word returns exactly the set of values seen with that word. A word that never occurred gives `None`. |
| WordSets.TwoMergesReadBackUnion | examples/helloworld.rs:59-62 | Merging `{"a"}` and then `{"b"}` under one key reads back as `{"a", "b"}`. |
| WordSets.FoldUnionCovers | examples/helloworld.rs:27-29 | Every set folded by union is contained in the result. |
| WordSets.FoldUnionAbsorbs | examples/helloworld.rs:27-29 | Folding by union absorbs a repeat of any value already folded. |
| WordSets.FoldRedelivered | examples/helloworld.rs:27-29 | The values the reducer folds, with an operand delivered twice, fold by union to the same set as with it delivered once. |
| WordSets.RedeliveryIsIdempotent | examples/helloworld.rs:27-29 | Re-delivering an operand that is already queued does not change the reducer's result for `BSet`. |

## Left out

- RocksDB itself is not modelled: `Options`, `DB::open`, durability, the
  on-disk format, and when compaction runs. The engine is an abstract map
  with operand queues. The same goes for the `KeyValueDB::new` and
  `into_iter` constructors, which only wrap a handle.
- Engine I/O errors, which `put`, `get` and `merge` propagate with `?`, are
  not modelled. Neither is the example's "Ignoring merge err" branch. The
  only engine failure in the model is a failed merge (`MergeError`).
- `DBPinnableSlice` and zero-copy borrowing are left out. They are memory
  management with no behavioural content.
- bincode is left out. Codecs are abstract function parameters, with the
  round-trip law as a precondition wherever a property needs it.
- The `println!` logging in `unwrap_or_log` and the `failure::Error`
  conversions are left out. They are output and error-type plumbing.
- The stdin read loop and all printing in the example are left out.
  `Ingest` takes the lines as a sequence. src/main.rs is not part of this
  model: it is input/output plumbing, and its line parse repeats the
  example's.
- The order in which the engine iterates keys (by key bytes) is not
  modelled. `DBIter` takes the engine's remaining pairs as a parameter.
- Engine thread-safety and snapshot semantics are left out. The core has no
  concurrency of its own.
