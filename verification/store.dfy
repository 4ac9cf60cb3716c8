/** The typed store of src/lib.rs (`KeyValueDB` and `MergeableDB`) over an
    abstract engine. The engine is a map from key bytes to a record: the
    value last written by `put`, if any, and the merge operands queued
    since, oldest first. The engine runs the registered reducer when a read
    meets queued operands, and when it compacts a record. */
module TypedStore {
  import opened Codecs
  import opened Reducer

  datatype Record = Record(base: Option<Bytes>, pending: seq<Bytes>)

  type Engine = map<Bytes, Record>

  /** What the store is generic over: the key codec, the value codec, and
      the value type's `merge`, registered with the engine on opening. */
  datatype Schema<!K, !V> = Schema(keys: Codec<K>, values: Codec<V>, combine: (V, V) -> V)

  datatype Store<!K, !V> = Store(schema: Schema<K, V>, engine: Engine)

  /** The outcome of a typed `get`: a value or its absence, a decode error
      surfaced to the caller, the engine's error for a failed merge, or the
      reducer's panic inside the engine. */
  datatype Fetched<V> = Got(value: Option<V>) | Undecodable(error: DecodeError) | MergeError | Crashed

  /** What the engine's point read finds for one key. When the callback
      returns nothing, the engine counts the merge as failed and reports an
      error rather than an absent key. */
  datatype Lookup = NotFound | Found(bytes: Bytes) | MergeFailed | ReducerPanicked

  /** The engine's reading of the callback's answer. */
  function FromReduce(m: MergeResult): Lookup
  {
    match m
    case Aborted => ReducerPanicked
    case Merged(None) => MergeFailed
    case Merged(Some(b)) => Found(b)
  }

  /** The engine's read of one key (behind `get_pinned`): the stored bytes
      directly when no operands are queued; otherwise the reducer's fold of
      the stored value and the queued operands. */
  function Read<K, V>(s: Store<K, V>, kb: Bytes): (r: Lookup)
    ensures kb !in s.engine ==> r == NotFound
    ensures kb in s.engine && s.engine[kb].pending == [] ==>
              r == (if s.engine[kb].base.Some? then Found(s.engine[kb].base.value) else NotFound)
    ensures r.ReducerPanicked? <==> kb in s.engine && s.engine[kb].pending != [] && s.engine[kb].base.Some?
                                    && s.schema.values.decode(s.engine[kb].base.value).Err?
    ensures r.MergeFailed? <==> kb in s.engine && s.engine[kb].pending != [] && s.engine[kb].base.None?
                                && AllUndecodable(s.schema.values.decode, s.engine[kb].pending)
    ensures kb in s.engine && s.engine[kb].pending != [] && !r.ReducerPanicked? && !r.MergeFailed? ==>
              var out := EncodeMerged(s.schema.values,
                Fold(s.schema.combine, BaseValues(s.schema.values, s.engine[kb].base)
                                       + Decoded(s.schema.values.decode, s.engine[kb].pending)));
              out.Some? && r == Found(out.value)
  {
    if kb !in s.engine then NotFound
    else
      var rec := s.engine[kb];
      if rec.pending == [] then (if rec.base.Some? then Found(rec.base.value) else NotFound)
      else
        ReduceIsFoldOfDecoded(s.schema.values, s.schema.combine, rec.base, rec.pending);
        FromReduce(Reduce(s.schema.values, s.schema.combine, rec.base, rec.pending))
  }

  /** `get`: encode the key, read, and decode what was found. */
  function Get<K, V>(s: Store<K, V>, k: K): (r: Fetched<V>)
    ensures s.schema.keys.encode(k) !in s.engine ==> r == Got(None)
    ensures var kb := s.schema.keys.encode(k);
            kb in s.engine && s.engine[kb].pending == [] && s.engine[kb].base.None? ==> r == Got(None)
    ensures var kb := s.schema.keys.encode(k);
            kb in s.engine && s.engine[kb].pending == [] && s.engine[kb].base.Some? ==>
              (match s.schema.values.decode(s.engine[kb].base.value)
               case Ok(v) => r == Got(Some(v))
               case Err(e) => r == Undecodable(e))
    ensures var kb := s.schema.keys.encode(k);
            r.Crashed? <==> kb in s.engine && s.engine[kb].pending != [] && s.engine[kb].base.Some?
                            && s.schema.values.decode(s.engine[kb].base.value).Err?
    ensures var kb := s.schema.keys.encode(k);
            r.MergeError? <==> kb in s.engine && s.engine[kb].pending != [] && s.engine[kb].base.None?
                               && AllUndecodable(s.schema.values.decode, s.engine[kb].pending)
  {
    match Read(s, s.schema.keys.encode(k))
    case NotFound => Got(None)
    case Found(vb) =>
      (match s.schema.values.decode(vb)
       case Ok(v) => Got(Some(v))
       case Err(e) => Undecodable(e))
    case MergeFailed => MergeError
    case ReducerPanicked => Crashed
  }

  /** `MergeableDB::new(path)`: the store over the database found at `path`,
      with the reducer registered for the value type. `create_if_missing`
      makes a new, empty database when there is none, and then every key
      reads as absent. */
  function Open<K(!new), V>(schema: Schema<K, V>, found: Engine): (s: Store<K, V>)
    ensures s.schema == schema && s.engine == found
    ensures found == map[] ==> forall k :: Get(s, k) == Got(None)
  {
    Store(schema, found)
  }

  /** `put`: the record at the encoded key is replaced by the encoded value;
      operands queued before it no longer apply. */
  function Put<K, V>(s: Store<K, V>, k: K, v: V): (r: Store<K, V>)
    ensures r.schema == s.schema
    ensures r.engine.Keys == s.engine.Keys + {s.schema.keys.encode(k)}
    ensures r.engine[s.schema.keys.encode(k)] == Record(Some(s.schema.values.encode(v)), [])
    ensures forall kb :: kb in s.engine && kb != s.schema.keys.encode(k) ==> r.engine[kb] == s.engine[kb]
  {
    var kb := s.schema.keys.encode(k);
    s.(engine := s.engine[kb := Record(Some(s.schema.values.encode(v)), [])])
  }

  /** `MergeableDB::merge`: the encoded value is queued as one more operand
      at the encoded key; the stored value and earlier operands stay. */
  function Merge<K, V>(s: Store<K, V>, k: K, v: V): (r: Store<K, V>)
    ensures r.schema == s.schema
    ensures r.engine.Keys == s.engine.Keys + {s.schema.keys.encode(k)}
    ensures var kb := s.schema.keys.encode(k);
            r.engine[kb].pending == (if kb in s.engine then s.engine[kb].pending else []) + [s.schema.values.encode(v)]
            && r.engine[kb].base == (if kb in s.engine then s.engine[kb].base else None)
    ensures forall kb :: kb in s.engine && kb != s.schema.keys.encode(k) ==> r.engine[kb] == s.engine[kb]
  {
    var kb := s.schema.keys.encode(k);
    var rec := if kb in s.engine then s.engine[kb] else Record(None, []);
    s.(engine := s.engine[kb := rec.(pending := rec.pending + [s.schema.values.encode(v)])])
  }

  /** Full compaction of one key: the engine runs the reducer and stores
      its output as the new value with no operands queued. A record that
      reads as absent is dropped. A failed merge fails the compaction and a
      panic aborts it; either way the record is not rewritten. */
  datatype Compaction<!K, !V> = Compacted(store: Store<K, V>) | CompactionFailed | CompactionAborted

  function Compact<K, V>(s: Store<K, V>, kb: Bytes): (r: Compaction<K, V>)
    ensures r.CompactionAborted? <==> Read(s, kb).ReducerPanicked?
    ensures r.CompactionFailed? <==> Read(s, kb).MergeFailed?
    ensures r.Compacted? ==> r.store.schema == s.schema
    ensures r.Compacted? && Read(s, kb).Found? ==>
              kb in r.store.engine && r.store.engine[kb] == Record(Some(Read(s, kb).bytes), [])
    ensures r.Compacted? && Read(s, kb).NotFound? ==> kb !in r.store.engine
    ensures r.Compacted? && kb in r.store.engine ==>
              r.store.engine[kb].pending == [] && r.store.engine[kb].base.Some?
    ensures r.Compacted? ==> forall kb' :: kb' != kb ==> (kb' in r.store.engine <==> kb' in s.engine)
    ensures r.Compacted? ==> forall kb' :: kb' in s.engine && kb' != kb ==> r.store.engine[kb'] == s.engine[kb']
  {
    match Read(s, kb)
    case ReducerPanicked => CompactionAborted
    case MergeFailed => CompactionFailed
    case NotFound => Compacted(s.(engine := s.engine - {kb}))
    case Found(b) => Compacted(s.(engine := s.engine[kb := Record(Some(b), [])]))
  }

  /** Partial merge of the operands `pending[i..j]`: the reducer runs on them
      with no stored value (src/lib.rs passes no separate partial-merge
      function, so the engine uses the full one) and its output replaces
      them; an empty output leaves the store as it was. */
  function PartialCompact<K, V>(s: Store<K, V>, kb: Bytes, i: nat, j: nat): (r: Store<K, V>)
    requires kb in s.engine && i <= j <= |s.engine[kb].pending|
    ensures r.schema == s.schema && r.engine.Keys == s.engine.Keys
    ensures r.engine[kb].base == s.engine[kb].base
    ensures forall kb' :: kb' in s.engine && kb' != kb ==> r.engine[kb'] == s.engine[kb']
    ensures var ops := s.engine[kb].pending;
            var out := Spliced(Reduce(s.schema.values, s.schema.combine, None, ops[i..j]));
            (out != [] ==> r.engine[kb].pending == ops[..i] + out + ops[j..])
            && (out == [] ==> r == s)
  {
    var rec := s.engine[kb];
    match Reduce(s.schema.values, s.schema.combine, None, rec.pending[i..j])
    case Merged(Some(b)) =>
      s.(engine := s.engine[kb := rec.(pending := rec.pending[..i] + [b] + rec.pending[j..])])
    case _ => s
  }

  // ---------------------------------------------------------------------
  // Properties of the typed operations.
  // ---------------------------------------------------------------------

  /** A value written by `put` is read back by `get`. */
  lemma PutThenGet<K, V(!new)>(s: Store<K, V>, k: K, v: V)
    requires Lawful(s.schema.values)
    ensures Get(Put(s, k, v), k) == Got(Some(v))
  {
    assert s.schema.values.decode(s.schema.values.encode(v)) == Ok(v);
  }

  /** `put` on one key leaves what `get` returns for every other key. */
  lemma PutLeavesOtherKeys<K(!new), V>(s: Store<K, V>, k: K, v: V, other: K)
    requires Lawful(s.schema.keys)
    requires other != k
    ensures Get(Put(s, k, v), other) == Get(s, other)
  {
    LawfulIsInjective(s.schema.keys, k, other);
  }

  /** `merge` on one key leaves what `get` returns for every other key. */
  lemma MergeLeavesOtherKeys<K(!new), V>(s: Store<K, V>, k: K, v: V, other: K)
    requires Lawful(s.schema.keys)
    requires other != k
    ensures Get(Merge(s, k, v), other) == Get(s, other)
  {
    LawfulIsInjective(s.schema.keys, k, other);
  }

  /** After a successful `get`, a `merge` of `v` makes the next `get` return
      `v` combined onto what was there, or `v` alone if nothing was. */
  lemma MergeThenGet<K, V(!new)>(s: Store<K, V>, k: K, v: V)
    requires Lawful(s.schema.values)
    requires Get(s, k).Got?
    ensures Get(Merge(s, k, v), k)
         == Got(Some(match Get(s, k).value case None => v case Some(p) => s.schema.combine(p, v)))
  {
    var vc := s.schema.values;
    var kb := s.schema.keys.encode(k);
    var ob := vc.encode(v);
    var rec := if kb in s.engine then s.engine[kb] else Record(None, []);
    var want := match Get(s, k).value case None => v case Some(p) => s.schema.combine(p, v);
    var s' := Merge(s, k, v);
    assert s'.engine[kb] == Record(rec.base, rec.pending + [ob]);
    ReduceAfterMerge(s, k, v);
    assert Read(s', kb) == Found(vc.encode(want));
    assert vc.decode(vc.encode(want)) == Ok(want);
  }

  /** The reducer's output for a key whose `get` succeeded, once one more
      operand is queued on it. */
  lemma ReduceAfterMerge<K, V(!new)>(s: Store<K, V>, k: K, v: V)
    requires Lawful(s.schema.values)
    requires Get(s, k).Got?
    ensures var kb := s.schema.keys.encode(k);
            var rec := if kb in s.engine then s.engine[kb] else Record(None, []);
            Reduce(s.schema.values, s.schema.combine, rec.base, rec.pending + [s.schema.values.encode(v)])
            == Merged(Some(s.schema.values.encode(
                 match Get(s, k).value case None => v case Some(p) => s.schema.combine(p, v))))
  {
    var vc, combine := s.schema.values, s.schema.combine;
    var kb := s.schema.keys.encode(k);
    var ob := vc.encode(v);
    var rec := if kb in s.engine then s.engine[kb] else Record(None, []);
    if rec.pending == [] {
      assert rec.pending + [ob] == [ob];
      ReduceOneOperand(vc, combine, rec.base, v);
    } else {
      var m := Reduce(vc, combine, rec.base, rec.pending);
      assert Read(s, kb) == FromReduce(m);
      ReduceAgainOnResult(vc, combine, rec.base, rec.pending, [ob]);
      ReduceOneOperand(vc, combine, m.bytes, v);
    }
  }

  /** `get` of a key with queued operands, when the read neither panics nor
      fails: the left fold of the decoded stored value followed by the
      operands that decode, in order. */
  lemma GetMerged<K, V(!new)>(s: Store<K, V>, k: K)
    requires Lawful(s.schema.values)
    requires s.schema.keys.encode(k) in s.engine && s.engine[s.schema.keys.encode(k)].pending != []
    requires !Get(s, k).Crashed? && !Get(s, k).MergeError?
    ensures var rec := s.engine[s.schema.keys.encode(k)];
            Get(s, k) == Got(Fold(s.schema.combine, BaseValues(s.schema.values, rec.base)
                                                    + Decoded(s.schema.values.decode, rec.pending)))
  {
    var vc := s.schema.values;
    var rec := s.engine[s.schema.keys.encode(k)];
    var f := Fold(s.schema.combine, BaseValues(vc, rec.base) + Decoded(vc.decode, rec.pending));
    assert f.Some?;
    assert vc.decode(vc.encode(f.value)) == Ok(f.value);
  }

  /** The reducer over a single encoded operand. */
  lemma ReduceOneOperand<V(!new)>(vc: Codec<V>, combine: (V, V) -> V, existing: Option<Bytes>, v: V)
    requires Lawful(vc)
    ensures existing.None? ==> Reduce(vc, combine, existing, [vc.encode(v)]) == Merged(Some(vc.encode(v)))
    ensures existing.Some? && vc.decode(existing.value).Ok? ==>
              Reduce(vc, combine, existing, [vc.encode(v)])
              == Merged(Some(vc.encode(combine(vc.decode(existing.value).value, v))))
  {
    var ob := vc.encode(v);
    assert vc.decode(ob) == Ok(v);
    assert [ob][1..] == [];
    assert UnwrapOrLog(vc.decode(ob)) == Some(v);
    forall m: Option<V>
      ensures FoldOperands(vc.decode, combine, m, [ob]) == Step(combine, m, Some(v))
    {
      assert FoldOperands(vc.decode, combine, m, [ob])
          == FoldOperands(vc.decode, combine, Step(combine, m, Some(v)), []);
    }
  }

  /** Compaction never changes what `get` returns. */
  lemma CompactPreservesGet<K, V>(s: Store<K, V>, kb: Bytes, k: K)
    requires Compact(s, kb).Compacted?
    ensures Get(Compact(s, kb).store, k) == Get(s, k)
  {
    var s' := Compact(s, kb).store;
    if s.schema.keys.encode(k) == kb {
      assert Read(s', kb) == Read(s, kb);
    } else {
      assert Read(s', s.schema.keys.encode(k)) == Read(s, s.schema.keys.encode(k));
    }
  }

  /** A partial merge of any run of queued operands never changes what `get`
      returns, for a lawful value codec and an associative `merge`. */
  lemma PartialCompactPreservesGet<K, V(!new)>(s: Store<K, V>, kb: Bytes, i: nat, j: nat, k: K)
    requires Lawful(s.schema.values)
    requires Associative(s.schema.combine)
    requires kb in s.engine && i <= j <= |s.engine[kb].pending|
    ensures Get(PartialCompact(s, kb, i, j), k) == Get(s, k)
  {
    if s.schema.keys.encode(k) == kb {
      PartialCompactPreservesRead(s, kb, i, j);
    }
  }

  /** The engine's read of the partially merged key is unchanged. */
  lemma PartialCompactPreservesRead<K, V(!new)>(s: Store<K, V>, kb: Bytes, i: nat, j: nat)
    requires Lawful(s.schema.values)
    requires Associative(s.schema.combine)
    requires kb in s.engine && i <= j <= |s.engine[kb].pending|
    ensures Read(PartialCompact(s, kb, i, j), kb) == Read(s, kb)
  {
    var s' := PartialCompact(s, kb, i, j);
    var rec := s.engine[kb];
    var ops := rec.pending;
    var a, b, c := ops[..i], ops[i..j], ops[j..];
    assert ops == a + b + c;
    if s'.engine[kb] != rec {
      assert |b| > 0;
      PartialMergeBatching(s.schema.values, s.schema.combine, rec.base, a, b, c);
    }
  }
}
