/** The associative merge reducer `merge::<V>` of src/lib.rs: the callback the
    engine runs to fold an optional stored value and the queued operands of
    one key into at most one new stored value.

    The value type's `AssociateMergeable::merge(&mut self, other)` is modelled
    by `combine`, the value `self` holds afterwards. */
module Reducer {
  import opened Codecs

  /** What the callback gives back to the engine. `Aborted` is the panic of
      the `expect` on an undecodable stored value; `Merged(None)` is the
      callback's `None`. */
  datatype MergeResult = Aborted | Merged(bytes: Option<Bytes>)

  /** `unwrap_or_log`: a decode failure is logged and becomes `None`, never
      an error. */
  function UnwrapOrLog<V>(r: Result<V>): (o: Option<V>)
    ensures o.Some? <==> r.Ok?
    ensures o.Some? ==> o.value == r.value
  {
    match r
    case Ok(v) => Some(v)
    case Err(_) => None
  }

  /** One pass of the operand loop: the four-way match on the running value
      and the freshly decoded operand. */
  function Step<V>(combine: (V, V) -> V, merged: Option<V>, deser: Option<V>): (r: Option<V>)
    ensures r.None? <==> merged.None? && deser.None?
    ensures deser.None? ==> r == merged
    ensures merged.None? ==> r == deser
  {
    match (merged, deser)
    case (None, None) => None
    case (Some(m), None) => Some(m)
    case (None, Some(d)) => Some(d)
    case (Some(m), Some(d)) => Some(combine(m, d))
  }

  ghost predicate AllUndecodable<V>(decode: Bytes -> Result<V>, operands: seq<Bytes>)
  {
    forall i :: 0 <= i < |operands| ==> decode(operands[i]).Err?
  }

  /** The `for unparsed in operands` loop, oldest operand first. */
  function FoldOperands<V>(decode: Bytes -> Result<V>, combine: (V, V) -> V,
                           merged: Option<V>, operands: seq<Bytes>): (r: Option<V>)
    ensures r.None? <==> merged.None? && AllUndecodable(decode, operands)
    decreases |operands|
  {
    if |operands| == 0 then merged
    else
      var rest := FoldOperands(decode, combine, Step(combine, merged, UnwrapOrLog(decode(operands[0]))), operands[1..]);
      assert forall i :: 0 < i < |operands| ==> operands[i] == operands[1..][i - 1];
      rest
  }

  /** `merged.map(|value| value.serialize())`. */
  function EncodeMerged<V>(codec: Codec<V>, merged: Option<V>): Option<Bytes>
  {
    match merged
    case None => None
    case Some(v) => Some(codec.encode(v))
  }

  /** `merge::<V>`: decode the stored value (panicking if that fails), fold
      in every operand that decodes, and encode what is left. */
  function Reduce<V>(codec: Codec<V>, combine: (V, V) -> V,
                     existing: Option<Bytes>, operands: seq<Bytes>): (r: MergeResult)
    ensures r.Aborted? <==> existing.Some? && codec.decode(existing.value).Err?
    ensures r == Merged(None) <==> existing.None? && AllUndecodable(codec.decode, operands)
  {
    match existing
    case Some(b) =>
      (match codec.decode(b)
       case Err(_) => Aborted
       case Ok(v) => Merged(EncodeMerged(codec, FoldOperands(codec.decode, combine, Some(v), operands))))
    case None => Merged(EncodeMerged(codec, FoldOperands(codec.decode, combine, None, operands)))
  }

  // ---------------------------------------------------------------------
  // Reference semantics: a left fold over the values that decode.
  // ---------------------------------------------------------------------

  /** The operands that decode, decoded, in their original order. */
  function Decoded<V>(decode: Bytes -> Result<V>, operands: seq<Bytes>): seq<V>
    decreases |operands|
  {
    if |operands| == 0 then []
    else DecodeOne(decode, operands[0]) + Decoded(decode, operands[1..])
  }

  /** One operand's contribution to `Decoded`: its value, or nothing. */
  function DecodeOne<V>(decode: Bytes -> Result<V>, x: Bytes): seq<V>
  {
    match decode(x)
    case Ok(v) => [v]
    case Err(_) => []
  }

  /** The left fold `((v0 ⊕ v1) ⊕ v2) ⊕ …` of a sequence of values; nothing
      for the empty sequence. */
  function Fold<V>(combine: (V, V) -> V, vs: seq<V>): (r: Option<V>)
    ensures r.None? <==> |vs| == 0
    ensures |vs| == 1 ==> r == Some(vs[0])
    decreases |vs|
  {
    if |vs| == 0 then None
    else
      var last := vs[|vs| - 1];
      match Fold(combine, vs[..|vs| - 1])
      case None => Some(last)
      case Some(acc) => Some(combine(acc, last))
  }

  /** The stored value as a sequence of at most one decoded value. */
  function BaseValues<V>(codec: Codec<V>, existing: Option<Bytes>): seq<V>
  {
    match existing
    case None => []
    case Some(b) => DecodeOne(codec.decode, b)
  }

  ghost predicate Associative<V(!new)>(combine: (V, V) -> V)
  {
    forall a, b, c :: combine(combine(a, b), c) == combine(a, combine(b, c))
  }

  /** An optional running value as a sequence of at most one value. */
  function Seed<V>(m: Option<V>): seq<V>
  {
    match m
    case None => []
    case Some(v) => [v]
  }

  lemma {:induction false} DecodedAppend<V>(decode: Bytes -> Result<V>, a: seq<Bytes>, b: seq<Bytes>)
    ensures Decoded(decode, a + b) == Decoded(decode, a) + Decoded(decode, b)
    decreases |a|
  {
    if |a| == 0 {
      assert a + b == b;
    } else {
      assert (a + b)[0] == a[0];
      assert (a + b)[1..] == a[1..] + b;
      DecodedAppend(decode, a[1..], b);
      calc {
        Decoded(decode, a + b);
        DecodeOne(decode, a[0]) + Decoded(decode, a[1..] + b);
        DecodeOne(decode, a[0]) + (Decoded(decode, a[1..]) + Decoded(decode, b));
        (DecodeOne(decode, a[0]) + Decoded(decode, a[1..])) + Decoded(decode, b);
      }
    }
  }

  /** An operand that decodes contributes its value to `Decoded`; one that
      does not contributes nothing. */
  lemma DecodedSingle<V>(decode: Bytes -> Result<V>, x: Bytes)
    ensures Decoded(decode, [x]) == DecodeOne(decode, x)
  {
    assert [x][1..] == [];
  }

  /** Every operand that decodes has its value in `Decoded`. */
  lemma {:induction false} DecodedHas<V>(decode: Bytes -> Result<V>, operands: seq<Bytes>, i: nat)
    requires i < |operands| && decode(operands[i]).Ok?
    ensures decode(operands[i]).value in Decoded(decode, operands)
    decreases |operands|
  {
    if i > 0 {
      assert operands[1..][i - 1] == operands[i];
      DecodedHas(decode, operands[1..], i - 1);
    }
  }

  lemma {:induction false} FoldOperandsAppend<V>(decode: Bytes -> Result<V>, combine: (V, V) -> V,
                                                 m: Option<V>, a: seq<Bytes>, b: seq<Bytes>)
    ensures FoldOperands(decode, combine, m, a + b)
         == FoldOperands(decode, combine, FoldOperands(decode, combine, m, a), b)
    decreases |a|
  {
    if |a| == 0 {
      assert a + b == b;
    } else {
      assert (a + b)[1..] == a[1..] + b;
      FoldOperandsAppend(decode, combine, Step(combine, m, UnwrapOrLog(decode(a[0]))), a[1..], b);
    }
  }

  /** Folding one more value onto a sequence. */
  lemma FoldSnoc<V>(combine: (V, V) -> V, vs: seq<V>, x: V)
    ensures Fold(combine, vs + [x]) == Some(if |vs| == 0 then x else combine(Fold(combine, vs).value, x))
  {
    assert (vs + [x])[..|vs|] == vs;
  }

  /** The loop computes the reference fold over the seed followed by the
      operands that decode. */
  lemma {:induction false} FoldOperandsIsFold<V>(decode: Bytes -> Result<V>, combine: (V, V) -> V,
                                                 m: Option<V>, operands: seq<Bytes>)
    ensures FoldOperands(decode, combine, m, operands) == Fold(combine, Seed(m) + Decoded(decode, operands))
    decreases |operands|
  {
    if |operands| == 0 {
      assert Seed(m) + [] == Seed(m);
    } else {
      var n := |operands| - 1;
      var init, last := operands[..n], operands[n];
      assert operands == init + [last];
      FoldOperandsIsFold(decode, combine, m, init);
      FoldOperandsAppend(decode, combine, m, init, [last]);
      DecodedAppend(decode, init, [last]);
      DecodedSingle(decode, last);
      var prefix := Seed(m) + Decoded(decode, init);
      assert FoldOperands(decode, combine, FoldOperands(decode, combine, m, init), [last])
          == Step(combine, FoldOperands(decode, combine, m, init), UnwrapOrLog(decode(last)));
      match decode(last)
      case Err(_) =>
        assert Seed(m) + Decoded(decode, operands) == prefix;
      case Ok(v) =>
        assert Seed(m) + Decoded(decode, operands) == prefix + [v];
        FoldSnoc(combine, prefix, v);
    }
  }

  /** The reducer either aborts on an undecodable stored value, or returns
      the encoded left fold over the decoded stored value followed by the
      operands that decode, in order. */
  lemma ReduceIsFoldOfDecoded<V>(codec: Codec<V>, combine: (V, V) -> V,
                                 existing: Option<Bytes>, operands: seq<Bytes>)
    ensures existing.Some? && codec.decode(existing.value).Err? ==>
              Reduce(codec, combine, existing, operands) == Aborted
    ensures !(existing.Some? && codec.decode(existing.value).Err?) ==>
              Reduce(codec, combine, existing, operands)
              == Merged(EncodeMerged(codec, Fold(combine, BaseValues(codec, existing) + Decoded(codec.decode, operands))))
  {
    match existing
    case None =>
      FoldOperandsIsFold(codec.decode, combine, None, operands);
    case Some(b) =>
      if codec.decode(b).Ok? {
        FoldOperandsIsFold(codec.decode, combine, Some(codec.decode(b).value), operands);
      }
  }

  /** An operand that does not decode vanishes from `Decoded`. */
  lemma DecodedDropsUndecodable<V>(decode: Bytes -> Result<V>, a: seq<Bytes>, bad: Bytes, b: seq<Bytes>)
    requires decode(bad).Err?
    ensures Decoded(decode, a + [bad] + b) == Decoded(decode, a + b)
  {
    DecodedAppend(decode, a + [bad], b);
    DecodedAppend(decode, a, [bad]);
    DecodedAppend(decode, a, b);
    DecodedSingle(decode, bad);
    assert Decoded(decode, a + [bad]) == Decoded(decode, a);
  }

  /** Skip-resilience: an operand that does not decode, inserted anywhere,
      changes nothing. */
  lemma SkipUndecodableOperand<V>(codec: Codec<V>, combine: (V, V) -> V,
                                  existing: Option<Bytes>, operands: seq<Bytes>, i: nat, bad: Bytes)
    requires i <= |operands|
    requires codec.decode(bad).Err?
    ensures Reduce(codec, combine, existing, operands[..i] + [bad] + operands[i..])
         == Reduce(codec, combine, existing, operands)
  {
    var a, b := operands[..i], operands[i..];
    assert operands == a + b;
    DecodedDropsUndecodable(codec.decode, a, bad, b);
    ReduceIsFoldOfDecoded(codec, combine, existing, a + [bad] + b);
    ReduceIsFoldOfDecoded(codec, combine, existing, a + b);
  }

  /** Re-running the reducer on its own earlier result plus later operands
      gives what one run over all the operands gives. */
  lemma ReduceAgainOnResult<V(!new)>(codec: Codec<V>, combine: (V, V) -> V,
                               existing: Option<Bytes>, a: seq<Bytes>, b: seq<Bytes>)
    requires Lawful(codec)
    requires Reduce(codec, combine, existing, a).Merged?
    ensures Reduce(codec, combine, Reduce(codec, combine, existing, a).bytes, b)
         == Reduce(codec, combine, existing, a + b)
  {
    var m0 := match existing case None => None case Some(x) => Some(codec.decode(x).value);
    FoldOperandsAppend(codec.decode, combine, m0, a, b);
    var mid := FoldOperands(codec.decode, combine, m0, a);
    if mid.Some? {
      assert codec.decode(codec.encode(mid.value)) == Ok(mid.value);
    }
  }

  lemma {:induction false} FoldSplit<V(!new)>(combine: (V, V) -> V, a: seq<V>, b: seq<V>)
    requires Associative(combine)
    requires |a| > 0 && |b| > 0
    ensures Fold(combine, a + b) == Some(combine(Fold(combine, a).value, Fold(combine, b).value))
    decreases |b|
  {
    var n := |b| - 1;
    var init, last := b[..n], b[n];
    assert b == init + [last];
    assert a + b == (a + init) + [last];
    FoldSnoc(combine, a + init, last);
    FoldSnoc(combine, init, last);
    if n > 0 {
      FoldSplit(combine, a, init);
    } else {
      assert a + init == a;
    }
  }

  /** Replacing a non-empty run of values by its fold leaves the whole fold
      unchanged, for an associative `combine`. */
  lemma FoldCollapse<V(!new)>(combine: (V, V) -> V, p: seq<V>, m: seq<V>, q: seq<V>)
    requires Associative(combine)
    requires |m| > 0
    ensures Fold(combine, p + [Fold(combine, m).value] + q) == Fold(combine, p + m + q)
  {
    var fm := Fold(combine, m).value;
    var left := p + [fm];
    if |p| > 0 {
      FoldSplit(combine, p, [fm]);
      FoldSplit(combine, p, m);
    } else {
      assert left == [fm];
      assert p + m == m;
    }
    assert Fold(combine, left) == Fold(combine, p + m);
    if |q| > 0 {
      FoldSplit(combine, left, q);
      FoldSplit(combine, p + m, q);
    } else {
      assert left + q == left;
      assert p + m + q == p + m;
    }
  }

  /** The operand a partial merge leaves in place of the ones it consumed:
      the reducer's output if it produced one, nothing otherwise. */
  function Spliced(r: MergeResult): seq<Bytes>
  {
    if r.Merged? && r.bytes.Some? then [r.bytes.value] else []
  }

  lemma DecodedAppend3<V>(decode: Bytes -> Result<V>, a: seq<Bytes>, b: seq<Bytes>, c: seq<Bytes>)
    ensures Decoded(decode, a + b + c) == Decoded(decode, a) + Decoded(decode, b) + Decoded(decode, c)
  {
    DecodedAppend(decode, a + b, c);
    DecodedAppend(decode, a, b);
  }

  /** Under the round-trip law, the spliced output of a partial merge
      decodes to the fold of the values it consumed. */
  lemma DecodedPartialMerge<V(!new)>(codec: Codec<V>, combine: (V, V) -> V, b: seq<Bytes>)
    requires Lawful(codec)
    ensures Decoded(codec.decode, Spliced(Reduce(codec, combine, None, b)))
         == Seed(Fold(combine, Decoded(codec.decode, b)))
  {
    ReduceIsFoldOfDecoded(codec, combine, None, b);
    var db := Decoded(codec.decode, b);
    assert BaseValues(codec, None) + db == db;
    var f := Fold(combine, db);
    if f.Some? {
      DecodedSingle(codec.decode, codec.encode(f.value));
    }
  }

  /** Batching: reducing a contiguous run of operands on its own first, and
      splicing its result back among the others, gives the same final
      value as reducing all of them at once. */
  lemma PartialMergeBatching<V(!new)>(codec: Codec<V>, combine: (V, V) -> V,
                                      existing: Option<Bytes>, a: seq<Bytes>, b: seq<Bytes>, c: seq<Bytes>)
    requires Lawful(codec)
    requires Associative(combine)
    ensures Reduce(codec, combine, existing, a + Spliced(Reduce(codec, combine, None, b)) + c)
         == Reduce(codec, combine, existing, a + b + c)
  {
    var dec := codec.decode;
    var s := Spliced(Reduce(codec, combine, None, b));
    DecodedAppend3(dec, a, s, c);
    DecodedAppend3(dec, a, b, c);
    DecodedPartialMerge(codec, combine, b);
    ReduceIsFoldOfDecoded(codec, combine, existing, a + s + c);
    ReduceIsFoldOfDecoded(codec, combine, existing, a + b + c);
    FoldOfSpliced(combine, BaseValues(codec, existing), Decoded(dec, a), Decoded(dec, b), Decoded(dec, c));
  }

  /** The fold seen by the full merge after a partial merge: the consumed
      values `db` stand as their own fold, which changes nothing. */
  lemma FoldOfSpliced<V(!new)>(combine: (V, V) -> V, base: seq<V>, da: seq<V>, db: seq<V>, dc: seq<V>)
    requires Associative(combine)
    ensures Fold(combine, base + (da + Seed(Fold(combine, db)) + dc)) == Fold(combine, base + (da + db + dc))
  {
    var ds := Seed(Fold(combine, db));
    assert base + (da + ds + dc) == base + da + ds + dc;
    assert base + (da + db + dc) == base + da + db + dc;
    if |db| == 0 {
      assert ds == db;
    } else {
      FoldCollapse(combine, base + da, db, dc);
    }
  }
}
