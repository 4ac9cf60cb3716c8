/** The word-set example of examples/helloworld.rs: a set-of-strings value
    type whose merge is set union, and a loader that turns input lines of
    the form `word value` into one-element merges under `word`.

    The example is written against an API that src/lib.rs does not define
    (`Serializable`, `AssociateMergeable::handle_deser_error` and
    `into_bytes`, `db_iter`, a three-parameter `MergeableDB`). Each file is
    modelled as written: the reducer of src/lib.rs never calls
    `handle_deser_error`, and the loader runs against the store of
    src/lib.rs. */
module WordSets {
  import opened Codecs
  import opened Reducer
  import opened TypedStore

  /** `BSet<String>`, a `BTreeSet<String>`; the ordering of the tree only
      matters to the bincode encoding, which is an abstract codec here. */
  type BSet = set<string>

  /** `BSet::merge`: `self.0.append(&mut other.0)` moves every element of
      `other` into `self`. Returns what `self` and `other` hold afterwards. */
  function Append(self: BSet, other: BSet): (r: (BSet, BSet))
    ensures forall x :: x in r.0 <==> x in self || x in other
    ensures r.1 == {}
  {
    (self + other, {})
  }

  /** The value `self` holds after `BSet::merge`, used as the reducer's
      `combine`. */
  function Union(a: BSet, b: BSet): BSet
  {
    Append(a, b).0
  }

  /** Set union is associative, so the engine may reduce operands in any
      batching. */
  lemma UnionIsAssociative()
    ensures Associative(Union)
  {
    forall a: BSet, b: BSet, c: BSet
      ensures Union(Union(a, b), c) == Union(a, Union(b, c))
    {
    }
  }

  /** Set union is commutative and idempotent. */
  lemma UnionCommutesAndAbsorbs(a: BSet, b: BSet)
    ensures Union(a, b) == Union(b, a)
    ensures Union(Union(a, b), b) == Union(a, b)
  {
  }

  /** The outcome of a decode-error hook: a substitute value, the operand
      dropped, or a panic. */
  datatype Recovery = Recovered(value: BSet) | Dropped | Panicked(key: Bytes, buf: Bytes, err: DecodeError)

  /** `handle_deser_error` of the example: it panics with the key, the error
      and the raw bytes, never recovering or dropping. */
  function HandleDeserError(key: Bytes, buf: Bytes, err: DecodeError): (r: Recovery)
    ensures !r.Recovered? && !r.Dropped?
    ensures r.Panicked? && r.key == key && r.buf == buf && r.err == err
  {
    Panicked(key, buf, err)
  }

  // ---------------------------------------------------------------------
  // Line parsing: `line.trim().splitn(2, ' ')`.
  // ---------------------------------------------------------------------

  /** Rust's `char::is_whitespace`: the Unicode White_Space property. */
  predicate IsWhitespace(c: char)
  {
    || '\t' <= c <= '\r'
    || c == ' '
    || c == '\U{0085}'
    || c == '\U{00A0}'
    || c == '\U{1680}'
    || '\U{2000}' <= c <= '\U{200A}'
    || c == '\U{2028}'
    || c == '\U{2029}'
    || c == '\U{202F}'
    || c == '\U{205F}'
    || c == '\U{3000}'
  }

  /** The first position at or after `i` that is not whitespace, or `|s|`. */
  function SkipWhitespace(s: string, i: nat): (lo: nat)
    requires i <= |s|
    ensures i <= lo <= |s|
    ensures forall j :: i <= j < lo ==> IsWhitespace(s[j])
    ensures lo < |s| ==> !IsWhitespace(s[lo])
    decreases |s| - i
  {
    if i < |s| && IsWhitespace(s[i]) then SkipWhitespace(s, i + 1) else i
  }

  /** The end of `s[..hi]` once its trailing whitespace, down to `lo`, is
      dropped. */
  function SkipWhitespaceBack(s: string, lo: nat, hi: nat): (end: nat)
    requires lo <= hi <= |s|
    ensures lo <= end <= hi
    ensures forall j :: end <= j < hi ==> IsWhitespace(s[j])
    ensures end > lo ==> !IsWhitespace(s[end - 1])
    decreases hi
  {
    if hi > lo && IsWhitespace(s[hi - 1]) then SkipWhitespaceBack(s, lo, hi - 1) else hi
  }

  /** The bounds of what `trim` keeps: everything before and after them is
      whitespace, and they stop at the first and last non-whitespace
      characters. */
  function TrimBounds(s: string): (b: (nat, nat))
    ensures b.0 <= b.1 <= |s|
    ensures forall j :: 0 <= j < b.0 ==> IsWhitespace(s[j])
    ensures forall j :: b.1 <= j < |s| ==> IsWhitespace(s[j])
    ensures b.0 < |s| ==> b.0 < b.1 && !IsWhitespace(s[b.0])
    ensures b.0 < b.1 ==> !IsWhitespace(s[b.1 - 1])
  {
    var lo := SkipWhitespace(s, 0);
    (lo, SkipWhitespaceBack(s, lo, |s|))
  }

  /** `trim`: the text between the leading and the trailing whitespace; it
      neither starts nor ends with whitespace. */
  function Trim(s: string): (r: string)
    ensures |r| <= |s|
    ensures exists lo, hi :: 0 <= lo <= hi <= |s| && r == s[lo..hi]
              && (forall j :: 0 <= j < lo ==> IsWhitespace(s[j]))
              && (forall j :: hi <= j < |s| ==> IsWhitespace(s[j]))
    ensures |r| == 0 || (!IsWhitespace(r[0]) && !IsWhitespace(r[|r| - 1]))
  {
    s[TrimBounds(s).0..TrimBounds(s).1]
  }

  /** The position of the first `c` in `s`, if any. */
  function FirstIndexOf(s: string, c: char): (r: Option<nat>)
    ensures r.None? <==> c !in s
    ensures r.Some? ==> r.value < |s| && s[r.value] == c && c !in s[..r.value]
    decreases |s|
  {
    if |s| == 0 then None
    else if s[0] == c then Some(0)
    else
      match FirstIndexOf(s[1..], c)
      case None => None
      case Some(i) =>
        assert s[..i + 1] == [s[0]] + s[1..][..i];
        Some(i + 1)
  }

  /** `s.splitn(2, sep)`: the whole of `s` when `sep` does not occur in it;
      otherwise the text before the first `sep` and everything after it. */
  function SplitN2(s: string, sep: char): (parts: seq<string>)
    ensures 1 <= |parts| <= 2
    ensures |parts| == 1 <==> sep !in s
    ensures |parts| == 1 ==> parts[0] == s
    ensures |parts| == 2 ==> s == parts[0] + [sep] + parts[1] && sep !in parts[0]
  {
    match FirstIndexOf(s, sep)
    case None => [s]
    case Some(i) =>
      assert s == s[..i] + [sep] + s[i + 1..];
      [s[..i], s[i + 1..]]
  }

  /** One input line: `None` ("Could not split") when the trimmed line has
      no space; otherwise the word before the first space and the value
      after it, both non-empty. */
  function ParseLine(line: string): (r: Option<(string, string)>)
    ensures r.None? <==> ' ' !in Trim(line)
    ensures r.Some? ==> Trim(line) == r.value.0 + " " + r.value.1
    ensures r.Some? ==> ' ' !in r.value.0 && |r.value.0| > 0 && |r.value.1| > 0
  {
    var t := Trim(line);
    var splits := SplitN2(t, ' ');
    if |splits| != 2 then None
    else
      assert !IsWhitespace(t[0]) && !IsWhitespace(t[|t| - 1]);
      Some((splits[0], splits[1]))
  }

  // ---------------------------------------------------------------------
  // Loading lines into the store.
  // ---------------------------------------------------------------------

  /** One pass of the loader loop: an accepted line queues the one-element
      set `{value}` under `word`; a rejected line changes nothing. Either
      way no stored value changes and no queued operand is lost. */
  function IngestLine(s: Store<string, BSet>, line: string): (r: Store<string, BSet>)
    ensures r.schema == s.schema
    ensures ParseLine(line).None? ==> r == s
    ensures ParseLine(line).Some? ==>
              var kb := s.schema.keys.encode(ParseLine(line).value.0);
              r.engine.Keys == s.engine.Keys + {kb}
              && r.engine[kb].pending == (if kb in s.engine then s.engine[kb].pending else [])
                                         + [s.schema.values.encode({ParseLine(line).value.1})]
              && forall kb' :: kb' in s.engine && kb' != kb ==> r.engine[kb'] == s.engine[kb']
    ensures Preserves(s.engine, r.engine)
  {
    match ParseLine(line)
    case None => s
    case Some((word, value)) => TypedStore.Merge(s, word, {value})
  }

  /** `after` keeps every record of `before` with the same stored value and
      the same queued operands at the front, and every record it adds has no
      stored value. */
  ghost predicate Preserves(before: Engine, after: Engine)
  {
    && before.Keys <= after.Keys
    && (forall kb :: kb in before ==> after[kb].base == before[kb].base && before[kb].pending <= after[kb].pending)
    && (forall kb :: kb in after && kb !in before ==> after[kb].base.None?)
  }

  /** The loader over a sequence of lines, in order. It only ever queues
      operands: no stored value is overwritten and no operand dropped. */
  function Ingest(s: Store<string, BSet>, lines: seq<string>): (r: Store<string, BSet>)
    ensures r.schema == s.schema
    ensures Preserves(s.engine, r.engine)
    decreases |lines|
  {
    if |lines| == 0 then s
    else IngestLine(Ingest(s, lines[..|lines| - 1]), lines[|lines| - 1])
  }

  /** The union of what each of `lines` contributes. */
  ghost function Gather(contrib: string -> BSet, lines: seq<string>): BSet
    decreases |lines|
  {
    if |lines| == 0 then {}
    else Gather(contrib, lines[..|lines| - 1]) + contrib(lines[|lines| - 1])
  }

  /** The values of the accepted lines whose word is `w`. */
  ghost function ValuesFor(lines: seq<string>, w: string): BSet
  {
    Gather(line => Contribution(line, w), lines)
  }

  lemma ValuesForSnoc(lines: seq<string>, line: string, w: string)
    ensures ValuesFor(lines + [line], w) == ValuesFor(lines, w) + Contribution(line, w)
  {
    assert (lines + [line])[..|lines|] == lines;
  }

  /** A value is in `ValuesFor(lines, w)` exactly when some line
      contributes it under `w`. */
  lemma ValuesForMembers(lines: seq<string>, w: string, x: string)
    ensures x in ValuesFor(lines, w) <==> exists i :: 0 <= i < |lines| && x in Contribution(lines[i], w)
  {
    GatherMembers(line => Contribution(line, w), lines, x);
  }

  lemma {:induction false} GatherMembers(contrib: string -> BSet, lines: seq<string>, x: string)
    ensures x in Gather(contrib, lines) <==> exists i :: 0 <= i < |lines| && x in contrib(lines[i])
    decreases |lines|
  {
    if |lines| > 0 {
      var n := |lines| - 1;
      var init := lines[..n];
      GatherMembers(contrib, init, x);
      if exists i :: 0 <= i < |init| && x in contrib(init[i]) {
        var i :| 0 <= i < |init| && x in contrib(init[i]);
        assert lines[i] == init[i];
      }
      if exists i :: 0 <= i < |lines| && x in contrib(lines[i]) {
        var i :| 0 <= i < |lines| && x in contrib(lines[i]);
        if i < n {
          assert init[i] == lines[i];
        }
      }
    }
  }

  /** What `get` of a word returns for a newly created store after the
      values `vals` were merged under it. */
  function Expected(vals: BSet): Fetched<BSet>
  {
    Got(Extend(None, vals))
  }

  /** What `get` of a word returns once the values `vs` are merged onto
      `prior`, what it returned before: nothing stays nothing only while no
      value arrives; a set, even an empty one, gains `vs`. */
  function Extend(prior: Option<BSet>, vs: BSet): (r: Option<BSet>)
    ensures r.None? <==> prior.None? && vs == {}
    ensures r.Some? ==> r.value == (if prior.Some? then prior.value else {}) + vs
  {
    match prior
    case None => if vs == {} then None else Some(vs)
    case Some(b) => Some(b + vs)
  }

  /** Extending twice is extending once by both sets of values. */
  lemma ExtendTwice(p: Option<BSet>, a: BSet, b: BSet)
    ensures Extend(Extend(p, a), b) == Extend(p, a + b)
  {
    if p.None? && a == {} {
      assert a + b == b;
    } else if p.None? {
      assert a + b != {} by { assert a <= a + b; }
    } else {
      assert p.value + a + b == p.value + (a + b);
    }
  }

  /** The values one line contributes under `w`. */
  function Contribution(line: string, w: string): BSet
  {
    match ParseLine(line)
    case Some((word, value)) => if word == w then {value} else {}
    case None => {}
  }

  /** One loader step extends what `get` of every word returned by the
      line's contribution under that word. */
  lemma IngestLineStep(s: Store<string, BSet>, line: string, w: string)
    requires Lawful(s.schema.keys) && Lawful(s.schema.values)
    requires s.schema.combine == Union
    requires Get(s, w).Got?
    ensures Get(IngestLine(s, line), w) == Got(Extend(Get(s, w).value, Contribution(line, w)))
  {
    match ParseLine(line)
    case None =>
      ExtendByNothing(Get(s, w).value);
    case Some((word, value)) =>
      if word == w {
        MergeExtends(s, w, value);
      } else {
        MergeLeavesOtherKeys(s, word, {value}, w);
        ExtendByNothing(Get(s, w).value);
      }
  }

  lemma ExtendByNothing(p: Option<BSet>)
    ensures Extend(p, {}) == p
  {
    if p.Some? {
      assert p.value + {} == p.value;
    }
  }

  /** Merging `{value}` under `w` extends what `get` of `w` returned by it. */
  lemma MergeExtends(s: Store<string, BSet>, w: string, value: string)
    requires Lawful(s.schema.values)
    requires s.schema.combine == Union
    requires Get(s, w).Got?
    ensures Get(TypedStore.Merge(s, w, {value}), w) == Got(Extend(Get(s, w).value, {value}))
  {
    MergeThenGet(s, w, {value});
  }

  /** Loading lines into any store where `get` of `w` succeeded, a reopened
      one included, extends what it returned by every value the lines bring
      under `w`. */
  lemma {:induction false} IngestReadsBack(s: Store<string, BSet>, lines: seq<string>, w: string)
    requires Lawful(s.schema.keys) && Lawful(s.schema.values)
    requires s.schema.combine == Union
    requires Get(s, w).Got?
    ensures Get(Ingest(s, lines), w) == Got(Extend(Get(s, w).value, ValuesFor(lines, w)))
    decreases |lines|
  {
    var prior := Get(s, w).value;
    if |lines| == 0 {
      assert ValuesFor(lines, w) == {};
      assert prior.Some? ==> prior.value + {} == prior.value;
    } else {
      var n := |lines| - 1;
      var init, line := lines[..n], lines[n];
      assert lines == init + [line];
      var mid := Ingest(s, init);
      assert Ingest(s, lines) == IngestLine(mid, line);
      IngestReadsBack(s, init, w);
      IngestLineStep(mid, line, w);
      ValuesForSnoc(init, line, w);
      ExtendTwice(prior, ValuesFor(init, w), Contribution(line, w));
    }
  }

  /** After loading any lines into a newly created store, `get` of a word
      returns exactly the set of values seen with that word, or nothing if
      the word never occurred. */
  lemma IngestThenGet(keys: Codec<string>, values: Codec<BSet>, lines: seq<string>, w: string)
    requires Lawful(keys) && Lawful(values)
    ensures Get(Ingest(Open(Schema(keys, values, Union), map[]), lines), w) == Expected(ValuesFor(lines, w))
  {
    var s0 := Open(Schema(keys, values, Union), map[]);
    IngestReadsBack(s0, lines, w);
  }

  /** The example's scenario: two merges under one key read back as the
      union. */
  lemma TwoMergesReadBackUnion(keys: Codec<string>, values: Codec<BSet>, k: string)
    requires Lawful(values)
    ensures Get(Merge(Merge(Open(Schema(keys, values, Union), map[]), k, {"a"}), k, {"b"}), k) == Got(Some({"a", "b"}))
  {
    var s0 := Open(Schema(keys, values, Union), map[]);
    assert Get(s0, k) == Got(None);
    MergeThenGet(s0, k, {"a"});
    var s1 := Merge(s0, k, {"a"});
    assert Get(s1, k) == Got(Some({"a"}));
    MergeThenGet(s1, k, {"b"});
    assert Union({"a"}, {"b"}) == {"a", "b"};
  }

  // ---------------------------------------------------------------------
  // Re-delivery of an operand.
  // ---------------------------------------------------------------------

  /** Every value folded with set union is contained in the result. */
  lemma {:induction false} FoldUnionCovers(vs: seq<BSet>, i: nat)
    requires i < |vs|
    ensures vs[i] <= Fold(Union, vs).value
    decreases |vs|
  {
    var n := |vs| - 1;
    assert vs == vs[..n] + [vs[n]];
    FoldSnoc(Union, vs[..n], vs[n]);
    if i < n {
      FoldUnionCovers(vs[..n], i);
    }
  }

  /** Folding by set union absorbs a repeat of any value already folded. */
  lemma FoldUnionAbsorbs(xs: seq<BSet>, j: nat)
    requires j < |xs|
    ensures Fold(Union, xs + [xs[j]]) == Fold(Union, xs)
  {
    FoldUnionCovers(xs, j);
    FoldSnoc(Union, xs, xs[j]);
    assert Union(Fold(Union, xs).value, xs[j]) == Fold(Union, xs).value;
  }

  /** Re-delivering an operand that was already queued does not change the
      reducer's result: set union is idempotent. */
  lemma RedeliveryIsIdempotent(codec: Codec<BSet>, existing: Option<Bytes>, operands: seq<Bytes>, i: nat)
    requires i < |operands|
    ensures Reduce(codec, Union, existing, operands + [operands[i]]) == Reduce(codec, Union, existing, operands)
  {
    ReduceIsFoldOfDecoded(codec, Union, existing, operands + [operands[i]]);
    ReduceIsFoldOfDecoded(codec, Union, existing, operands);
    FoldRedelivered(codec.decode, BaseValues(codec, existing), operands, i);
  }

  /** The values the reducer folds, with an operand delivered twice, fold by
      union to what they fold to with it delivered once. */
  lemma FoldRedelivered(decode: Bytes -> Result<BSet>, base: seq<BSet>, operands: seq<Bytes>, i: nat)
    requires i < |operands|
    ensures Fold(Union, base + Decoded(decode, operands + [operands[i]])) == Fold(Union, base + Decoded(decode, operands))
  {
    var op := operands[i];
    DecodedAppend(decode, operands, [op]);
    DecodedSingle(decode, op);
    var ds := Decoded(decode, operands);
    var xs := base + ds;
    assert base + Decoded(decode, operands + [op]) == xs + DecodeOne(decode, op);
    if decode(op).Ok? {
      var d := decode(op).value;
      DecodedHas(decode, operands, i);
      var j :| 0 <= j < |ds| && ds[j] == d;
      assert xs[|base| + j] == d;
      FoldUnionAbsorbs(xs, |base| + j);
    } else {
      assert xs + [] == xs;
    }
  }
}
