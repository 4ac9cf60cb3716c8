/** The typed iterator `DBIter` of src/lib.rs: it turns the engine's
    forward sequence of key/value byte pairs into typed items, one item per
    pair, an error item where a pair does not decode. The engine's own
    iterator is modelled by the sequence of pairs it has yet to yield. */
module TypedIter {
  import opened Codecs

  type Pair = (Bytes, Bytes)

  /** The typed item for one engine pair: the key is decoded first, and its
      error wins; the value is decoded only when the key decodes. */
  function DecodePair<K, V>(keys: Codec<K>, values: Codec<V>, kb: Bytes, vb: Bytes): (r: Result<(K, V)>)
    ensures r.Ok? <==> keys.decode(kb).Ok? && values.decode(vb).Ok?
    ensures r.Ok? ==> r.value == (keys.decode(kb).value, values.decode(vb).value)
    ensures keys.decode(kb).Err? ==> r == Err(keys.decode(kb).error)
    ensures keys.decode(kb).Ok? && values.decode(vb).Err? ==> r == Err(values.decode(vb).error)
  {
    match keys.decode(kb)
    case Err(e) => Err(e)
    case Ok(k) =>
      (match values.decode(vb)
       case Err(e) => Err(e)
       case Ok(v) => Ok((k, v)))
  }

  /** `DBIter::next`: `None` once the engine is exhausted; otherwise the item
      for the engine's next pair, and the iterator advanced past it. */
  function Next<K, V>(keys: Codec<K>, values: Codec<V>, inner: seq<Pair>): (r: (Option<Result<(K, V)>>, seq<Pair>))
    ensures r.0.None? <==> |inner| == 0
    ensures r.0.None? ==> r.1 == inner
    ensures r.0.Some? ==> r.0.value == DecodePair(keys, values, inner[0].0, inner[0].1) && r.1 == inner[1..]
  {
    if |inner| == 0 then (None, inner)
    else
      var (kb, vb) := inner[0];
      (Some(DecodePair(keys, values, kb, vb)), inner[1..])
  }

  /** A consumer that calls `next` until it returns `None`, keeping every
      item: it sees exactly one item per engine pair, in the engine's order,
      none skipped. */
  method Drain<K, V>(keys: Codec<K>, values: Codec<V>, inner: seq<Pair>) returns (items: seq<Result<(K, V)>>)
    ensures |items| == |inner|
    ensures forall i :: 0 <= i < |inner| ==> items[i] == DecodePair(keys, values, inner[i].0, inner[i].1)
  {
    items := [];
    var rest := inner;
    while true
      invariant |items| <= |inner| && rest == inner[|items|..]
      invariant forall i :: 0 <= i < |items| ==> items[i] == DecodePair(keys, values, inner[i].0, inner[i].1)
      decreases |rest|
    {
      var (item, rest') := Next(keys, values, rest);
      match item {
        case None =>
          return;
        case Some(x) =>
          items := items + [x];
          rest := rest';
      }
    }
  }
}
