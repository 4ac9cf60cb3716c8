/** Byte strings, the optional and fallible results the store passes around,
    and the encode/decode contract every key and value type implements
    (`StaticSerialize` and `StaticDeserialize` in src/lib.rs). */
module Codecs {

  type byte = bv8

  /** What the engine stores and compares: raw byte strings. */
  type Bytes = seq<byte>

  datatype Option<T> = None | Some(value: T)

  /** The codec's own error for bytes that do not parse as the expected type. */
  datatype DecodeError = DecodeError(reason: string)

  datatype Result<T> = Ok(value: T) | Err(error: DecodeError)

  /** An encode/decode pair. Encoding is total: `serialize` has no error path,
      decoding may fail on any byte string. */
  datatype Codec<!T> = Codec(encode: T -> Bytes, decode: Bytes -> Result<T>)

  /** The round-trip law: decoding what was encoded gives the value back. */
  ghost predicate Lawful<T(!new)>(c: Codec<T>)
  {
    forall x :: c.decode(c.encode(x)) == Ok(x)
  }

  /** A lawful codec never maps two values to the same bytes, so distinct
      typed keys occupy distinct engine keys. */
  lemma LawfulIsInjective<T(!new)>(c: Codec<T>, x: T, y: T)
    requires Lawful(c)
    ensures c.encode(x) == c.encode(y) ==> x == y
  {
    if c.encode(x) == c.encode(y) {
      assert Ok(x) == c.decode(c.encode(x)) == c.decode(c.encode(y)) == Ok(y);
    }
  }
}
