/**
 The bytes that travel between the screen sender (Http.Child) and the screen
 receiver (Http.Father): a datagram is a byte sequence, a frame is a JPEG byte
 stream, and the only framing the protocol has is the JPEG start-of-image and
 end-of-image markers (ITU-T T.81, Annex B, Table B.1: SOI = X'FFD8',
 EOI = X'FFD9').
 */
module Wire {

  type Byte = bv8
  type Bytes = seq<Byte>

  datatype Option<T> = None | Some(value: T)

  /** JPEG start-of-image marker. */
  const SOI: Bytes := [0xFF, 0xD8]

  /** JPEG end-of-image marker. */
  const EOI: Bytes := [0xFF, 0xD9]

  /** The byte pair at position `i` of `b` is the start-of-image marker. */
  predicate SoiAt(b: Bytes, i: int)
  {
    0 <= i && i + 1 < |b| && b[i] == SOI[0] && b[i + 1] == SOI[1]
  }

  /** The byte pair at position `i` of `b` is the end-of-image marker. */
  predicate EoiAt(b: Bytes, i: int)
  {
    0 <= i && i + 1 < |b| && b[i] == EOI[0] && b[i + 1] == EOI[1]
  }

  /** The datagrams `parts`, concatenated in order. */
  function Concat(parts: seq<Bytes>): Bytes
  {
    if parts == [] then [] else parts[0] + Concat(parts[1..])
  }

  lemma {:induction false} ConcatAppend(a: seq<Bytes>, b: seq<Bytes>)
    ensures Concat(a + b) == Concat(a) + Concat(b)
  {
    if a == [] {
      assert a + b == b;
    } else {
      assert (a + b)[1..] == a[1..] + b;
      ConcatAppend(a[1..], b);
    }
  }
}
