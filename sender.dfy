/**
 The screen sender (Http.Child): how one encoded frame is turned into the
 datagrams put on the wire, and how the capture loop paces itself.
 Sockets, the send executor, screen capture and JPEG encoding are not part of
 this model: a frame is an input byte sequence and the datagrams sent are
 returned, in the order the sender emits them.
 */
module Sender {
  import opened Wire

  /** Largest datagram payload the sender emits: 60 KiB. */
  const MAX_PACKET_SIZE: nat := 60 * 1024

  /** The chunks `sendDataInChunks` cuts `data` into, in order: each step
      takes min(MAX_PACKET_SIZE, what is left) bytes from the front. */
  function Chunks(data: Bytes): seq<Bytes>
    decreases |data|
  {
    if |data| == 0 then []
    else
      var length := if MAX_PACKET_SIZE < |data| then MAX_PACKET_SIZE else |data|;
      [data[..length]] + Chunks(data[length..])
  }

  /** Every chunk is non-empty and at most MAX_PACKET_SIZE long, and every
      chunk but the last is exactly MAX_PACKET_SIZE long. */
  predicate WellSized(chunks: seq<Bytes>)
  {
    forall i :: 0 <= i < |chunks| ==>
      0 < |chunks[i]| <= MAX_PACKET_SIZE &&
      (i < |chunks| - 1 ==> |chunks[i]| == MAX_PACKET_SIZE)
  }

  /** Number of chunks for `n` bytes: ceil(n / MAX_PACKET_SIZE). */
  function ChunkCount(n: nat): nat
  {
    (n + MAX_PACKET_SIZE - 1) / MAX_PACKET_SIZE
  }

  lemma {:induction false} ChunksLossless(data: Bytes)
    ensures Concat(Chunks(data)) == data
    decreases |data|
  {
    if |data| > 0 {
      var length := if MAX_PACKET_SIZE < |data| then MAX_PACKET_SIZE else |data|;
      var rest := Chunks(data[length..]);
      ChunksLossless(data[length..]);
      assert Chunks(data) == [data[..length]] + rest;
      assert ([data[..length]] + rest)[1..] == rest;
      assert data[..length] + data[length..] == data;
    }
  }

  lemma {:induction false} ChunksWellSized(data: Bytes)
    ensures WellSized(Chunks(data))
    decreases |data|
  {
    if |data| > 0 {
      var length := if MAX_PACKET_SIZE < |data| then MAX_PACKET_SIZE else |data|;
      var rest := Chunks(data[length..]);
      ChunksWellSized(data[length..]);
      ChunksCountIs(data[length..]);
      var r := Chunks(data);
      assert r == [data[..length]] + rest;
      forall i | 0 <= i < |r|
        ensures 0 < |r[i]| <= MAX_PACKET_SIZE
        ensures i < |r| - 1 ==> |r[i]| == MAX_PACKET_SIZE
      {
        if i > 0 {
          assert r[i] == rest[i - 1];
        } else if i < |r| - 1 {
          assert |rest| > 0;
        }
      }
    }
  }

  lemma {:induction false} ChunksCountIs(data: Bytes)
    ensures |Chunks(data)| == ChunkCount(|data|)
    decreases |data|
  {
    if |data| > 0 {
      var length := if MAX_PACKET_SIZE < |data| then MAX_PACKET_SIZE else |data|;
      ChunksCountIs(data[length..]);
    }
  }

  /** Chunk k (counting from 1) starts MAX_PACKET_SIZE bytes after chunk k - 1. */
  lemma ChunkOffsets(k: nat)
    requires k >= 1
    ensures 0 <= (k - 1) * MAX_PACKET_SIZE < k * MAX_PACKET_SIZE
    ensures k * MAX_PACKET_SIZE == (k - 1) * MAX_PACKET_SIZE + MAX_PACKET_SIZE
    ensures k >= 2 ==> (k - 1) * MAX_PACKET_SIZE >= MAX_PACKET_SIZE
  {
  }

  /** A slice of a suffix is a slice of the whole, shifted. */
  lemma SuffixSlice<T>(xs: seq<T>, n: nat, lo: nat, hi: nat)
    requires n <= |xs| && lo <= hi <= |xs| - n
    ensures xs[n..][lo..hi] == xs[n + lo..n + hi]
  {
  }

  /** The i-th chunk is the slice of `data` starting at i * MAX_PACKET_SIZE. */
  lemma {:induction false} ChunkAt(data: Bytes, i: nat)
    requires i < |Chunks(data)|
    ensures i * MAX_PACKET_SIZE < |data|
    ensures Chunks(data)[i] == data[i * MAX_PACKET_SIZE ..
      if (i + 1) * MAX_PACKET_SIZE < |data| then (i + 1) * MAX_PACKET_SIZE else |data|]
    decreases i
  {
    var length := if MAX_PACKET_SIZE < |data| then MAX_PACKET_SIZE else |data|;
    var rest := data[length..];
    assert Chunks(data) == [data[..length]] + Chunks(rest);
    if i > 0 {
      ChunkAt(rest, i - 1);
      assert Chunks(data)[i] == Chunks(rest)[i - 1];
      assert length == MAX_PACKET_SIZE;
      ChunkOffsets(i);
      ChunkOffsets(i + 1);
      var lo := (i - 1) * MAX_PACKET_SIZE;
      var hi := if i * MAX_PACKET_SIZE < |rest| then i * MAX_PACKET_SIZE else |rest|;
      SuffixSlice(data, length, lo, hi);
    }
  }

  /** Any split of `data` into well-sized chunks is the one the sender makes:
      the chunking is determined by the size rule alone. */
  lemma {:induction false} ChunksUnique(data: Bytes, chunks: seq<Bytes>)
    requires WellSized(chunks) && Concat(chunks) == data
    ensures chunks == Chunks(data)
    decreases |chunks|
  {
    if chunks != [] {
      var rest := chunks[1..];
      assert WellSized(rest) by {
        forall i | 0 <= i < |rest|
          ensures 0 < |rest[i]| <= MAX_PACKET_SIZE
          ensures i < |rest| - 1 ==> |rest[i]| == MAX_PACKET_SIZE
        {
          assert rest[i] == chunks[i + 1];
        }
      }
      ChunksUnique(data[|chunks[0]|..], rest);
      if |rest| == 0 {
        assert Concat(rest) == [];
        assert data == chunks[0];
      } else {
        assert |chunks[0]| == MAX_PACKET_SIZE;
        assert Concat(rest) == rest[0] + Concat(rest[1..]);
        assert |data| > MAX_PACKET_SIZE;
      }
      assert data[..|chunks[0]|] == chunks[0];
    }
  }

  /** `sendDataInChunks`: the offset-driven loop; each iteration copies
      min(MAX_PACKET_SIZE, totalLength - offset) bytes into a fresh packet
      and sends it. `packets` are the datagrams sent, in order. */
  method SendDataInChunks(data: Bytes) returns (packets: seq<Bytes>)
    ensures packets == Chunks(data)
    ensures Concat(packets) == data
    ensures WellSized(packets)
    ensures |packets| == ChunkCount(|data|)
  {
    var totalLength := |data|;
    var offset := 0;
    packets := [];
    while offset < totalLength
      invariant 0 <= offset <= totalLength
      invariant packets + Chunks(data[offset..]) == Chunks(data)
    {
      var length := if MAX_PACKET_SIZE < totalLength - offset then MAX_PACKET_SIZE else totalLength - offset;
      var chunk := data[offset..offset + length];
      assert data[offset..][..length] == chunk;
      assert data[offset..][length..] == data[offset + length..];
      packets := packets + [chunk];
      offset := offset + length;
    }
    assert data[offset..] == [];
    ChunksLossless(data);
    ChunksWellSized(data);
    ChunksCountIs(data);
  }

  /** The dispatch choice in `captureAndSend`: a frame longer than
      MAX_PACKET_SIZE is cut into chunks, any other frame (the empty one
      included) goes out as a single datagram. */
  method SendFrame(imageData: Bytes) returns (packets: seq<Bytes>)
    ensures Concat(packets) == imageData
    ensures forall i :: 0 <= i < |packets| ==> |packets[i]| <= MAX_PACKET_SIZE
    ensures |imageData| <= MAX_PACKET_SIZE ==> packets == [imageData]
    ensures |imageData| > MAX_PACKET_SIZE ==> |packets| >= 2
    ensures |imageData| > 0 ==> packets == Chunks(imageData)
  {
    if |imageData| > MAX_PACKET_SIZE {
      packets := SendDataInChunks(imageData);
    } else {
      packets := [imageData];
      assert Concat(packets) == imageData + Concat([]);
      assert imageData[..|imageData|] == imageData && imageData[|imageData|..] == [];
    }
  }

  /** Java's `/` on integers: the quotient truncated toward zero. */
  function JavaDiv(a: int, b: int): int
    requires b != 0
  {
    if a >= 0 then a / b else -((-a) / b)
  }

  /** `1000 / frameRate`, computed once before the capture loop; a zero rate
      throws ArithmeticException there and nothing is ever sent (None). */
  function FrameInterval(frameRate: int): (r: Option<int>)
    ensures r.None? <==> frameRate == 0
    ensures frameRate > 0 ==> r.Some? && 0 <= r.value <= 1000
    ensures frameRate > 0 ==> r.value * frameRate <= 1000 < (r.value + 1) * frameRate
    ensures frameRate < 0 ==> r.Some? && r.value <= 0
  {
    if frameRate == 0 then None else Some(JavaDiv(1000, frameRate))
  }

  /** `TimeUnit.NANOSECONDS.toMillis`: whole milliseconds, truncated toward zero. */
  function ToMillis(nanos: int): (ms: int)
    ensures nanos >= 0 ==> 0 <= ms && ms * 1000000 <= nanos < (ms + 1) * 1000000
    ensures nanos < 0 ==> ms <= 0 && (ms - 1) * 1000000 < nanos <= ms * 1000000
  {
    JavaDiv(nanos, 1000000)
  }

  /** `max(0, frameInterval - elapsed)`: the pause that stretches a capture
      cycle to one frame interval, never negative. */
  function SleepTime(frameInterval: int, elapsedMs: int): (r: int)
    ensures r >= 0 && r >= frameInterval - elapsedMs
    ensures r == 0 || r == frameInterval - elapsedMs
  {
    if frameInterval - elapsedMs > 0 then frameInterval - elapsedMs else 0
  }

  /** With a positive frame rate and a non-negative measured time, the pause
      lies between 0 and one frame interval. */
  lemma PacingBounds(frameRate: int, elapsedNanos: int)
    requires frameRate > 0 && elapsedNanos >= 0
    ensures 0 <= SleepTime(FrameInterval(frameRate).value, ToMillis(elapsedNanos)) <= 1000 / frameRate
  {
  }

  /** A cycle (work plus pause) lasts at least one frame interval, and exactly
      one whenever the work fitted in it. */
  lemma CyclePeriod(frameInterval: int, elapsedMs: int)
    ensures elapsedMs + SleepTime(frameInterval, elapsedMs) >= frameInterval
    ensures elapsedMs <= frameInterval ==> elapsedMs + SleepTime(frameInterval, elapsedMs) == frameInterval
    ensures elapsedMs >= frameInterval ==> SleepTime(frameInterval, elapsedMs) == 0
  {
  }

  /** A 130 KiB frame goes out as three datagrams of 60, 60 and 10 KiB. */
  lemma {:induction false} ThreeChunkFrame(data: Bytes)
    requires |data| == 130 * 1024
    ensures |Chunks(data)| == 3
    ensures |Chunks(data)[0]| == 60 * 1024 && |Chunks(data)[1]| == 60 * 1024
    ensures |Chunks(data)[2]| == 10 * 1024
    ensures Concat(Chunks(data)) == data
  {
    ChunksCountIs(data);
    ChunkAt(data, 0);
    ChunkAt(data, 1);
    ChunkAt(data, 2);
    ChunksLossless(data);
  }
}
