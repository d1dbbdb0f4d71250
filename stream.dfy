/**
 The two ends together: the datagrams the sender emits for one frame, fed in
 order to the receive loop. The decoder is a function of the bytes it is
 handed, so that what it is handed can be traced.
 */
module Stream {
  import opened Wire
  import opened Sender
  import opened Receiver

  /** The decoder's verdict on the buffer the iteration would build. */
  function OutcomeFor(s: ReceiverState, datagram: Bytes, decode: Bytes -> DecodeOutcome): DecodeOutcome
  {
    match Accumulate(s.buffer, datagram)
    case Ok(buffer) => decode(buffer)
    case Err(_) => NoReader
  }

  /** The receive loop run over `datagrams`, in order of arrival. */
  function Feed(s: ReceiverState, datagrams: seq<Bytes>, decode: Bytes -> DecodeOutcome): (r: ReceiverState)
    ensures r.running ==> s.running
    ensures s.current.Some? ==> r.current.Some?
    decreases |datagrams|
  {
    if datagrams == [] then s
    else Feed(Step(s, datagrams[0], OutcomeFor(s, datagrams[0], decode)), datagrams[1..], decode)
  }

  /** A JPEG frame whose start marker occurs only at its first byte and
      whose end marker occurs only at its last two bytes. */
  predicate MarkerClean(frame: Bytes)
  {
    |frame| >= 4 && SoiAt(frame, 0) && EoiAt(frame, |frame| - 2) &&
    (forall i :: 0 < i < |frame| - 1 ==> !SoiAt(frame, i)) &&
    (forall i :: 0 <= i < |frame| - 2 ==> !EoiAt(frame, i))
  }

  lemma {:induction false} FeedAppend(s: ReceiverState, a: seq<Bytes>, b: seq<Bytes>, decode: Bytes -> DecodeOutcome)
    ensures Feed(s, a + b, decode) == Feed(Feed(s, a, decode), b, decode)
    decreases |a|
  {
    if a == [] {
      assert a + b == b;
    } else {
      assert (a + b)[0] == a[0] && (a + b)[1..] == a[1..] + b;
      FeedAppend(Step(s, a[0], OutcomeFor(s, a[0], decode)), a[1..], b, decode);
    }
  }

  /** Once the receive loop has ended nothing it receives changes anything. */
  lemma {:induction false} FeedStopped(s: ReceiverState, datagrams: seq<Bytes>, decode: Bytes -> DecodeOutcome)
    requires !s.running
    ensures Feed(s, datagrams, decode) == s
    decreases |datagrams|
  {
    if datagrams != [] {
      FeedStopped(s, datagrams[1..], decode);
    }
  }

  lemma FeedOne(s: ReceiverState, datagram: Bytes, decode: Bytes -> DecodeOutcome)
    ensures Feed(s, [datagram], decode) == Step(s, datagram, OutcomeFor(s, datagram, decode))
  {
  }

  /** Where the k-th chunk (counting from 1) of a frame lies. */
  lemma ChunkBounds(frame: Bytes, k: nat)
    requires 1 <= k <= |Chunks(frame)|
    ensures (k - 1) * MAX_PACKET_SIZE < |frame|
    ensures k < |Chunks(frame)| <==> k * MAX_PACKET_SIZE < |frame|
    ensures Chunks(frame)[k - 1] == frame[(k - 1) * MAX_PACKET_SIZE ..
      if k * MAX_PACKET_SIZE < |frame| then k * MAX_PACKET_SIZE else |frame|]
  {
    ChunksCountIs(frame);
    ChunkAt(frame, k - 1);
    if k < |Chunks(frame)| {
      ChunkAt(frame, k);
    }
  }

  /** On the bytes of a marker-clean frame collected so far, the completeness
      test fires exactly when the whole frame has arrived: never early, since
      the end marker occurs nowhere else. */
  lemma PrefixCompleteIff(frame: Bytes, hi: int)
    requires MarkerClean(frame) && 0 < hi <= |frame|
    ensures ImageComplete(frame[..hi]) <==> hi == |frame|
  {
    if hi < |frame| {
      assert !EoiAt(frame, hi - 2);
      assert hi < 2 || (frame[..hi][hi - 2] == frame[hi - 2] && frame[..hi][hi - 1] == frame[hi - 1]);
    } else {
      assert frame[..hi] == frame;
    }
  }

  /** The first chunk of a marker-clean frame resets the buffer to itself,
      and is decoded at once only when it is the whole frame. */
  lemma FirstChunkStep(s: ReceiverState, frame: Bytes, decode: Bytes -> DecodeOutcome)
    requires s.running && MarkerClean(frame)
    ensures var c := frame[..if MAX_PACKET_SIZE < |frame| then MAX_PACKET_SIZE else |frame|];
      Step(s, c, OutcomeFor(s, c, decode)) ==
        if MAX_PACKET_SIZE < |frame| then ReceiverState(c, s.current, true)
        else Settle(frame, s.current, decode(frame))
  {
    var hi := if MAX_PACKET_SIZE < |frame| then MAX_PACKET_SIZE else |frame|;
    var c := frame[..hi];
    assert SoiAt(c, 0);
    assert Accumulate(s.buffer, c) == Ok(c);
    if hi < |frame| {
      assert !EoiAt(frame, hi - 2);
      assert !ImageComplete(c);
    } else {
      assert c == frame;
    }
  }

  /** A later chunk of a marker-clean frame is appended; it completes the
      buffer exactly when it is the frame's last chunk. */
  lemma LaterChunkStep(current: Option<Image>, frame: Bytes, decode: Bytes -> DecodeOutcome, lo: nat, hi: nat)
    requires MarkerClean(frame) && 0 < lo < hi <= |frame|
    requires hi - lo >= 2 || hi == |frame|
    ensures var before := ReceiverState(frame[..lo], current, true);
      var c := frame[lo..hi];
      Step(before, c, OutcomeFor(before, c, decode)) ==
        if hi < |frame| then ReceiverState(frame[..hi], current, true)
        else Settle(frame, current, decode(frame))
  {
    var before := ReceiverState(frame[..lo], current, true);
    var c := frame[lo..hi];
    if |c| >= 2 {
      assert !SoiAt(frame, lo);
      assert !SoiAt(c, 0);
    } else {
      assert c == [frame[|frame| - 1]] == [0xD9];
    }
    assert frame[..lo] + c == frame[..hi];
    assert Accumulate(before.buffer, c) == Ok(frame[..hi]);
    if hi < |frame| {
      assert !EoiAt(frame, hi - 2);
      assert !ImageComplete(frame[..hi]);
    } else {
      assert frame[..hi] == frame;
    }
  }

  /** Feeding one more datagram is one more loop iteration. */
  lemma FeedOneMore(s: ReceiverState, datagrams: seq<Bytes>, datagram: Bytes, before: ReceiverState, decode: Bytes -> DecodeOutcome)
    requires Feed(s, datagrams, decode) == before
    ensures Feed(s, datagrams + [datagram], decode) == Step(before, datagram, OutcomeFor(before, datagram, decode))
  {
    FeedAppend(s, datagrams, [datagram], decode);
    FeedOne(before, datagram, decode);
  }

  /** The first k elements are the first k - 1 followed by the k-th. */
  lemma TakeOneMore<T>(xs: seq<T>, k: nat)
    requires 1 <= k <= |xs|
    ensures xs[..k] == xs[..k - 1] + [xs[k - 1]]
  {
  }

  /** The k-th chunk (k >= 2) taken on top of the first k - 1. */
  lemma NextChunkFeed(s: ReceiverState, frame: Bytes, decode: Bytes -> DecodeOutcome, k: nat)
    requires s.running && MarkerClean(frame)
    requires 2 <= k <= |Chunks(frame)| && (k - 1) * MAX_PACKET_SIZE < |frame|
    requires Feed(s, Chunks(frame)[..k - 1], decode) ==
      ReceiverState(frame[..(k - 1) * MAX_PACKET_SIZE], s.current, true)
    ensures Feed(s, Chunks(frame)[..k], decode) ==
      if k * MAX_PACKET_SIZE < |frame| then ReceiverState(frame[..k * MAX_PACKET_SIZE], s.current, true)
      else Settle(frame, s.current, decode(frame))
  {
    ChunkOffsets(k);
    var cs := Chunks(frame);
    TakeOneMore(cs, k);
    var lo := (k - 1) * MAX_PACKET_SIZE;
    var hi := if k * MAX_PACKET_SIZE < |frame| then k * MAX_PACKET_SIZE else |frame|;
    var c := cs[k - 1];
    assert c == frame[lo..hi] && lo < hi && (hi - lo >= 2 || hi == |frame|) by {
      ChunkBounds(frame, k);
    }
    var before := ReceiverState(frame[..lo], s.current, true);
    var after := if hi < |frame| then ReceiverState(frame[..hi], s.current, true)
      else Settle(frame, s.current, decode(frame));
    assert Feed(s, cs[..k - 1] + [c], decode) == after by {
      LaterChunkStep(s.current, frame, decode, lo, hi);
      FeedOneMore(s, cs[..k - 1], c, before, decode);
    }
  }

  /** Feeding the first k chunks of a frame, from any running state: before
      the last chunk the buffer holds exactly the frame's first k chunks and
      the image is untouched (no decode happened); the last chunk hands the
      whole frame, byte for byte, to the decoder. Whatever the buffer held
      before is discarded by the first chunk. */
  lemma {:induction false} FeedChunksPrefix(s: ReceiverState, frame: Bytes, decode: Bytes -> DecodeOutcome, k: nat)
    requires s.running && MarkerClean(frame)
    requires 1 <= k <= |Chunks(frame)|
    ensures Feed(s, Chunks(frame)[..k], decode) ==
      if k * MAX_PACKET_SIZE < |frame| then ReceiverState(frame[..k * MAX_PACKET_SIZE], s.current, true)
      else Settle(frame, s.current, decode(frame))
    decreases k
  {
    if k == 1 {
      var cs := Chunks(frame);
      ChunkBounds(frame, 1);
      assert cs[..1] == [] + [cs[0]];
      FirstChunkStep(s, frame, decode);
      FeedOneMore(s, [], cs[0], s, decode);
    } else {
      FeedChunksPrefix(s, frame, decode, k - 1);
      ChunkBounds(frame, k - 1);
      NextChunkFeed(s, frame, decode, k);
    }
  }

  /** A marker-clean frame sent by the sender and received in order, after
      whatever the receiver held before, is decoded exactly once, from
      exactly its own bytes. */
  lemma FrameDelivered(s: ReceiverState, frame: Bytes, decode: Bytes -> DecodeOutcome)
    requires s.running && MarkerClean(frame)
    ensures Feed(s, Chunks(frame), decode) == Settle(frame, s.current, decode(frame))
    ensures decode(frame).Decoded? ==> Feed(s, Chunks(frame), decode).current == Some(decode(frame).image)
  {
    ChunksCountIs(frame);
    ChunkBounds(frame, |Chunks(frame)|);
    FeedChunksPrefix(s, frame, decode, |Chunks(frame)|);
    assert Chunks(frame)[..|Chunks(frame)|] == Chunks(frame);
  }

  /** A frame of which only the first j chunks arrive (a failed send
      abandons the rest) never reaches the decoder; the next frame's first
      chunk discards the leftover, and that frame is decoded from exactly its
      own bytes. */
  lemma LostTailSuperseded(s: ReceiverState, a: Bytes, b: Bytes, decode: Bytes -> DecodeOutcome, j: nat)
    requires s.running && MarkerClean(a) && MarkerClean(b) && 1 <= j < |Chunks(a)|
    ensures var partial := Chunks(a)[..j];
      Feed(s, partial, decode).current == s.current &&
      Feed(s, partial + Chunks(b), decode) == Settle(b, s.current, decode(b))
  {
    var partial := Chunks(a)[..j];
    ChunkBounds(a, j);
    FeedChunksPrefix(s, a, decode, j);
    FeedAppend(s, partial, Chunks(b), decode);
    FrameDelivered(Feed(s, partial, decode), b, decode);
  }

  /** As written, one stray datagram [0xFF] ends the receive loop: every
      later datagram is ignored and the image never changes again. */
  lemma StrayByteFreezesReceiver(s: ReceiverState, later: seq<Bytes>, decode: Bytes -> DecodeOutcome)
    requires s.running
    ensures Feed(s, [[0xFF]] + later, decode) == s.(running := false)
  {
    FeedAppend(s, [[0xFF]], later, decode);
    assert [[0xFF]][1..] == [];
    FeedStopped(s.(running := false), later, decode);
  }

  /** At the default rate of 10 frames per second a capture cycle lasts at
      least UPDATE_INTERVAL, and decoded frames that reach `updateImage` at
      least one such cycle apart (the network neither bunches nor delays
      them) are all presented: the gate thins out none of them. */
  lemma DefaultPaceMatchesGate(elapsedMs: int, lastUpdateTime: int, times: seq<int>)
    requires SpacedBy(lastUpdateTime, times, FrameInterval(10).value)
    ensures FrameInterval(10) == Some(UPDATE_INTERVAL)
    ensures elapsedMs + SleepTime(FrameInterval(10).value, elapsedMs) >= UPDATE_INTERVAL
    ensures Presentations(lastUpdateTime, times) == times
  {
    CyclePeriod(FrameInterval(10).value, elapsedMs);
    SpacedAllPresent(lastUpdateTime, times);
  }

  /** The single-datagram frame FF D8 01 02 FF D9 goes out whole and is
      handed whole to the decoder; a successful decode is presented when the
      gate is open. */
  lemma SixByteFrame(s: ReceiverState, decode: Bytes -> DecodeOutcome, image: Image)
    requires s.running && decode([0xFF, 0xD8, 0x01, 0x02, 0xFF, 0xD9]) == Decoded(image)
    ensures var frame: Bytes := [0xFF, 0xD8, 0x01, 0x02, 0xFF, 0xD9];
      Chunks(frame) == [frame] &&
      Feed(s, [frame], decode) == ReceiverState([], Some(image), true) &&
      Decodes(s, frame, decode(frame))
  {
    var frame: Bytes := [0xFF, 0xD8, 0x01, 0x02, 0xFF, 0xD9];
    assert MarkerClean(frame);
    assert frame[..|frame|] == frame && frame[|frame|..] == [];
    FrameDelivered(s, frame, decode);
  }
}
