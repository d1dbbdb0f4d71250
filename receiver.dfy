/**
 The screen receiver (Http.Father): the reassembly buffer that turns datagrams
 back into JPEG frames using only the start and end markers, the decode step,
 and the 100 ms gate in front of presentation.
 The socket, the JPEG decoder and the window are not part of this model: each
 received datagram is an input, the decoder's verdict on a complete buffer is
 an input (DecodeOutcome), and the wall clock is an input.
 */
module Receiver {
  import opened Wire

  /** A decoded raster image; only its identity matters here. */
  datatype Image = Image(width: nat, height: nat, pixels: seq<int>)

  /** What `ImageIO.read` does with a complete buffer: return an image,
      return null (no reader recognised the bytes), throw IIOException
      (a corrupt JPEG structure), or throw another IOException. */
  datatype DecodeOutcome = Decoded(image: Image) | NoReader | StructureError | ReadError

  /** A runtime exception the receive loop does not catch. */
  datatype Fault = IndexOutOfBounds

  datatype Result<T> = Ok(value: T) | Err(fault: Fault)

  /** Presentation happens at most once per this many milliseconds. */
  const UPDATE_INTERVAL: int := 100

  /** The receiver's state as seen by the receive loop: the bytes collected
      for the frame in progress, the image last decoded, and whether the
      receive loop is still running (an uncaught exception or an
      IOException that is not an IIOException ends it for good). */
  datatype ReceiverState = ReceiverState(buffer: Bytes, current: Option<Image>, running: bool)

  /** `isImageStart` as written: it reads byte 0, and byte 1 only when byte 0
      is 0xFF; reading past the end of the datagram is a fault. */
  function StartCheck(datagram: Bytes): (r: Result<bool>)
    ensures r.Err? <==> datagram == [] || datagram == [0xFF]
    ensures r.Ok? ==> (r.value <==> SoiAt(datagram, 0))
  {
    if |datagram| == 0 then Err(IndexOutOfBounds)
    else if datagram[0] != 0xFF then Ok(false)
    else if |datagram| < 2 then Err(IndexOutOfBounds)
    else Ok(datagram[1] == 0xD8)
  }

  /** `isImageComplete`: the buffer is longer than two bytes and ends with
      the end-of-image marker. */
  predicate ImageComplete(buffer: Bytes)
  {
    |buffer| > 2 && EoiAt(buffer, |buffer| - 2)
  }

  /** The synchronized block of the receive loop: a datagram that starts a
      frame replaces the buffer, any other datagram is appended to it. */
  function Accumulate(buffer: Bytes, datagram: Bytes): (r: Result<Bytes>)
    ensures r.Err? <==> datagram == [] || datagram == [0xFF]
    ensures r.Ok? && SoiAt(datagram, 0) ==> r.value == datagram
    ensures r.Ok? && !SoiAt(datagram, 0) ==>
      |r.value| == |buffer| + |datagram| && r.value[..|buffer|] == buffer && r.value[|buffer|..] == datagram
  {
    match StartCheck(datagram)
    case Err(f) => Err(f)
    case Ok(start) => if start then Ok(datagram) else Ok(buffer + datagram)
  }

  /** The decode step on a complete buffer. A decoded image replaces the
      current one and empties the buffer; a null result changes nothing; an
      IIOException empties the buffer and keeps the image; any other
      IOException leaves the receive loop. */
  function Settle(buffer: Bytes, current: Option<Image>, outcome: DecodeOutcome): (s: ReceiverState)
    ensures s.running <==> !outcome.ReadError?
    ensures outcome.Decoded? ==> s.buffer == [] && s.current == Some(outcome.image)
    ensures !outcome.Decoded? ==> s.current == current
    ensures s.buffer == [] || s.buffer == buffer
    ensures s.buffer == [] <==> outcome.Decoded? || outcome.StructureError? || buffer == []
  {
    match outcome
    case Decoded(image) => ReceiverState([], Some(image), true)
    case NoReader => ReceiverState(buffer, current, true)
    case StructureError => ReceiverState([], current, true)
    case ReadError => ReceiverState(buffer, current, false)
  }

  /** One iteration of the receive loop on `datagram`; `outcome` is what the
      decoder would say if the buffer turns out complete. An empty datagram is
      skipped; a stopped loop receives nothing more. */
  function Step(s: ReceiverState, datagram: Bytes, outcome: DecodeOutcome): (r: ReceiverState)
    ensures r.running ==> s.running
    ensures !s.running || |datagram| == 0 ==> r == s
    ensures r.current == s.current || (outcome.Decoded? && r.current == Some(outcome.image))
  {
    if !s.running || |datagram| == 0 then s
    else
      match Accumulate(s.buffer, datagram)
      case Err(_) => s.(running := false)
      case Ok(buffer) =>
        if ImageComplete(buffer) then Settle(buffer, s.current, outcome)
        else s.(buffer := buffer)
  }

  /** After an iteration the buffer is empty, unchanged, the datagram
      alone, or the old buffer followed by the datagram: nothing else is ever
      collected. */
  lemma StepBuffer(s: ReceiverState, datagram: Bytes, outcome: DecodeOutcome)
    ensures var b := Step(s, datagram, outcome).buffer;
      b == [] || b == s.buffer || b == datagram || b == s.buffer + datagram
  {
  }

  /** The iteration decodes an image, and so calls `updateImage`. */
  predicate Decodes(s: ReceiverState, datagram: Bytes, outcome: DecodeOutcome)
  {
    s.running && |datagram| > 0 && outcome.Decoded? &&
    var acc := Accumulate(s.buffer, datagram);
    acc.Ok? && ImageComplete(acc.value)
  }

  /** A start datagram (of a running loop) resets the buffer to a copy of
      itself, whatever was collected before, unless that copy is already a
      whole frame and goes to the decoder. */
  lemma StartResets(s: ReceiverState, datagram: Bytes, outcome: DecodeOutcome)
    requires s.running && SoiAt(datagram, 0) && !ImageComplete(datagram)
    ensures Step(s, datagram, outcome) == ReceiverState(datagram, s.current, true)
  {
    assert Accumulate(s.buffer, datagram) == Ok(datagram);
  }

  /** Any other non-empty datagram except [0xFF] is appended, the bytes
      already collected staying in place. */
  lemma OtherAppends(s: ReceiverState, datagram: Bytes, outcome: DecodeOutcome)
    requires s.running && |datagram| > 0 && datagram != [0xFF] && !SoiAt(datagram, 0)
    requires !ImageComplete(s.buffer + datagram)
    ensures Step(s, datagram, outcome) == ReceiverState(s.buffer + datagram, s.current, true)
  {
    assert StartCheck(datagram) == Ok(false);
    assert Accumulate(s.buffer, datagram) == Ok(s.buffer + datagram);
  }

  /** An incomplete buffer never reaches the decoder: the image is unchanged
      whatever the decoder would have said. */
  lemma IncompleteNeverDecodes(s: ReceiverState, datagram: Bytes, o1: DecodeOutcome, o2: DecodeOutcome)
    requires Accumulate(s.buffer, datagram).Ok? && !ImageComplete(Accumulate(s.buffer, datagram).value)
    ensures Step(s, datagram, o1) == Step(s, datagram, o2)
    ensures Step(s, datagram, o1).current == s.current
    ensures !Decodes(s, datagram, o1)
  {
  }

  /** The end marker on its own is not a complete frame; once a datagram of
      two or more bytes is appended to a non-empty buffer, completeness
      depends on that datagram's last two bytes alone. */
  lemma CompleteAfterAppend(buffer: Bytes, datagram: Bytes)
    requires |buffer| > 0 && |datagram| >= 2
    ensures !ImageComplete(EOI)
    ensures ImageComplete(buffer + datagram) <==> EoiAt(datagram, |datagram| - 2)
  {
    var b := buffer + datagram;
    assert b[|b| - 2] == datagram[|datagram| - 2] && b[|b| - 1] == datagram[|datagram| - 1];
    assert b[|b| - 2..] == datagram[|datagram| - 2..];
  }

  /** One receive-loop iteration with the evidently intended start test: the
      same as Step, except that a one-byte datagram is appended instead of
      ending the loop. */
  function StepGuarded(s: ReceiverState, datagram: Bytes, outcome: DecodeOutcome): (r: ReceiverState)
    ensures r.running ==> s.running
    ensures s.running && !outcome.ReadError? ==> r.running
    ensures r.buffer in {[], s.buffer, datagram, s.buffer + datagram}
  {
    if !s.running || |datagram| == 0 then s
    else
      var buffer := if SoiAt(datagram, 0) then datagram else s.buffer + datagram;
      if ImageComplete(buffer) then Settle(buffer, s.current, outcome)
      else s.(buffer := buffer)
  }

  /** As written, the stray datagram [0xFF] ends the receive loop, keeping
      the buffer and the image as they were. */
  lemma StrayByteStopsStep(s: ReceiverState, outcome: DecodeOutcome)
    requires s.running
    ensures Step(s, [0xFF], outcome) == s.(running := false)
  {
  }

  /** The guarded iteration is the one as written on every datagram but
      [0xFF], which it appends instead of ending the loop. */
  lemma StepGuardedAgrees(s: ReceiverState, datagram: Bytes, outcome: DecodeOutcome)
    ensures datagram != [0xFF] ==> StepGuarded(s, datagram, outcome) == Step(s, datagram, outcome)
    ensures s.running ==> StepGuarded(s, [0xFF], outcome) == s.(buffer := s.buffer + [0xFF])
  {
  }

  /** Whether `updateImage` presents, and the last update time it leaves. */
  datatype GateResult = GateResult(presented: bool, lastUpdateTime: int)

  /** The presentation gate at the top of `updateImage`: it passes when at
      least UPDATE_INTERVAL ms have gone by since the last presentation, and
      then records the current time. The recorded time never moves back,
      even when the clock does. */
  function Gate(lastUpdateTime: int, now: int): (r: GateResult)
    ensures r.lastUpdateTime >= lastUpdateTime
    ensures r.presented <==> r.lastUpdateTime != lastUpdateTime
    ensures r.presented ==> r.lastUpdateTime == now && now - lastUpdateTime >= UPDATE_INTERVAL
    ensures !r.presented ==> now - lastUpdateTime < UPDATE_INTERVAL
  {
    if now - lastUpdateTime < UPDATE_INTERVAL then GateResult(false, lastUpdateTime)
    else GateResult(true, now)
  }

  /** The times at which presentation happens for calls at `times`, starting
      from a last presentation at `lastUpdateTime`. */
  function Presentations(lastUpdateTime: int, times: seq<int>): seq<int>
    decreases |times|
  {
    if times == [] then []
    else if Gate(lastUpdateTime, times[0]).presented then [times[0]] + Presentations(times[0], times[1..])
    else Presentations(lastUpdateTime, times[1..])
  }

  /** Whatever the clock does (it may even go backwards), two presentations
      are at least UPDATE_INTERVAL ms apart, and every presentation is a call
      time. */
  lemma {:induction false} PresentationsSpaced(lastUpdateTime: int, times: seq<int>)
    ensures var p := Presentations(lastUpdateTime, times);
      (|p| > 0 ==> p[0] - lastUpdateTime >= UPDATE_INTERVAL) &&
      (forall i :: 0 < i < |p| ==> p[i] - p[i - 1] >= UPDATE_INTERVAL) &&
      (forall i :: 0 <= i < |p| ==> p[i] in times)
    decreases |times|
  {
    if times != [] {
      if Gate(lastUpdateTime, times[0]).presented {
        PresentationsSpaced(times[0], times[1..]);
        var rest := Presentations(times[0], times[1..]);
        var p := [times[0]] + rest;
        forall i | 0 < i < |p| ensures p[i] - p[i - 1] >= UPDATE_INTERVAL {
          if i > 1 { assert p[i] == rest[i - 1] && p[i - 1] == rest[i - 2]; }
        }
        forall i | 0 <= i < |p| ensures p[i] in times {
          if i > 0 { assert p[i] == rest[i - 1]; assert p[i] in times[1..]; }
        }
      } else {
        PresentationsSpaced(lastUpdateTime, times[1..]);
        var p := Presentations(lastUpdateTime, times[1..]);
        forall i | 0 <= i < |p| ensures p[i] in times {
          assert p[i] in times[1..];
        }
      }
    }
  }

  /** Two calls less than UPDATE_INTERVAL ms apart present at most once. */
  lemma AtMostOncePerInterval(lastUpdateTime: int, t1: int, t2: int)
    requires t2 - t1 < UPDATE_INTERVAL
    ensures |Presentations(lastUpdateTime, [t1, t2])| <= 1
  {
    assert [t1, t2][1..] == [t2];
    assert [t2][1..] == [];
    if Gate(lastUpdateTime, t1).presented {
      assert Presentations(t1, [t2]) == Presentations(t1, []) == [];
      assert Presentations(lastUpdateTime, [t1, t2]) == [t1] + Presentations(t1, [t2]);
    } else {
      assert Presentations(lastUpdateTime, [t1, t2]) == Presentations(lastUpdateTime, [t2]);
      assert |Presentations(lastUpdateTime, [t2])| <= 1;
    }
  }

  /** Each call comes at least `gap` ms after the one before it, the first
      at least `gap` ms after `lastUpdateTime`. */
  predicate SpacedBy(lastUpdateTime: int, times: seq<int>, gap: int)
  {
    (|times| > 0 ==> times[0] - lastUpdateTime >= gap) &&
    (forall i :: 0 < i < |times| ==> times[i] - times[i - 1] >= gap)
  }

  /** Calls spaced UPDATE_INTERVAL ms or more apart are all presented: the
      gate thins out nothing that arrives no faster than it allows. */
  lemma {:induction false} SpacedAllPresent(lastUpdateTime: int, times: seq<int>)
    requires SpacedBy(lastUpdateTime, times, UPDATE_INTERVAL)
    ensures Presentations(lastUpdateTime, times) == times
    decreases |times|
  {
    if times != [] {
      var rest := times[1..];
      assert SpacedBy(times[0], rest, UPDATE_INTERVAL) by {
        if |rest| > 0 {
          assert rest[0] == times[1];
        }
        forall i | 0 < i < |rest|
          ensures rest[i] - rest[i - 1] >= UPDATE_INTERVAL
        {
          assert rest[i] == times[i + 1] && rest[i - 1] == times[i];
        }
      }
      SpacedAllPresent(times[0], rest);
      assert times == [times[0]] + rest;
    }
  }

  /** The gate never starves: a call UPDATE_INTERVAL ms or more after the
      last presentation presents. */
  lemma GateLive(lastUpdateTime: int, now: int)
    requires now - lastUpdateTime >= UPDATE_INTERVAL
    ensures Presentations(lastUpdateTime, [now]) == [now]
  {
  }

  /**
   The receiving side of a screen stream: the fields the receive loop and
   `updateImage` change in place.
   */
  class Father {
    var imageBuffer: Bytes
    var currentImage: Option<Image>
    var lastUpdateTime: int
    var receiving: bool

    constructor ()
      ensures imageBuffer == [] && currentImage == None && lastUpdateTime == 0 && receiving
    {
      imageBuffer := [];
      currentImage := None;
      lastUpdateTime := 0;
      receiving := true;
    }

    function State(): ReceiverState
      reads this
    {
      ReceiverState(imageBuffer, currentImage, receiving)
    }

    /** `updateImage` up to the hand-off to the window: returns whether the
        frame is presented, and records the time when it is. */
    method UpdateImage(now: int) returns (presented: bool)
      modifies this`lastUpdateTime
      ensures GateResult(presented, lastUpdateTime) == Gate(old(lastUpdateTime), now)
    {
      var currentTime := now;
      if currentTime - lastUpdateTime < UPDATE_INTERVAL {
        return false;
      }
      lastUpdateTime := currentTime;
      presented := true;
    }

    /** One iteration of `receiveData` on a received datagram: the new
        buffer, image and loop status are those of Step; `updateImage` runs,
        at time `now`, exactly when an image was decoded. */
    method OnDatagram(datagram: Bytes, outcome: DecodeOutcome, now: int) returns (presented: bool)
      requires receiving
      modifies this
      ensures State() == Step(old(State()), datagram, outcome)
      ensures presented <==> Decodes(old(State()), datagram, outcome) && Gate(old(lastUpdateTime), now).presented
      ensures lastUpdateTime == if presented then now else old(lastUpdateTime)
    {
      ghost var before := State();
      presented := false;
      if |datagram| == 0 {
        return;
      }
      var start := StartCheck(datagram);
      if start.Err? {
        receiving := false;
        return;
      }
      if start.value {
        imageBuffer := datagram;
      } else {
        imageBuffer := imageBuffer + datagram;
      }
      assert Accumulate(before.buffer, datagram) == Ok(imageBuffer);
      if ImageComplete(imageBuffer) {
        match outcome
        case Decoded(image) =>
          currentImage := Some(image);
          imageBuffer := [];
          presented := UpdateImage(now);
        case NoReader =>
        case StructureError =>
          imageBuffer := [];
        case ReadError =>
          receiving := false;
      }
    }
  }
}
