/**
  The RFID door lock of main.py as pure step functions over one immutable
  record. Two kinds of event drive it: a falling edge on one of the
  reader's data lines (the `detect` callback) and one pass of the main
  loop (quiet-timeout flush, decode and whitelist check, unlock, relock).
  Clock readings are integer milliseconds passed in with each event; the
  relay is the boolean level of its output pin (true = HIGH = open).
 */
module DoorLock {
  import opened PyBuiltins
  import IdDecoder

  /** `bit_string_time_out_ms`: quiet time after the last bit that ends a frame. */
  const QuietTimeoutMs: int := 100
  /** `lock_open_delay_s` = 1, in milliseconds. */
  const LockOpenDelayMs: int := 1000
  /** Frames of at most this many bits are treated as noise. */
  const NoiseBits: nat := 30
  /** The data line whose falling edge means a 0 bit. */
  const DataZeroPin: int := 7
  /** The data line whose falling edge means a 1 bit. */
  const DataOnePin: int := 13

  datatype Door = Door(
    bits: seq<BitChar>,   // bit_string
    inFrame: bool,        // bit_detected
    lastBitAt: int,       // previous_bit_detected_time
    authorized: bool,
    scannedId: string,    // scanned_id
    locked: bool,
    relayHigh: bool,      // level driven on the relay pin
    openedAt: int         // lock_opened_time
  )

  predicate SameFrame(a: Door, b: Door)
  {
    a.bits == b.bits && a.inFrame == b.inFrame && a.lastBitAt == b.lastBitAt
  }

  predicate SameDecision(a: Door, b: Door)
  {
    a.authorized == b.authorized && a.scannedId == b.scannedId
  }

  predicate SameLock(a: Door, b: Door)
  {
    a.locked == b.locked && a.relayHigh == b.relayHigh && a.openedAt == b.openedAt
  }

  /** The relay is energised exactly when the door is recorded as unlocked. */
  predicate RelayMirrorsLock(s: Door)
  {
    s.relayHigh == !s.locked
  }

  /**
    The whitelist as the program reads it: the file is read in text mode,
    so "\r\n" and "\r" arrive as "\n", and that text is split on "\n".
    The split is the same one RfidCache.Tokens applies to a response body.
   */
  function Whitelist(fileText: string): (lines: seq<string>)
    ensures |lines| >= 1
    ensures Join(lines, '\n') == TextModeRead(fileText)
    ensures '\r' !in fileText ==> Join(lines, '\n') == fileText
    ensures NoSeparator(lines, '\n') && NoSeparator(lines, '\r')
  {
    var text := TextModeRead(fileText);
    var lines := Split(text, '\n');
    assert NoSeparator(lines, '\r') by {
      forall i | 0 <= i < |lines|
        ensures '\r' !in lines[i]
      {
        JoinedPieceInText(lines, '\n', i, '\r');
      }
    }
    lines
  }

  // ---------------------------------------------------------------------------
  // Frame accumulator
  // ---------------------------------------------------------------------------

  function ResetScan(s: Door): (r: Door)
    ensures r.bits == [] && !r.inFrame
    ensures r.lastBitAt == s.lastBitAt && SameDecision(s, r) && SameLock(s, r)
  {
    s.(bits := [], inFrame := false)
  }

  /**
    A falling edge on `pin` at time `now`. The frame is marked in progress
    and stamped before the pin is looked up, so an edge on a line other
    than 7 or 13 (a KeyError in the callback) still stamps the frame but
    adds no bit.
   */
  function Detect(s: Door, pin: int, now: int): (r: Door)
    ensures r.inFrame && r.lastBitAt == now
    ensures pin == DataZeroPin ==> r.bits == s.bits + ['0']
    ensures pin == DataOnePin ==> r.bits == s.bits + ['1']
    ensures pin != DataZeroPin && pin != DataOnePin ==> r.bits == s.bits
    ensures SameDecision(s, r) && SameLock(s, r)
  {
    var stamped := s.(inFrame := true, lastBitAt := now);
    if pin == DataZeroPin then stamped.(bits := s.bits + ['0'])
    else if pin == DataOnePin then stamped.(bits := s.bits + ['1'])
    else stamped
  }

  /** A frame is in progress and no bit has arrived for more than the quiet timeout. */
  predicate QuietElapsed(s: Door, now: int)
  {
    s.inFrame && now - s.lastBitAt > QuietTimeoutMs
  }

  /**
    The first rule of the main loop: once a frame has gone quiet it is
    decoded if it is long enough, `authorized` is overwritten with exact
    membership of the decoded ID in the whitelist, and the frame is reset
    whatever its length.
   */
  function Flush(s: Door, whitelist: seq<string>, now: int): (r: Door)
    ensures r == s <==> !QuietElapsed(s, now)
    ensures QuietElapsed(s, now) ==> r.bits == [] && !r.inFrame && r.lastBitAt == s.lastBitAt
    ensures QuietElapsed(s, now) && |s.bits| > NoiseBits ==>
      r.scannedId == IdDecoder.DecodeId(s.bits) && (r.authorized <==> r.scannedId in whitelist)
    ensures !(QuietElapsed(s, now) && |s.bits| > NoiseBits) ==> SameDecision(s, r)
    ensures SameLock(s, r)
  {
    if !QuietElapsed(s, now) then s
    else if |s.bits| > NoiseBits then
      var id := IdDecoder.DecodeId(s.bits);
      ResetScan(s.(scannedId := id, authorized := id in whitelist))
    else ResetScan(s)
  }

  /** A frame was decoded in this pass and its ID is on the whitelist. */
  predicate Accepts(s: Door, whitelist: seq<string>, now: int)
  {
    QuietElapsed(s, now) && |s.bits| > NoiseBits && IdDecoder.DecodeId(s.bits) in whitelist
  }

  // ---------------------------------------------------------------------------
  // Lock state machine
  // ---------------------------------------------------------------------------

  /** `unlock_door`: relay HIGH, open time stamped, door unlocked. */
  function UnlockDoor(s: Door, now: int): (r: Door)
    ensures !r.locked && RelayMirrorsLock(r) && r.openedAt == now
    ensures SameFrame(s, r) && SameDecision(s, r)
  {
    s.(relayHigh := true, openedAt := now, locked := false)
  }

  /** `lock_door`: relay LOW, door locked; the open time is left as it was. */
  function LockDoor(s: Door): (r: Door)
    ensures r.locked && RelayMirrorsLock(r) && r.openedAt == s.openedAt
    ensures SameFrame(s, r) && SameDecision(s, r)
  {
    s.(relayHigh := false, locked := true)
  }

  /** The second rule: a pending authorization opens a locked door and is used up doing so. */
  function UnlockRule(s: Door, now: int): (r: Door)
    ensures s.authorized && s.locked ==>
      !r.authorized && !r.locked && r.relayHigh && r.openedAt == now
      && SameFrame(s, r) && r.scannedId == s.scannedId
    ensures !(s.authorized && s.locked) ==> r == s
  {
    if s.authorized && s.locked then UnlockDoor(s.(authorized := false), now) else s
  }

  /** The third rule: an open door relocks once strictly more than the open delay has passed. */
  function RelockRule(s: Door, now: int): (r: Door)
    ensures r.locked != s.locked <==> !s.locked && now - s.openedAt > LockOpenDelayMs
    ensures r.locked != s.locked ==> r.locked && !r.relayHigh
    ensures SameFrame(s, r) && SameDecision(s, r) && r.openedAt == s.openedAt
    ensures r.locked == s.locked ==> r == s
  {
    if !s.locked && now - s.openedAt > LockOpenDelayMs then LockDoor(s) else s
  }

  /** One pass of the main loop at time `now`. */
  function Step(s: Door, whitelist: seq<string>, now: int): (r: Door)
    ensures RelayMirrorsLock(s) ==> RelayMirrorsLock(r)
    ensures !r.inFrame || (s.inFrame && !QuietElapsed(s, now))
    ensures s.locked && !r.locked ==> Unlocks(s, whitelist, now) && r.openedAt == now
    ensures !s.locked && r.locked ==> now - s.openedAt > LockOpenDelayMs
  {
    RelockRule(UnlockRule(Flush(s, whitelist, now), now), now)
  }

  /** The unlock rule fires in the pass at time `now`. */
  predicate Unlocks(s: Door, whitelist: seq<string>, now: int)
  {
    var f := Flush(s, whitelist, now);
    f.authorized && f.locked
  }

  /** The state right after the program's start-up lines: empty frame, locked, unauthorized. */
  function Init(): (s: Door)
    ensures s.bits == [] && !s.inFrame
    ensures s.locked && RelayMirrorsLock(s) && !s.authorized && s.scannedId == ""
  {
    Door([], false, 0, false, "", true, false, 0)
  }

  // ---------------------------------------------------------------------------
  // Runs: interleavings of reader edges and loop passes
  // ---------------------------------------------------------------------------

  datatype Event = Edge(pin: int, at: int) | Pass(at: int)

  function Apply(s: Door, whitelist: seq<string>, e: Event): Door
  {
    match e
    case Edge(pin, at) => Detect(s, pin, at)
    case Pass(at) => Step(s, whitelist, at)
  }

  function Run(s: Door, whitelist: seq<string>, events: seq<Event>): Door
    decreases |events|
  {
    if |events| == 0 then s else Run(Apply(s, whitelist, events[0]), whitelist, events[1..])
  }

  /** How many loop passes of the run open the door. */
  function UnlockCount(s: Door, whitelist: seq<string>, events: seq<Event>): nat
    decreases |events|
  {
    if |events| == 0 then 0
    else
      var here := if events[0].Pass? && Unlocks(s, whitelist, events[0].at) then 1 else 0;
      here + UnlockCount(Apply(s, whitelist, events[0]), whitelist, events[1..])
  }

  /** How many loop passes of the run decode a frame whose ID is whitelisted. */
  function AcceptCount(s: Door, whitelist: seq<string>, events: seq<Event>): nat
    decreases |events|
  {
    if |events| == 0 then 0
    else
      var here := if events[0].Pass? && Accepts(s, whitelist, events[0].at) then 1 else 0;
      here + AcceptCount(Apply(s, whitelist, events[0]), whitelist, events[1..])
  }

  /**
    One accepted scan opens the door at most once: over any run, the
    openings never outnumber the accepted frames plus an authorization
    already pending at the start.
   */
  lemma {:induction false} OneUnlockPerAcceptance(s: Door, whitelist: seq<string>, events: seq<Event>)
    ensures UnlockCount(s, whitelist, events)
      <= AcceptCount(s, whitelist, events) + (if s.authorized then 1 else 0)
    decreases |events|
  {
    if |events| > 0 {
      var s' := Apply(s, whitelist, events[0]);
      OneUnlockPerAcceptance(s', whitelist, events[1..]);
      match events[0]
      case Edge(_, _) =>
      case Pass(now) =>
        var f := Flush(s, whitelist, now);
        assert f.authorized ==> Accepts(s, whitelist, now) || s.authorized;
    }
  }

  /** The relay mirrors the lock in every state reachable from start-up. */
  lemma {:induction false} RunKeepsRelayMirror(s: Door, whitelist: seq<string>, events: seq<Event>)
    requires RelayMirrorsLock(s)
    ensures RelayMirrorsLock(Run(s, whitelist, events))
    decreases |events|
  {
    if |events| > 0 {
      RunKeepsRelayMirror(Apply(s, whitelist, events[0]), whitelist, events[1..]);
    }
  }

  lemma ReachableRelayMirrorsLock(whitelist: seq<string>, events: seq<Event>)
    ensures RelayMirrorsLock(Run(Init(), whitelist, events))
  {
    RunKeepsRelayMirror(Init(), whitelist, events);
  }

  /** The bits a sequence of edges contributes, one per edge on a data line. */
  function EdgeBits(events: seq<Event>): seq<BitChar>
    decreases |events|
  {
    if |events| == 0 then []
    else
      var e := events[0];
      var b: seq<BitChar> :=
        if e.Edge? && e.pin == DataZeroPin then ['0']
        else if e.Edge? && e.pin == DataOnePin then ['1']
        else [];
      b + EdgeBits(events[1..])
  }

  predicate AllEdges(events: seq<Event>)
  {
    forall i :: 0 <= i < |events| ==> events[i].Edge?
  }

  /**
    Bits accumulate in arrival order: a burst of edges with no loop pass in
    between appends exactly one character per edge on line 7 or 13, and
    leaves the frame stamped with the last edge's time.
   */
  lemma {:induction false} EdgesAccumulate(s: Door, whitelist: seq<string>, events: seq<Event>)
    requires AllEdges(events)
    ensures Run(s, whitelist, events).bits == s.bits + EdgeBits(events)
    ensures |events| > 0 ==>
      Run(s, whitelist, events).inFrame && Run(s, whitelist, events).lastBitAt == events[|events| - 1].at
    ensures SameDecision(s, Run(s, whitelist, events)) && SameLock(s, Run(s, whitelist, events))
    decreases |events|
  {
    if |events| > 0 {
      var e := events[0];
      var rest := events[1..];
      assert e.Edge?;
      var s' := Detect(s, e.pin, e.at);
      RunFirstEdge(s, whitelist, events);
      assert AllEdges(rest) by {
        forall i | 0 <= i < |rest|
          ensures rest[i].Edge?
        {
          assert rest[i] == events[i + 1];
        }
      }
      EdgesAccumulate(s', whitelist, rest);
      if |events| > 1 {
        assert rest[|rest| - 1] == events[|events| - 1];
      }
      EdgeBitsFirst(events);
      assert s'.bits == s.bits + EdgeBits([e]);
    }
  }

  lemma RunFirstEdge(s: Door, whitelist: seq<string>, events: seq<Event>)
    requires |events| > 0 && events[0].Edge?
    ensures Run(s, whitelist, events) == Run(Detect(s, events[0].pin, events[0].at), whitelist, events[1..])
  {
  }

  lemma EdgeBitsFirst(events: seq<Event>)
    requires |events| > 0
    ensures EdgeBits(events) == EdgeBits([events[0]]) + EdgeBits(events[1..])
  {
    assert [events[0]][1..] == [];
  }

  /** No bit of a flushed frame carries into the next: after a flush the frame is empty. */
  lemma FlushStartsFreshFrame(s: Door, whitelist: seq<string>, now: int, burst: seq<Event>)
    requires QuietElapsed(s, now) && AllEdges(burst)
    ensures Run(Step(s, whitelist, now), whitelist, burst).bits == EdgeBits(burst)
  {
    EdgesAccumulate(Step(s, whitelist, now), whitelist, burst);
  }

  predicate PassesNoLaterThan(events: seq<Event>, deadline: int)
  {
    forall i :: 0 <= i < |events| ==> (events[i].Pass? ==> events[i].at <= deadline)
  }

  /**
    An open door stays open, with its open time unchanged, through every
    loop pass up to and including one second after it was opened.
   */
  lemma {:induction false} StaysOpenForDelay(s: Door, whitelist: seq<string>, events: seq<Event>)
    requires !s.locked && PassesNoLaterThan(events, s.openedAt + LockOpenDelayMs)
    ensures !Run(s, whitelist, events).locked
    ensures Run(s, whitelist, events).openedAt == s.openedAt
    decreases |events|
  {
    if |events| > 0 {
      var s' := Apply(s, whitelist, events[0]);
      assert events[0].Pass? ==> events[0].at <= s.openedAt + LockOpenDelayMs;
      assert !s'.locked && s'.openedAt == s.openedAt;
      assert PassesNoLaterThan(events[1..], s.openedAt + LockOpenDelayMs) by {
        forall i | 0 <= i < |events[1..]|
          ensures events[1..][i].Pass? ==> events[1..][i].at <= s.openedAt + LockOpenDelayMs
        {
          assert events[1..][i] == events[i + 1];
        }
      }
      StaysOpenForDelay(s', whitelist, events[1..]);
    }
  }
}
