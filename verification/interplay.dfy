/**
  How the cache writer and the door lock meet: the lock reads the cache
  with `split("\n")`, and since every cached line ends in a newline the
  empty string is always among the lines it reads. A frame of more than 30
  bits whose payload is below 16 decodes to that empty string, so such a
  frame opens the door whatever the server sent.
 */
module Interplay {
  import opened PyBuiltins
  import IdDecoder
  import opened DoorLock
  import RfidCache

  /** "" is a whitelist line for every cache file the writer can produce. */
  lemma CachedWhitelistHasEmptyLine(tokens: seq<string>)
    ensures "" in Whitelist(RfidCache.CacheFile(tokens))
  {
    var text := RfidCache.CacheFile(tokens);
    var read := TextModeRead(text);
    assert Whitelist(text) == Split(read, '\n');
    if |tokens| == 0 {
      assert text == "";
      assert read == "";
      assert Split(read, '\n') == [""];
    } else {
      TrailingSeparatorGivesEmptyPiece(read, '\n');
    }
  }

  /** A cache whose lines hold no "\r" holds no "\r": the writer adds only "\n". */
  lemma {:induction false} CacheFileWithoutCarriageReturn(tokens: seq<string>)
    requires NoSeparator(RfidCache.NormalizeAll(tokens), '\r')
    ensures '\r' !in RfidCache.CacheFile(tokens)
    decreases |tokens|
  {
    if |tokens| > 0 {
      var lines := RfidCache.NormalizeAll(tokens);
      assert RfidCache.NormalizeAll(tokens[1..]) == lines[1..];
      CacheFileWithoutCarriageReturn(tokens[1..]);
      assert '\r' !in lines[0];
    }
  }

  /**
    The lock's view of a cache: it reads exactly the normalised tokens in
    order, followed by one "", precisely when no cached line holds "\r".
    Tokens always arrive newline-free, since they come from a split on "\n".
   */
  lemma LockReadsCache(tokens: seq<string>)
    requires NoSeparator(tokens, '\n')
    ensures Whitelist(RfidCache.CacheFile(tokens)) == RfidCache.NormalizeAll(tokens) + [""]
      <==> NoSeparator(RfidCache.NormalizeAll(tokens), '\r')
  {
    var lines := RfidCache.NormalizeAll(tokens);
    var read := Whitelist(RfidCache.CacheFile(tokens));
    if NoSeparator(lines, '\r') {
      CacheFileWithoutCarriageReturn(tokens);
      RfidCache.CacheRoundTrip(tokens);
    } else {
      var i :| 0 <= i < |lines| && '\r' in lines[i];
      LineWithCarriageReturnIsMisread(read, lines, i);
    }
  }

  /** Lines read without any "\r" cannot be lines one of which holds "\r". */
  lemma LineWithCarriageReturnIsMisread(read: seq<string>, lines: seq<string>, i: nat)
    requires NoSeparator(read, '\r')
    requires i < |lines| && '\r' in lines[i]
    ensures read != lines + [""]
  {
    assert (lines + [""])[i] == lines[i];
  }

  /**
    A token ending in "\r", as a CRLF response yields, is cached with its
    "\r" but read back by the lock without it, one character short.
   */
  lemma CarriageReturnIsDropped()
    ensures Whitelist(RfidCache.CacheFile(["ABCD1234\r"])) == ["BCD1234", ""]
  {
    var text := RfidCache.CacheFile(["ABCD1234\r"]);
    CrlfTokenCached();
    CrlfLineRead();
    var read := TextModeRead(text);
    assert read == "BCD1234\n";
    SplitTrailingSeparator("BCD1234", '\n');
    SplitJoin(["BCD1234"], '\n');
    assert "BCD1234\n" == "BCD1234" + ['\n'];
    assert Whitelist(text) == Split(read, '\n');
  }

  /** getrfids.py keeps the token's "\r" inside its last eight characters. */
  lemma CrlfTokenCached()
    ensures RfidCache.CacheFile(["ABCD1234\r"]) == "BCD1234\r\n"
  {
    var token := "ABCD1234\r";
    assert RfidCache.Normalize(token) == token[1..] == "BCD1234\r";
    var tokens := [token];
    assert tokens[1..] == [];
    assert RfidCache.CacheFile(tokens[1..]) == "";
    assert RfidCache.CacheFile(tokens) == RfidCache.Normalize(token) + "\n" + "";
  }

  /** The text-mode read turns the cached line's "\r\n" into one "\n". */
  lemma CrlfLineRead()
    ensures TextModeRead("BCD1234\r\n") == "BCD1234\n"
  {
    var line := "BCD1234";
    assert "BCD1234\r\n" == line + "\r\n";
    TextModeReadPlain(line, "\r\n");
    CrlfReadsAsNewline();
  }

  lemma CrlfReadsAsNewline()
    ensures TextModeRead("\r\n") == "\n"
  {
    var crlf := "\r\n";
    assert crlf[0] == '\r' && crlf[1] == '\n';
    assert crlf[2..] == "";
    assert TextModeRead(crlf[2..]) == "";
  }

  /**
    A quiet, long frame whose payload is below 16 opens a locked door under
    any cached whitelist: it decodes to "", which the whitelist contains.
   */
  lemma LowValueFrameOpensDoor(tokens: seq<string>, s: Door, now: int)
    requires s.locked && QuietElapsed(s, now) && |s.bits| > NoiseBits
    requires BinValue(IdDecoder.Payload(s.bits)) < 16
    ensures var r := Step(s, Whitelist(RfidCache.CacheFile(tokens)), now);
      !r.locked && r.relayHigh && r.scannedId == "" && r.openedAt == now
  {
    CachedWhitelistHasEmptyLine(tokens);
  }

  function Zeros(n: nat): (bits: seq<BitChar>)
    ensures |bits| == n
  {
    if n == 0 then [] else Zeros(n - 1) + ['0']
  }

  lemma {:induction false} ZerosValue(n: nat)
    ensures BinValue(Zeros(n)) == 0
  {
    if n > 0 {
      ZerosValue(n - 1);
      assert Zeros(n)[..n - 1] == Zeros(n - 1);
    }
  }

  /** `count` edges on the 0 line, one millisecond apart from time 0. */
  function ZeroEdges(count: nat): (events: seq<Event>)
    ensures |events| == count && AllEdges(events)
    ensures count > 0 ==> events[count - 1].at == count - 1
  {
    if count == 0 then [] else ZeroEdges(count - 1) + [Edge(DataZeroPin, count - 1)]
  }

  lemma {:induction false} ZeroEdgesBits(count: nat)
    ensures EdgeBits(ZeroEdges(count)) == Zeros(count)
  {
    if count > 0 {
      ZeroEdgesBits(count - 1);
      EdgeBitsAppend(ZeroEdges(count - 1), Edge(DataZeroPin, count - 1));
    }
  }

  lemma {:induction false} EdgeBitsAppend(events: seq<Event>, e: Event)
    requires e.Edge? && e.pin == DataZeroPin
    ensures EdgeBits(events + [e]) == EdgeBits(events) + ['0']
    decreases |events|
  {
    if |events| == 0 {
      assert events + [e] == [e];
    } else {
      EdgeBitsAppend(events[1..], e);
      assert (events + [e])[1..] == events[1..] + [e];
    }
  }

  lemma {:induction false} RunAppend(s: Door, whitelist: seq<string>, events: seq<Event>, e: Event)
    ensures Run(s, whitelist, events + [e]) == Apply(Run(s, whitelist, events), whitelist, e)
    decreases |events|
  {
    if |events| == 0 {
      assert events + [e] == [e];
    } else {
      RunAppend(Apply(s, whitelist, events[0]), whitelist, events[1..], e);
      assert (events + [e])[1..] == events[1..] + [e];
    }
  }

  /**
    A concrete run: from start-up, 31 edges on the 0 line followed by a
    loop pass 200 ms later open the door, whatever tokens were cached.
   */
  lemma ThirtyOneZerosOpenDoor(tokens: seq<string>)
    ensures !Run(Init(), Whitelist(RfidCache.CacheFile(tokens)), ZeroEdges(31) + [Pass(230)]).locked
  {
    var w := Whitelist(RfidCache.CacheFile(tokens));
    var edges := ZeroEdges(31);
    EdgesAccumulate(Init(), w, edges);
    ZeroEdgesBits(31);
    var s := Run(Init(), w, edges);
    assert s.bits == Zeros(31);
    assert IdDecoder.Payload(s.bits) == Zeros(30);
    ZerosValue(30);
    RunAppend(Init(), w, edges, Pass(230));
    LowValueFrameOpensDoor(tokens, s, 230);
  }
}
