/**
  The whitelist cache of getrfids.py: the server's response body is split
  into tokens on "\n", every token is cut to its last eight characters,
  and each is written on its own newline-terminated line. The file is
  modelled as the string that would be written.
 */
module RfidCache {
  import opened PyBuiltins

  /** How many trailing characters of a token are kept (`token[-8:]`). */
  const KeptChars: nat := 8

  /** The tokens of a response body (`content.split('\n')`), the split DoorLock.Whitelist also uses. */
  function Tokens(body: string): (tokens: seq<string>)
    ensures |tokens| >= 1
    ensures NoSeparator(tokens, '\n')
    ensures Join(tokens, '\n') == body
  {
    Split(body, '\n')
  }

  /** `token[-8:]`: the last eight characters, or the whole token when it is shorter. */
  function Normalize(token: string): (short: string)
    ensures |short| == if |token| < KeptChars then |token| else KeptChars
    ensures token == token[..|token| - |short|] + short
  {
    if |token| <= KeptChars then token else token[|token| - KeptChars..]
  }

  /** Cutting to the last eight characters twice is the same as cutting once. */
  lemma NormalizeIdempotent(token: string)
    ensures Normalize(Normalize(token)) == Normalize(token)
  {
  }

  function NormalizeAll(tokens: seq<string>): (lines: seq<string>)
    ensures |lines| == |tokens|
    ensures forall i :: 0 <= i < |tokens| ==> lines[i] == Normalize(tokens[i])
  {
    seq(|tokens|, i requires 0 <= i < |tokens| => Normalize(tokens[i]))
  }

  /**
    The text `cacheRFIDs` writes: one normalised token per line, in input
    order, each followed by "\n" (CacheFileIsJoin states the layout). A file
    written from at least one token therefore ends in a newline.
   */
  function CacheFile(tokens: seq<string>): (text: string)
    ensures |tokens| > 0 ==> |text| > 0 && text[|text| - 1] == '\n'
    decreases |tokens|
  {
    if |tokens| == 0 then "" else Normalize(tokens[0]) + "\n" + CacheFile(tokens[1..])
  }

  /**
    The cache file is the normalised tokens joined by newlines with one more
    newline at the end: equivalently, the lines joined with an empty last line.
   */
  lemma {:induction false} CacheFileIsJoin(tokens: seq<string>)
    ensures CacheFile(tokens) == Join(NormalizeAll(tokens) + [""], '\n')
    decreases |tokens|
  {
    if |tokens| > 0 {
      CacheFileIsJoin(tokens[1..]);
      var lines := NormalizeAll(tokens) + [""];
      assert lines[1..] == NormalizeAll(tokens[1..]) + [""];
    }
  }

  /** Every line a token yields is newline-free when the token is. */
  lemma NormalizeKeepsNoSeparator(tokens: seq<string>)
    requires NoSeparator(tokens, '\n')
    ensures NoSeparator(NormalizeAll(tokens) + [""], '\n')
  {
    var lines := NormalizeAll(tokens) + [""];
    forall i | 0 <= i < |lines|
      ensures '\n' !in lines[i]
    {
      if i < |tokens| {
        var t := tokens[i];
        assert lines[i] == t[|t| - |lines[i]|..];
      }
    }
  }

  /**
    Reading the cache back with `split("\n")` gives one line per token, in
    order, each the token's last eight characters, followed by exactly one
    empty line produced by the final newline.
   */
  lemma CacheRoundTrip(tokens: seq<string>)
    requires NoSeparator(tokens, '\n')
    ensures Split(CacheFile(tokens), '\n') == NormalizeAll(tokens) + [""]
  {
    CacheFileIsJoin(tokens);
    NormalizeKeepsNoSeparator(tokens);
    SplitJoin(NormalizeAll(tokens) + [""], '\n');
  }

  /** Whatever the server sends, the cache of its tokens reads back as their normalised forms plus "". */
  lemma ResponseRoundTrip(body: string)
    ensures Split(CacheFile(Tokens(body)), '\n') == NormalizeAll(Tokens(body)) + [""]
  {
    CacheRoundTrip(Tokens(body));
  }

  /**
    A body ending in a newline yields a final empty token; it is cached as
    an empty line, so reading the cache back ends in two empty lines.
   */
  lemma TrailingNewlineCachesEmptyLine(body: string)
    requires |body| > 0 && body[|body| - 1] == '\n'
    ensures var tokens := Tokens(body);
      |tokens| >= 2 && tokens[|tokens| - 1] == ""
    ensures var lines := Split(CacheFile(Tokens(body)), '\n');
      |lines| >= 3 && lines[|lines| - 1] == "" && lines[|lines| - 2] == ""
  {
    var head := body[..|body| - 1];
    assert body == head + ['\n'];
    SplitTrailingSeparator(head, '\n');
    ResponseRoundTrip(body);
  }
}
