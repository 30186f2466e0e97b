/** The two frames the plugin writes back to the remote side (remote_subl.py:58-75),
    and the reader the remote side applies to them. */
module Frames {
  import opened Common
  import opened Bytes
  import Utf8
  import Text

  /** The command lines and line prefixes, as ASCII bytes: `save`, `close`,
      `token: ` and `data: `. */
  const SAVE: Bytes := [115, 97, 118, 101]
  const CLOSE: Bytes := [99, 108, 111, 115, 101]
  const TOKEN_PREFIX: Bytes := [116, 111, 107, 101, 110, 58, 32]
  const DATA_PREFIX: Bytes := [100, 97, 116, 97, 58, 32]

  /** `b"token: " + token.encode("utf8") + b"\n"` */
  function TokenLine(token: string): Bytes {
    TOKEN_PREFIX + Utf8.Encode(token) + [LF]
  }

  /** `b"data: " + str(n).encode("utf8") + b"\n"` */
  function DataLine(n: nat): Bytes {
    DATA_PREFIX + Utf8.Encode(Text.DecimalString(n)) + [LF]
  }

  /** What `File.save` sends for a temp file holding `content` (remote_subl.py:68-75). */
  function SaveFrame(token: string, content: Bytes): (r: Bytes)
    ensures SAVE + [LF] <= r
    ensures |content| < |r| && r[|r| - |content| - 1..] == content + [LF]
  {
    SAVE + [LF] + TokenLine(token) + DataLine(|content|) + content + [LF]
  }

  /** What `File.close` sends (remote_subl.py:59-61). */
  function CloseFrame(token: string): (r: Bytes)
    ensures CLOSE + [LF] <= r
    ensures |r| >= 2 && r[|r| - 2..] == [LF, LF]
  {
    CLOSE + [LF] + TokenLine(token) + [LF]
  }

  /** A frame as the remote side reads it: the token's bytes and, for a save, the file. */
  datatype Frame = Save(token: Bytes, content: Bytes) | Close(token: Bytes)

  /** The first line of `s` without its line feed, and the bytes after it; None when
      `s` holds no complete line. */
  function NextLine(s: Bytes): (r: Option<(Bytes, Bytes)>)
    ensures r.Some? ==> s == r.value.0 + [LF] + r.value.1 && LF !in r.value.0
  {
    var n := LineEnd(s);
    if n == |s| then None
    else
      assert s == s[..n] + [LF] + s[n + 1..];
      Some((s[..n], s[n + 1..]))
  }

  lemma NextLineOf(a: Bytes, b: Bytes)
    requires LF !in a
    ensures NextLine(a + [LF] + b) == Some((a, b))
  {
    LineEndAfter(a, b);
    var s := a + [LF] + b;
    assert s[..|a|] == a && s[|a| + 1..] == b;
  }

  /** The rest of `line` after `prefix`, or None when it does not start with it. */
  function After(prefix: Bytes, line: Bytes): (r: Option<Bytes>)
    ensures r.Some? ==> line == prefix + r.value
  {
    if |line| >= |prefix| && line[..|prefix|] == prefix then
      assert line == line[..|prefix|] + line[|prefix|..];
      Some(line[|prefix|..])
    else None
  }

  lemma AfterOf(prefix: Bytes, x: Bytes)
    ensures After(prefix, prefix + x) == Some(x)
  {
    assert (prefix + x)[..|prefix|] == prefix && (prefix + x)[|prefix|..] == x;
  }

  /** A token line: the token's bytes and what follows the line. */
  function ReadToken(s: Bytes): Option<(Bytes, Bytes)> {
    match NextLine(s)
    case None => None
    case Some((line, rest)) =>
      match After(TOKEN_PREFIX, line)
      case None => None
      case Some(token) => Some((token, rest))
  }

  /** The count a data line announces, and what follows the line. */
  function ReadCount(s: Bytes): Option<(int, Bytes)> {
    match NextLine(s)
    case None => None
    case Some((line, rest)) =>
      match After(DATA_PREFIX, line)
      case None => None
      case Some(digits) =>
        match Utf8.Decode(digits)
        case None => None
        case Some(text) =>
          match Text.ParseInt(text)
          case None => None
          case Some(n) => Some((n, rest))
  }

  /** Reads one frame off the front of `s`: a command line, a token line and, for
      `save`, a data line announcing how many raw bytes follow before the closing line
      feed. Yields the frame and the bytes after it. */
  function ReadFrame(s: Bytes): Option<(Frame, Bytes)> {
    match NextLine(s)
    case None => None
    case Some((command, s1)) =>
      match ReadToken(s1)
      case None => None
      case Some((token, s2)) =>
        if command == CLOSE then
          match NextLine(s2)
          case Some((blank, s3)) => if blank == [] then Some((Close(token), s3)) else None
          case None => None
        else if command == SAVE then
          match ReadCount(s2)
          case None => None
          case Some((n, s3)) =>
            if 0 <= n < |s3| && s3[n] == LF then Some((Save(token, s3[..n]), s3[n + 1..])) else None
        else None
  }

  lemma Keywords()
    ensures LF !in SAVE && LF !in CLOSE && SAVE != CLOSE
  {
    assert SAVE[0] as int == 's' as int;
    assert CLOSE[0] as int == 'c' as int;
  }

  lemma ReadTokenLine(token: string, rest: Bytes)
    requires '\n' !in token
    ensures ReadToken(TokenLine(token) + rest) == Some((Utf8.Encode(token), rest))
  {
    var t := Utf8.Encode(token);
    Utf8.EncodeNoLineFeed(token);
    assert LF !in TOKEN_PREFIX;
    assert TokenLine(token) + rest == (TOKEN_PREFIX + t) + [LF] + rest;
    NextLineOf(TOKEN_PREFIX + t, rest);
    AfterOf(TOKEN_PREFIX, t);
  }

  lemma ReadDataLine(n: nat, rest: Bytes)
    ensures ReadCount(DataLine(n) + rest) == Some((n, rest))
  {
    var digits := Text.DecimalString(n);
    var d := Utf8.Encode(digits);
    Utf8.EncodeNoLineFeed(digits);
    assert LF !in DATA_PREFIX;
    assert DataLine(n) + rest == (DATA_PREFIX + d) + [LF] + rest;
    NextLineOf(DATA_PREFIX + d, rest);
    AfterOf(DATA_PREFIX, d);
    Utf8.DecodeEncode(digits);
    Text.ParseDecimalString(n);
  }

  lemma Assoc(a: Bytes, b: Bytes, c: Bytes)
    ensures a + b + c == a + (b + c)
  {}

  lemma ReadFrameOfSave(s: Bytes, s1: Bytes, token: Bytes, s2: Bytes, n: int, s3: Bytes)
    requires NextLine(s) == Some((SAVE, s1)) && ReadToken(s1) == Some((token, s2))
    requires ReadCount(s2) == Some((n, s3)) && 0 <= n < |s3| && s3[n] == LF
    ensures ReadFrame(s) == Some((Save(token, s3[..n]), s3[n + 1..]))
  {
    Keywords();
  }

  /** The remote side reads a save frame back as the token's bytes and the file's
      exact content, and stops right after it. */
  lemma ReadSaveFrame(token: string, content: Bytes, rest: Bytes)
    requires '\n' !in token
    ensures ReadFrame(SaveFrame(token, content) + rest) == Some((Save(Utf8.Encode(token), content), rest))
  {
    var tl, dl := TokenLine(token), DataLine(|content|);
    var s3 := content + [LF] + rest;
    var s2 := dl + s3;
    var s1 := tl + s2;
    var s := SAVE + [LF] + s1;
    Assoc(SAVE + [LF] + tl + dl + content, [LF], rest);
    Assoc(SAVE + [LF] + tl + dl, content, [LF] + rest);
    Assoc(content, [LF], rest);
    Assoc(SAVE + [LF] + tl, dl, s3);
    Assoc(SAVE + [LF], tl, s2);
    assert SaveFrame(token, content) + rest == s;
    Keywords();
    NextLineOf(SAVE, s1);
    ReadTokenLine(token, s2);
    ReadDataLine(|content|, s3);
    assert s3[..|content|] == content && s3[|content| + 1..] == rest && s3[|content|] == LF;
    ReadFrameOfSave(s, s1, Utf8.Encode(token), s2, |content|, s3);
  }

  /** The remote side reads a close frame back as the token's bytes. */
  lemma ReadCloseFrame(token: string, rest: Bytes)
    requires '\n' !in token
    ensures ReadFrame(CloseFrame(token) + rest) == Some((Close(Utf8.Encode(token)), rest))
  {
    Keywords();
    var s2 := [] + [LF] + rest;
    var s1 := TokenLine(token) + s2;
    var tl := TokenLine(token);
    Assoc(CLOSE + [LF] + tl, [LF], rest);
    Assoc(CLOSE + [LF], tl, [LF] + rest);
    assert [] + [LF] + rest == [LF] + rest;
    assert CloseFrame(token) + rest == CLOSE + [LF] + s1;
    NextLineOf(CLOSE, s1);
    ReadTokenLine(token, s2);
    NextLineOf([], rest);
  }
}
