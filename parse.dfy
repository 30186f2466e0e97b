/** `Session.parse_input` (remote_subl.py:154-190) as a step function over the
    parser's state: the transfer being read, if any, and whether payload lines
    are being collected. The step stops short of `File.open`: it reports that
    the payload is complete, and the session then opens the file. */
module Parse {
  import opened Common
  import opened Bytes
  import Trim
  import Utf8
  import Text
  import Payload

  /** The ASCII bytes of `open`, the line that starts a transfer. */
  const OPEN: Bytes := [111, 112, 101, 110]

  /** The fields of a `File` that header and payload lines set (remote_subl.py:44-56,
      180-190): the header map `env`, the payload collected so far, `ready`,
      `file_size` (None until a `data` header sets it) and `host`/`base_name`
      (None until a `display-name` header sets them). */
  datatype Pending = Pending(env: map<string, string>, data: Bytes, ready: bool,
                             fileSize: Option<int>, display: Option<Text.DisplayName>)

  /** `File(session)` as the constructor leaves it. */
  const Fresh: Pending := Pending(map[], [], false, None, None)

  /** `self.file` (None for Python's None) and `self.parsing_data`. */
  datatype Parser = Parser(file: Option<Pending>, parsing: bool)

  /** A new session's parser. */
  const Initial: Parser := Parser(None, false)

  /** What one line did: the parser state, whether it was an `open` line (which
      adds one to `nconn`), whether it completed the payload (so that the session
      now opens the file), and the exception it raised, if any. */
  datatype Reaction = Reaction(parser: Parser, started: bool, complete: bool, raised: Option<Error>)

  /** `input_line.strip() == b"open"` */
  predicate IsOpenLine(line: Bytes) {
    Trim.Strip(line, IsSpaceByte) == OPEN
  }

  /** An `open` line is `open` with any white space around it, line feed
      included, and nothing else: such a line is one, and every byte of an
      `open` line outside one occurrence of `open` is white space. */
  lemma OpenLineOf(a: Bytes, b: Bytes)
    requires forall j :: 0 <= j < |a| ==> IsSpaceByte(a[j])
    requires forall j :: 0 <= j < |b| ==> IsSpaceByte(b[j])
    ensures IsOpenLine(a + OPEN + b)
  {
    Trim.StripUnique(a + OPEN + b, IsSpaceByte, a, OPEN, b);
  }

  lemma OpenLineShape(line: Bytes)
    requires IsOpenLine(line)
    ensures var i := |line| - |Trim.TrimLeft(line, IsSpaceByte)|;
            && i + |OPEN| <= |line| && line[i..i + |OPEN|] == OPEN
            && (forall j :: 0 <= j < i ==> IsSpaceByte(line[j]))
            && (forall j :: i + |OPEN| <= j < |line| ==> IsSpaceByte(line[j]))
  {
  }

  /** The payload line `line` given to `File.append`. Without a `file_size` the
      size comparison raises before anything changes. */
  function AppendLine(f: Pending, line: Bytes): (r: Effect<Pending>)
    ensures r.Ok() <==> f.fileSize.Some?
    ensures r.state.env == f.env && r.state.fileSize == f.fileSize && r.state.display == f.display
    ensures r.Ok() ==> Payload.Buffer(r.state.data, r.state.ready)
                         == Payload.Append(Payload.Buffer(f.data, f.ready), f.fileSize.value, line)
    ensures !r.Ok() ==> r.state == f
  {
    match f.fileSize
    case None => Raise(f, MissingAttribute("file_size"))
    case Some(size) =>
      var b := Payload.Append(Payload.Buffer(f.data, f.ready), size, line);
      Done(f.(data := b.data, ready := b.ready))
  }

  /** A header `k: v` stored in `env`; `data` and `display-name` also set
      `file_size` (and payload mode) or `host`/`base_name`, and raise when the value
      does not convert. The header stays in `env` even then. */
  function SetHeader(f: Pending, k: string, v: string): (r: (Pending, bool, Option<Error>))
    ensures r.0.env == f.env[k := v] && r.0.data == f.data && r.0.ready == f.ready
    ensures r.1 <==> k == "data" && r.2.None?
    ensures r.2.Some? <==>
              ((k == "data" && Text.ParseInt(v).None?) || (k == "display-name" && Text.SplitDisplayName(v).None?))
    ensures r.0.fileSize == if r.1 then Text.ParseInt(v) else f.fileSize
    ensures r.0.display == if k == "display-name" && r.2.None? then Text.SplitDisplayName(v) else f.display
  {
    var g := f.(env := f.env[k := v]);
    if k == "data" then
      match Text.ParseInt(v)
      case None => (g, false, Some(NotAnInteger))
      case Some(n) => (g.(fileSize := Some(n)), true, None)
    else if k == "display-name" then
      match Text.SplitDisplayName(v)
      case None => (g, false, Some(TooManyColons))
      case Some(dn) => (g.(display := Some(dn)), false, None)
    else (g, false, None)
  }

  /** `parse_input(line)` up to the point where it would call `File.open`. */
  function Step(p: Parser, line: Bytes): (r: Reaction)
    ensures r.started <==> IsOpenLine(line)
    ensures r.started ==> r == Reaction(Parser(Some(Fresh), p.parsing), true, false, None)
    ensures !r.started && !p.parsing && p.file.None? ==> r == Reaction(p, false, false, None)
    ensures r.complete ==> p.parsing && r.raised.None? && r.parser.parsing && r.parser.file.Some?
                           && r.parser.file.value.ready
    ensures r.parser.file.None? ==> p.file.None?
    ensures r.raised.Some? ==> !r.started && !r.complete
  {
    if IsOpenLine(line) then Reaction(Parser(Some(Fresh), p.parsing), true, false, None)
    else if p.parsing then PayloadStep(p.file, line)
    else
      match p.file
      case None => Reaction(p, false, false, None)
      case Some(f) => HeaderStep(f, line)
  }

  /** A line that is not `open`, read in payload mode: it goes to `File.append`,
      which raises when no transfer was started. */
  function PayloadStep(file: Option<Pending>, line: Bytes): (r: Reaction)
    ensures r.parser.parsing && !r.started
    ensures r.parser.file.None? <==> file.None?
    ensures r.complete ==> r.raised.None? && r.parser.file.Some? && r.parser.file.value.ready
    ensures file.None? ==> r.raised == Some(MissingAttribute("append")) && !r.complete
    ensures file.Some? ==>
              var a := AppendLine(file.value, line);
              && r.parser.file == Some(a.state) && r.raised == a.raised
              && (r.complete <==> a.raised.None? && a.state.ready)
  {
    match file
    case None => Reaction(Parser(None, true), false, false, Some(MissingAttribute("append")))
    case Some(f) =>
      var a := AppendLine(f, line);
      Reaction(Parser(Some(a.state), true), false, a.Ok() && a.state.ready, a.raised)
  }

  /** A line that is not `open`, read in header mode for the transfer `f`: it is
      decoded and stripped, and a `k: v` line goes to `SetHeader`; any other line
      is ignored. */
  function HeaderStep(f: Pending, line: Bytes): (r: Reaction)
    ensures !r.started && !r.complete && r.parser.file.Some?
    ensures Utf8.Decode(line).None? ==> r == Reaction(Parser(Some(f), false), false, false, Some(UndecodableHeader))
  {
    match Utf8.Decode(line)
    case None => Reaction(Parser(Some(f), false), false, false, Some(UndecodableHeader))
    case Some(text) =>
      match Text.SplitHeader(Text.Strip(text))
      case None => Reaction(Parser(Some(f), false), false, false, None)
      case Some((k, v)) =>
        var (g, payload, raised) := SetHeader(f, k, v);
        Reaction(Parser(Some(g), payload), false, false, raised)
  }

  /** The state a step leaves once the session has acted on it: after a completed
      payload and a successful `File.open` the session drops the transfer and
      leaves payload mode (remote_subl.py:163-165). */
  function Settle(r: Reaction): Parser {
    if r.complete then Parser(None, false) else r.parser
  }

  /** What the parser keeps true between lines: payload mode always has a
      transfer; a transfer in header mode has no payload yet; a transfer in
      payload mode is not ready and holds fewer bytes than its size, if any. */
  predicate Inv(p: Parser) {
    && (p.parsing ==> p.file.Some?)
    && (p.file.Some? ==>
          var f := p.file.value;
          && !f.ready
          && (!p.parsing ==> f.data == [])
          && (p.parsing && f.data != [] ==> f.fileSize.Some? && |f.data| < f.fileSize.value))
  }

  lemma InitialInv()
    ensures Inv(Initial)
  {
  }

  /** Every step that does not raise keeps the invariant, and a payload is
      completed at most once: the step that completes it starts from a transfer
      that was not ready. */
  lemma StepKeepsInv(p: Parser, line: Bytes)
    requires Inv(p)
    ensures var r := Step(p, line);
            && (r.raised.None? ==> Inv(Settle(r)))
            && (r.complete ==> !p.file.value.ready)
  {
    var r := Step(p, line);
    if !r.started && p.parsing && p.file.value.fileSize.Some? {
      var f := p.file.value;
      var size := f.fileSize.value;
      var b := Payload.Append(Payload.Buffer(f.data, f.ready), size, line);
      if !b.ready {
        assert |f.data| < size && |f.data| + |line| < size;
      }
    }
  }

  /** The `open`-in-payload quirk: an `open` line does not reset payload mode,
      so the next line goes to `append` on a transfer with no `file_size`, and
      that raises. */
  lemma OpenDuringPayload(f: Pending, open: Bytes, line: Bytes)
    requires IsOpenLine(open) && !IsOpenLine(line)
    ensures var r := Step(Parser(Some(f), true), open);
            && r.parser == Parser(Some(Fresh), true)
            && Step(r.parser, line) == Reaction(Parser(Some(Fresh), true), false, false, Some(MissingAttribute("file_size")))
  {
  }

  /** In payload mode each line goes to `append`, and the line completes the
      payload exactly when `append` sets `ready`. */
  lemma StepPayload(f: Pending, size: int, line: Bytes)
    requires f.fileSize == Some(size) && !IsOpenLine(line)
    ensures var r := Step(Parser(Some(f), true), line);
            var b := Payload.Append(Payload.Buffer(f.data, f.ready), size, line);
            && r.raised.None? && r.parser.parsing
            && r.parser.file == Some(f.(data := b.data, ready := b.ready))
            && (r.complete <==> b.ready)
  {
  }

  // ---- header lines as the remote side writes them ----

  /** No white space at either end. */
  predicate Trimmed(s: string) {
    s == [] || (!Text.IsSpace(s[0]) && !Text.IsSpace(s[|s| - 1]))
  }

  /** The text of a header line `k: v`. */
  function HeaderText(k: string, v: string): string {
    k + ": " + v + "\n"
  }

  /** The bytes of a header line `k: v`. */
  function HeaderLine(k: string, v: string): Bytes {
    Utf8.Encode(HeaderText(k, v))
  }

  /** A header line decodes, is not an `open` line, and splits back into its key
      and value. */
  lemma HeaderLineReads(k: string, v: string)
    requires ':' !in k && Trimmed(k) && Trimmed(v)
    ensures !IsOpenLine(HeaderLine(k, v))
    ensures Utf8.Decode(HeaderLine(k, v)) == Some(HeaderText(k, v))
    ensures Text.SplitHeader(Text.Strip(HeaderText(k, v))) == Some((k, v))
  {
    var text := HeaderText(k, v);
    Utf8.DecodeEncode(text);
    HeaderLineHasColon(k, v);
    HeaderTextStrip(k, v);
  }

  lemma HeaderLineHasColon(k: string, v: string)
    ensures !IsOpenLine(HeaderLine(k, v))
  {
    HeaderLineColon(k, v);
    ColonNotOpen(HeaderLine(k, v), |Utf8.Encode(k)|);
  }

  /** A line holding a colon is not an `open` line. */
  lemma ColonNotOpen(line: Bytes, i: nat)
    requires i < |line| && line[i] == 58
    ensures !IsOpenLine(line)
  {
    Trim.StripKeeps(line, IsSpaceByte, i);
    assert 58 !in OPEN;
  }

  /** The byte after the key's encoding is the colon. */
  lemma HeaderLineColon(k: string, v: string)
    ensures var i := |Utf8.Encode(k)|; i < |HeaderLine(k, v)| && HeaderLine(k, v)[i] == 58
  {
    var x := ": " + v + "\n";
    assert HeaderText(k, v) == k + x;
    EncodedColon(k, x);
  }

  lemma EncodedColon(k: string, x: string)
    requires x != [] && x[0] == ':'
    ensures var i := |Utf8.Encode(k)|; i < |Utf8.Encode(k + x)| && Utf8.Encode(k + x)[i] == 58
  {
    Utf8.EncodeConcat(k, x);
    var e, ex := Utf8.Encode(k), Utf8.Encode(x);
    assert ex == Utf8.EncodeChar(':') + Utf8.Encode(x[1..]);
    assert (e + ex)[|e|] == ex[0];
  }

  lemma HeaderTextParts(k: string, v: string)
    ensures HeaderText(k, v) == ((k + ":") + (" " + v)) + ['\n']
    ensures (k + ":") + (" " + v) == ((k + ":") + [' ']) + v
    ensures v != [] ==> var body := (k + ":") + (" " + v); body[|body| - 1] == v[|v| - 1]
    ensures v == [] ==> (k + ":") + (" " + v) == (k + ":") + [' ']
    ensures k + ":" == k + ":" + "" && (k + ":")[|k|] == ':'
  {
  }

  lemma HeaderTextStrip(k: string, v: string)
    requires ':' !in k && Trimmed(k) && Trimmed(v)
    ensures Text.SplitHeader(Text.Strip(HeaderText(k, v))) == Some((k, v))
  {
    var body := (k + ":") + (" " + v);
    HeaderTextParts(k, v);
    HeaderTextTrimLeft(k, v);
    Trim.TrimRightSnoc(body, '\n', Text.IsSpace);
    Trim.StripTrimmed(k, Text.IsSpace);
    Trim.StripTrimmed(v, Text.IsSpace);
    if v == [] {
      HeaderTextEmptyValue(k);
    } else {
      HeaderTextValue(k, v);
    }
  }

  lemma HeaderTextTrimLeft(k: string, v: string)
    requires Trimmed(k)
    ensures Trim.TrimLeft(HeaderText(k, v), Text.IsSpace) == HeaderText(k, v)
  {
    var text := HeaderText(k, v);
    assert !Text.IsSpace(text[0]) by {
      if k == [] { assert text[0] == ':'; } else { assert text[0] == k[0]; }
    }
  }

  lemma HeaderTextEmptyValue(k: string)
    requires ':' !in k && Trimmed(k)
    ensures Text.SplitHeader(Trim.TrimRight((k + ":") + [' '], Text.IsSpace)) == Some((k, ""))
  {
    HeaderTextParts(k, "");
    Trim.TrimRightSnoc(k + ":", ' ', Text.IsSpace);
    assert Trim.TrimRight(k + ":", Text.IsSpace) == k + ":";
    Text.SplitHeaderJoin(k, "");
    Trim.StripTrimmed(k, Text.IsSpace);
  }

  lemma HeaderTextValue(k: string, v: string)
    requires ':' !in k && Trimmed(k) && Trimmed(v) && v != []
    ensures Text.SplitHeader(Trim.TrimRight((k + ":") + (" " + v), Text.IsSpace)) == Some((k, v))
  {
    HeaderTextParts(k, v);
    var body := (k + ":") + (" " + v);
    assert Trim.TrimRight(body, Text.IsSpace) == body;
    Text.SplitHeaderJoin(k, " " + v);
    Trim.TrimLeftCons(' ', v, Text.IsSpace);
    Trim.StripTrimmed(k, Text.IsSpace);
    Trim.StripTrimmed(v, Text.IsSpace);
  }

  /** A header line in header mode: the key and value go into `env`, every other
      key is left alone, and the header's own effect follows. */
  lemma StepHeaderLine(f: Pending, k: string, v: string)
    requires ':' !in k && Trimmed(k) && Trimmed(v)
    ensures var r := Step(Parser(Some(f), false), HeaderLine(k, v));
            var (g, payload, raised) := SetHeader(f, k, v);
            r == Reaction(Parser(Some(g), payload), false, false, raised)
  {
    HeaderLineReads(k, v);
  }

  /** Any line holding a colon, in header mode: whatever white space surrounds the
      key and the value, both are stripped before `SetHeader` sees them, and the
      value keeps every later colon. */
  lemma StepHeaderAny(f: Pending, k: string, v: string)
    requires ':' !in k
    ensures var r := Step(Parser(Some(f), false), Utf8.Encode(k + ":" + v));
            var h := SetHeader(f, Text.Strip(k), Text.Strip(v));
            r == Reaction(Parser(Some(h.0), h.1), false, false, h.2)
  {
    var line := Utf8.Encode(k + ":" + v);
    EncodedColon(k, ":" + v);
    assert k + (":" + v) == k + ":" + v;
    ColonNotOpen(line, |Utf8.Encode(k)|);
    Utf8.DecodeEncode(k + ":" + v);
    HeaderSplit(k, v);
  }

  /** The decoded header line, stripped and split, gives the stripped key and value. */
  lemma HeaderSplit(k: string, v: string)
    requires ':' !in k
    ensures Text.SplitHeader(Text.Strip(k + ":" + v)) == Some((Text.Strip(k), Text.Strip(v)))
  {
    var l, r := Trim.TrimLeft(k, Text.IsSpace), Trim.TrimRight(v, Text.IsSpace);
    StripColon(k, v);
    TrimLeftNoColon(k);
    Trim.StripTrimLeft(k, Text.IsSpace);
    Trim.StripTrimRight(v, Text.IsSpace);
    SplitStripped(k + ":" + v, l, r, k, v);
  }

  lemma StripColon(k: string, v: string)
    ensures Text.Strip(k + ":" + v)
            == Trim.TrimLeft(k, Text.IsSpace) + ":" + Trim.TrimRight(v, Text.IsSpace)
  {
    assert k + ":" + v == k + [':'] + v;
    Trim.StripAround(k, ':', v, Text.IsSpace);
  }

  lemma TrimLeftNoColon(k: string)
    requires ':' !in k
    ensures ':' !in Trim.TrimLeft(k, Text.IsSpace)
  {
    var l := Trim.TrimLeft(k, Text.IsSpace);
    if ':' in l {
      SuffixHas(k, l, ':');
    }
  }

  lemma SuffixHas(k: string, l: string, c: char)
    requires |l| <= |k| && l == k[|k| - |l|..] && c in l
    ensures c in k
  {
    var i :| 0 <= i < |l| && l[i] == c;
    assert k[|k| - |l| + i] == c;
  }

  lemma SplitStripped(text: string, l: string, r: string, k: string, v: string)
    requires Text.Strip(text) == l + ":" + r && ':' !in l
    requires Text.Strip(l) == Text.Strip(k) && Text.Strip(r) == Text.Strip(v)
    ensures Text.SplitHeader(Text.Strip(text)) == Some((Text.Strip(k), Text.Strip(v)))
  {
    Text.SplitHeaderJoin(l, r);
  }

  /** `data: <n>` in header mode sets `file_size` to n and switches to payload mode. */
  lemma StepDataHeader(f: Pending, n: nat)
    ensures var r := Step(Parser(Some(f), false), HeaderLine("data", Text.DecimalString(n)));
            && r.raised.None? && r.parser.parsing
            && r.parser.file == Some(f.(env := f.env["data" := Text.DecimalString(n)], fileSize := Some(n)))
  {
    var s := Text.DecimalString(n);
    assert Trimmed(s) by {
      assert !Text.IsSpace(s[0]) && !Text.IsSpace(s[|s| - 1]);
    }
    Text.ParseDecimalString(n);
    StepHeaderLine(f, "data", s);
  }

  /** A `display-name` header in header mode: with one colon the value splits
      into host and base name, with none there is no host and the base name is
      the value, and with two or more the unpacking raises. The header is in
      `env` in every case. */
  lemma StepDisplayHeader(f: Pending, v: string)
    requires Trimmed(v)
    ensures var r := Step(Parser(Some(f), false), HeaderLine("display-name", v));
            && r.parser.file.value.env == f.env["display-name" := v]
            && (r.raised.Some? <==> Text.ColonCount(v) >= 2)
            && (r.raised.Some? ==> r.raised == Some(TooManyColons))
            && (Text.ColonCount(v) == 0 ==> r.parser.file.value.display == Some(Text.DisplayName(None, v)))
            && (Text.ColonCount(v) == 1 ==>
                  r.parser.file.value.display.Some? &&
                  var d := r.parser.file.value.display.value;
                  d.host.Some? && v == d.host.value + ":" + d.baseName
                  && ':' !in d.host.value && ':' !in d.baseName)
  {
    var k := "display-name";
    assert ':' !in k;
    assert k != "data" by { assert |k| != |"data"|; }
    StepHeaderLine(f, k, v);
    var t := SetHeader(f, k, v);
    var r := Step(Parser(Some(f), false), HeaderLine(k, v));
    assert r.parser.file == Some(t.0) && r.raised == t.2;
    var sd := Text.SplitDisplayName(v);
    assert t.2.Some? <==> sd.None?;
    assert t.2.None? ==> t.0.display == sd;
  }

  /** In header mode, a line whose decoded, stripped text has no colon is not a
      setting and changes nothing. */
  lemma StepNoColon(f: Pending, line: Bytes)
    requires !IsOpenLine(line) && Utf8.Decode(line).Some? && ':' !in Text.Strip(Utf8.Decode(line).value)
    ensures Step(Parser(Some(f), false), line) == Reaction(Parser(Some(f), false), false, false, None)
  {
  }
}
