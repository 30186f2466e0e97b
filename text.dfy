/** The Python `str` operations that parse header lines (remote_subl.py:172-190):
    `strip()`, the split of `key: value` at the first colon, the split of a
    `display-name` into host and base name, and `int()`. */
module Text {
  import opened Common
  import Trim

  /** `str.isspace()` for one character (Unicode 6.3 and later, as in Python 3.4+). */
  predicate IsSpace(c: char) {
    var n := c as int;
    n == 0x20 || 0x09 <= n <= 0x0D || 0x1C <= n <= 0x1F || n == 0x85 || n == 0xA0
    || n == 0x1680 || 0x2000 <= n <= 0x200A || n == 0x2028 || n == 0x2029
    || n == 0x202F || n == 0x205F || n == 0x3000
  }

  function Strip(s: string): (r: string)
    ensures |r| <= |s|
    ensures r == [] || (!IsSpace(r[0]) && !IsSpace(r[|r| - 1]))
  {
    Trim.Strip(s, IsSpace)
  }

  /** The position of the first colon of `s`, or |s| when there is none. */
  function FirstColon(s: string): (i: nat)
    ensures i <= |s| && ':' !in s[..i]
    ensures i < |s| ==> s[i] == ':'
    ensures ':' in s <==> i < |s|
  {
    if s == [] || s[0] == ':' then 0 else 1 + FirstColon(s[1..])
  }

  lemma FirstColonAfter(a: string, b: string)
    requires ':' !in a
    ensures FirstColon(a + ":" + b) == |a|
  {
    var s := a + ":" + b;
    assert s[|a|] == ':';
  }

  // ---- header lines (remote_subl.py:173-180) ----

  /** A decoded, stripped header line split as `k, v = line.split(":", 1)` followed by
      `k.strip()` and `v.strip()`; None when the line has no colon and is ignored. */
  function SplitHeader(line: string): (r: Option<(string, string)>)
    ensures r.None? <==> ':' !in line
    ensures r.Some? ==> ':' !in r.value.0
  {
    var i := FirstColon(line);
    if i == |line| then None
    else
      var k := Strip(line[..i]);
      assert ':' !in k by { assert forall c :: c in k ==> c in line[..i]; }
      Some((k, Strip(line[i + 1..])))
  }

  /** A line built as key, colon, value splits back into the stripped key and the
      stripped value, whatever colons the value holds. */
  lemma SplitHeaderJoin(k: string, v: string)
    requires ':' !in k
    ensures SplitHeader(k + ":" + v) == Some((Strip(k), Strip(v)))
  {
    var line := k + ":" + v;
    FirstColonAfter(k, v);
    assert line[..|k|] == k && line[|k| + 1..] == v;
  }

  // ---- display-name (remote_subl.py:185-190) ----

  /** `host` is None when the display name carries no host part. */
  datatype DisplayName = DisplayName(host: Option<string>, baseName: string)

  function ColonCount(s: string): nat {
    if s == [] then 0 else (if s[0] == ':' then 1 else 0) + ColonCount(s[1..])
  }

  lemma {:induction false} ColonCountZero(s: string)
    ensures ColonCount(s) == 0 <==> ':' !in s
  {
    if s != [] {
      ColonCountZero(s[1..]);
      assert s == [s[0]] + s[1..];
    }
  }

  lemma {:induction false} ColonCountConcat(a: string, b: string)
    ensures ColonCount(a + b) == ColonCount(a) + ColonCount(b)
  {
    if a == [] {
      assert a + b == b;
    } else {
      assert (a + b)[1..] == a[1..] + b;
      ColonCountConcat(a[1..], b);
    }
  }

  /** The display name split into host and base name: one colon gives both halves,
      no colon gives no host, and two or more colons make Python's two-name
      unpacking of `v.split(":")` raise (None here). */
  function SplitDisplayName(v: string): (r: Option<DisplayName>)
    ensures r.None? <==> ColonCount(v) >= 2
    ensures r.Some? && r.value.host.None? <==> ColonCount(v) == 0
    ensures r.Some? ==> ':' !in r.value.baseName
    ensures r.Some? && r.value.host.Some? ==>
              ':' !in r.value.host.value && v == r.value.host.value + ":" + r.value.baseName
    ensures r.Some? && r.value.host.None? ==> r.value.baseName == v
  {
    var i := FirstColon(v);
    ColonCountZero(v);
    if i == |v| then Some(DisplayName(None, v))
    else
      var host, rest := v[..i], v[i + 1..];
      assert v == host + [':'] + rest;
      ColonCountJoin(host, rest);
      ColonCountZero(rest);
      if ':' in rest then None else Some(DisplayName(Some(host), rest))
  }

  /** A colon after a colon-free part counts once. */
  lemma ColonCountJoin(host: string, rest: string)
    requires ':' !in host
    ensures ColonCount(host + [':'] + rest) == 1 + ColonCount(rest)
  {
    var tail := [':'] + rest;
    assert host + [':'] + rest == host + tail;
    assert ColonCount(host) == 0 by {
      ColonCountZero(host);
    }
    assert ColonCount(tail) == 1 + ColonCount(rest) by {
      assert tail[0] == ':' && tail[1..] == rest;
    }
    ColonCountConcat(host, tail);
  }

  /** `"h:f.txt"` gives host `h` and base name `f.txt`; `"f.txt"` gives no host. */
  lemma DisplayNameExamples()
    ensures SplitDisplayName("host1:foo.txt") == Some(DisplayName(Some("host1"), "foo.txt"))
    ensures SplitDisplayName("foo.txt") == Some(DisplayName(None, "foo.txt"))
  {
    JoinDisplayName("host1", "foo.txt");
    assert "host1" + ":" + "foo.txt" == "host1:foo.txt";
    ColonCountZero("foo.txt");
  }

  /** Host and base name without colons, joined by one colon, split back apart. */
  lemma JoinDisplayName(host: string, baseName: string)
    requires ':' !in host && ':' !in baseName
    ensures SplitDisplayName(host + ":" + baseName) == Some(DisplayName(Some(host), baseName))
  {
    var v := host + ":" + baseName;
    FirstColonAfter(host, baseName);
    assert v[..|host|] == host && v[|host| + 1..] == baseName;
  }

  // ---- int() on the value of a `data` header (remote_subl.py:183) ----

  predicate IsDigit(c: char) {
    '0' <= c <= '9'
  }

  predicate DigitChars(s: string) {
    forall i :: 0 <= i < |s| ==> IsDigit(s[i]) || s[i] == '_'
  }

  /** Decimal digits, with single underscores allowed between two digits (PEP 515). */
  predicate IsDigitGroup(s: string) {
    && |s| > 0 && IsDigit(s[0]) && IsDigit(s[|s| - 1]) && DigitChars(s)
    && forall i :: 0 <= i < |s| - 1 && s[i] == '_' ==> IsDigit(s[i + 1])
  }

  /** The value of a run of digits, underscores skipped. */
  function DigitsValue(s: string): nat
    requires DigitChars(s)
  {
    if s == [] then 0
    else
      var init, last := s[..|s| - 1], s[|s| - 1];
      assert DigitChars(init) by {
        forall i | 0 <= i < |init| ensures IsDigit(init[i]) || init[i] == '_' { assert init[i] == s[i]; }
      }
      assert IsDigit(last) || last == '_';
      if last == '_' then DigitsValue(init)
      else DigitsValue(init) * 10 + (last as int - '0' as int)
  }

  /** Python's `int(v)` on a stripped string: an optional sign followed by a digit
      group; None stands for the ValueError it raises otherwise. */
  function ParseInt(s: string): (r: Option<int>)
    ensures r.Some? ==> s != [] && (r.value < 0 ==> s[0] == '-')
    ensures r.Some? ==> forall i :: 0 <= i < |s| ==>
              IsDigit(s[i]) || s[i] == '_' || (i == 0 && (s[i] == '+' || s[i] == '-'))
    ensures r.None? <==> !(IsDigitGroup(s) || (s != [] && (s[0] == '+' || s[0] == '-') && IsDigitGroup(s[1..])))
  {
    if s != [] && (s[0] == '+' || s[0] == '-') then
      var digits := s[1..];
      if IsDigitGroup(digits) then
        Some(if s[0] == '-' then -(DigitsValue(digits) as int) else DigitsValue(digits))
      else None
    else if IsDigitGroup(s) then Some(DigitsValue(s))
    else None
  }

  /** An accepted value is the value of its digits, negated after a `-`. */
  lemma ParseIntValue(s: string)
    requires ParseInt(s).Some?
    ensures s[0] == '-' || s[0] == '+' ==> DigitChars(s[1..]) && ParseInt(s).value == (if s[0] == '-' then -1 else 1) * DigitsValue(s[1..])
    ensures !(s[0] == '-' || s[0] == '+') ==> DigitChars(s) && ParseInt(s).value == DigitsValue(s)
  {
  }

  /** Underscores do not change the value of a run of digits. */
  lemma {:induction false} DigitsValueUnderscore(a: string, b: string)
    requires DigitChars(a) && DigitChars(b)
    ensures DigitChars(a + "_" + b) && DigitChars(a + b)
    ensures DigitsValue(a + "_" + b) == DigitsValue(a + b)
  {
    var x, y := a + "_" + b, a + b;
    assert DigitChars(x) by {
      forall i | 0 <= i < |x| ensures IsDigit(x[i]) || x[i] == '_' {
        if i > |a| { assert x[i] == b[i - |a| - 1]; }
      }
    }
    assert DigitChars(y) by {
      forall i | 0 <= i < |y| ensures IsDigit(y[i]) || y[i] == '_' {
        if i >= |a| { assert y[i] == b[i - |a|]; }
      }
    }
    if b == [] {
      assert x[..|x| - 1] == a && y == a;
    } else {
      var b' := b[..|b| - 1];
      assert DigitChars(b') by {
        forall i | 0 <= i < |b'| ensures IsDigit(b'[i]) || b'[i] == '_' { assert b'[i] == b[i]; }
      }
      DigitsValueUnderscore(a, b');
      assert x[..|x| - 1] == a + "_" + b' && x[|x| - 1] == b[|b| - 1];
      assert y[..|y| - 1] == a + b' && y[|y| - 1] == b[|b| - 1];
    }
  }

  /** What `int()` makes of some header values. */
  lemma ParseIntExamples()
    ensures ParseInt("12") == Some(12)
    ensures ParseInt("-3") == Some(-3)
    ensures ParseInt("+7") == Some(7)
    ensures ParseInt("1_000") == Some(1000)
    ensures ParseInt("") == None && ParseInt("abc") == None && ParseInt("1.5") == None
    ensures ParseInt("1__0") == None && ParseInt("_1") == None && ParseInt("1_") == None
  {
    assert DigitsValue("12") == 12 by { assert "12"[..1] == "1"; }
    assert DigitsValue("3") == 3;
    assert DigitsValue("7") == 7;
    assert DigitsValue("1_000") == 1000 by {
      assert "1_000"[..4] == "1_00" && "1_00"[..3] == "1_0" && "1_0"[..2] == "1_" && "1_"[..1] == "1";
    }
    assert "-3"[1..] == "3" && "+7"[1..] == "7";
    assert !IsDigitGroup("1__0") by { assert "1__0"[1] == '_' && !IsDigit("1__0"[2]); }
    assert !IsDigitGroup("1.5") by { assert !DigitChars("1.5") by { assert "1.5"[1] == '.'; } }
    assert !IsDigitGroup("abc") by { assert !IsDigit("abc"[0]); }
  }

  /** `str(n)` for a natural number: its shortest decimal spelling. */
  function DecimalString(n: nat): (r: string)
    ensures r != [] && forall i :: 0 <= i < |r| ==> IsDigit(r[i])
    ensures r[0] == '0' ==> n == 0
  {
    if n < 10 then [('0' as int + n) as char]
    else DecimalString(n / 10) + [('0' as int + n % 10) as char]
  }

  lemma {:induction false} DecimalStringValue(n: nat)
    ensures DigitsValue(DecimalString(n)) == n
  {
    if n >= 10 {
      var s := DecimalString(n);
      assert s[..|s| - 1] == DecimalString(n / 10);
      DecimalStringValue(n / 10);
    }
  }

  /** `int(str(n)) == n`: the decimal length a save frame announces reads back as the
      same number. */
  lemma ParseDecimalString(n: nat)
    ensures ParseInt(DecimalString(n)) == Some(n)
    ensures ParseInt("-" + DecimalString(n)) == Some(-(n as int))
  {
    DecimalStringValue(n);
    var s := DecimalString(n);
    assert ("-" + s)[1..] == s;
  }
}
