/** Python `bytes` values and the operations on them that the protocol uses. */
module Bytes {

  newtype byte = b: int | 0 <= b < 256

  type Bytes = seq<byte>

  /** The line feed that ends every protocol line. */
  const LF: byte := 10

  /** `bytes.isspace()` for one byte: space, tab, line feed, vertical tab, form feed, carriage return. */
  predicate IsSpaceByte(b: byte) {
    b == 32 || 9 <= b <= 13
  }

  /** All the bytes of a sequence of chunks, in order. */
  function Flatten(chunks: seq<Bytes>): (r: Bytes)
    ensures |r| == TotalLength(chunks)
  {
    if chunks == [] then [] else chunks[0] + Flatten(chunks[1..])
  }

  function TotalLength(chunks: seq<Bytes>): nat {
    if chunks == [] then 0 else |chunks[0]| + TotalLength(chunks[1..])
  }

  lemma {:induction false} FlattenAppend(chunks: seq<Bytes>, c: Bytes)
    ensures Flatten(chunks + [c]) == Flatten(chunks) + c
  {
    if chunks == [] {
      assert [] + [c] == [c];
    } else {
      assert (chunks + [c])[1..] == chunks[1..] + [c];
      FlattenAppend(chunks[1..], c);
    }
  }

  /** The position of the first line feed of `s`, or |s| when it has none. */
  function LineEnd(s: Bytes): (n: nat)
    ensures n <= |s|
    ensures LF !in s[..n]
    ensures n < |s| ==> s[n] == LF
  {
    if s == [] || s[0] == LF then 0 else 1 + LineEnd(s[1..])
  }

  lemma {:induction false} LineEndAfter(a: Bytes, b: Bytes)
    requires LF !in a
    ensures LineEnd(a + [LF] + b) == |a|
  {
    if a != [] {
      assert (a + [LF] + b)[1..] == a[1..] + [LF] + b;
      LineEndAfter(a[1..], b);
    }
  }

  /** The lines `readline()` returns, one after another, on a stream holding exactly
      `s`: each ends just after a line feed, except a last one cut short by the end of
      the stream. The empty read that signals the end is not part of the list. */
  function ReadLines(s: Bytes): (lines: seq<Bytes>)
    ensures Flatten(lines) == s
    ensures forall i :: 0 <= i < |lines| ==> lines[i] != [] && LF !in lines[i][..|lines[i]| - 1]
    ensures forall i :: 0 <= i < |lines| - 1 ==> lines[i][|lines[i]| - 1] == LF
    decreases |s|
  {
    if s == [] then []
    else
      var n := LineEnd(s);
      if n == |s| then
        assert [s][1..] == [];
        [s]
      else
        var rest := ReadLines(s[n + 1..]);
        var lines := [s[..n + 1]] + rest;
        assert lines[1..] == rest;
        assert s[..n + 1][..n] == s[..n];
        lines
  }
}

/** Trimming a sequence at both ends, as Python's `strip()` does for its notion of
    white space. */
module Trim {

  function TrimLeft<T>(s: seq<T>, ws: T -> bool): (r: seq<T>)
    ensures |r| <= |s| && r == s[|s| - |r|..]
    ensures forall i :: 0 <= i < |s| - |r| ==> ws(s[i])
    ensures r == [] || !ws(r[0])
  {
    if s != [] && ws(s[0]) then TrimLeft(s[1..], ws) else s
  }

  function TrimRight<T>(s: seq<T>, ws: T -> bool): (r: seq<T>)
    ensures |r| <= |s| && r == s[..|r|]
    ensures forall i :: |r| <= i < |s| ==> ws(s[i])
    ensures r == [] || !ws(r[|r| - 1])
  {
    if s != [] && ws(s[|s| - 1]) then TrimRight(s[..|s| - 1], ws) else s
  }

  /** `strip()`: the longest middle part of `s` that neither starts nor ends with white
      space; everything dropped on either side is white space. */
  function Strip<T>(s: seq<T>, ws: T -> bool): (r: seq<T>)
    ensures |r| <= |s|
    ensures r == [] || (!ws(r[0]) && !ws(r[|r| - 1]))
    ensures var i := |s| - |TrimLeft(s, ws)|;
            && i + |r| <= |s| && r == s[i..i + |r|]
            && (forall j :: 0 <= j < i ==> ws(s[j]))
            && (forall j :: i + |r| <= j < |s| ==> ws(s[j]))
  {
    TrimBoth(s, ws);
    TrimRight(TrimLeft(s, ws), ws)
  }

  lemma TrimBoth<T>(s: seq<T>, ws: T -> bool)
    ensures var l := TrimLeft(s, ws);
            var r := TrimRight(l, ws);
            var i := |s| - |l|;
            && i + |r| <= |s| && r == s[i..i + |r|]
            && (forall j :: i + |r| <= j < |s| ==> ws(s[j]))
  {
    var l := TrimLeft(s, ws);
    var r := TrimRight(l, ws);
    var i := |s| - |l|;
    SuffixPrefix(s, l, r, i, ws);
  }

  /** A prefix `r` of the suffix `l` of `s` that starts at `i` is the slice of `s`
      from `i`, and what follows `r` in `l` follows it in `s`. */
  lemma SuffixPrefix<T>(s: seq<T>, l: seq<T>, r: seq<T>, i: nat, ws: T -> bool)
    requires i <= |s| && l == s[i..] && |r| <= |l| && r == l[..|r|]
    requires forall k :: |r| <= k < |l| ==> ws(l[k])
    ensures i + |r| <= |s| && r == s[i..i + |r|]
    ensures forall j :: i + |r| <= j < |s| ==> ws(s[j])
  {
    forall j | i + |r| <= j < |s| ensures ws(s[j]) {
      assert s[j] == l[j - i];
    }
  }

  /** `strip()` is determined by what it keeps: when `s` is white space, then a
      part that neither starts nor ends with white space, then white space, the
      strip is that middle part. */
  lemma StripUnique<T>(s: seq<T>, ws: T -> bool, a: seq<T>, m: seq<T>, b: seq<T>)
    requires s == a + m + b
    requires forall j :: 0 <= j < |a| ==> ws(a[j])
    requires forall j :: 0 <= j < |b| ==> ws(b[j])
    requires m == [] || (!ws(m[0]) && !ws(m[|m| - 1]))
    ensures Strip(s, ws) == m
  {
    var r := Strip(s, ws);
    var i := |s| - |TrimLeft(s, ws)|;
    var e := i + |r|;
    if m != [] {
      var lo, hi := |a|, |a| + |m| - 1;
      assert s[lo] == m[0] && s[hi] == m[|m| - 1];
      assert lo >= i && hi < e;
      assert s[i] == r[0] && s[e - 1] == r[|r| - 1];
      assert r == s[lo..hi + 1] == m;
    }
  }

  /** Around an element that is not white space, `strip()` trims only the left
      end of what comes before it and the right end of what comes after it. */
  lemma StripAround<T>(k: seq<T>, c: T, v: seq<T>, ws: T -> bool)
    requires !ws(c)
    ensures Strip(k + [c] + v, ws) == TrimLeft(k, ws) + [c] + TrimRight(v, ws)
  {
    var l, r := TrimLeft(k, ws), TrimRight(v, ws);
    var a, b := k[..|k| - |l|], v[|r|..];
    var m := l + [c] + r;
    forall j | 0 <= j < |a| ensures ws(a[j]) {
      assert a[j] == k[j];
    }
    forall j | 0 <= j < |b| ensures ws(b[j]) {
      assert b[j] == v[|r| + j];
    }
    Split(k, |k| - |l|);
    Split(v, |r|);
    Regroup(a, l, [c], r, b);
    StripUnique(k + [c] + v, ws, a, m, b);
  }

  lemma Split<T>(s: seq<T>, n: nat)
    requires n <= |s|
    ensures s == s[..n] + s[n..]
  {
  }

  lemma Regroup<T>(a: seq<T>, l: seq<T>, c: seq<T>, r: seq<T>, b: seq<T>)
    ensures (a + l) + c + (r + b) == a + (l + c + r) + b
  {
  }

  /** Trimming the left end first does not change the strip. */
  lemma StripTrimLeft<T>(s: seq<T>, ws: T -> bool)
    ensures Strip(TrimLeft(s, ws), ws) == Strip(s, ws)
  {
    var l := TrimLeft(s, ws);
    assert TrimLeft(l, ws) == l;
  }

  /** Trimming the right end first does not change the strip. */
  lemma StripTrimRight<T>(s: seq<T>, ws: T -> bool)
    ensures Strip(TrimRight(s, ws), ws) == Strip(s, ws)
  {
    StripWhiteSuffix(s, TrimRight(s, ws), ws);
  }

  /** Dropping white space from the right end does not change the strip. */
  lemma StripWhiteSuffix<T>(s: seq<T>, r: seq<T>, ws: T -> bool)
    requires |r| <= |s| && r == s[..|r|]
    requires forall j :: |r| <= j < |s| ==> ws(s[j])
    ensures Strip(r, ws) == Strip(s, ws)
  {
    var m := Strip(r, ws);
    var i := |r| - |TrimLeft(r, ws)|;
    WhiteSuffixParts(s, r, m, i, ws);
  }

  lemma WhiteSuffixParts<T>(s: seq<T>, r: seq<T>, m: seq<T>, i: nat, ws: T -> bool)
    requires i + |m| <= |r| <= |s| && r == s[..|r|] && m == r[i..i + |m|]
    requires forall j :: 0 <= j < i ==> ws(r[j])
    requires forall j :: i + |m| <= j < |r| ==> ws(r[j])
    requires forall j :: |r| <= j < |s| ==> ws(s[j])
    requires m == [] || (!ws(m[0]) && !ws(m[|m| - 1]))
    ensures Strip(s, ws) == m
  {
    var a, b := s[..i], s[i + |m|..];
    forall j | 0 <= j < |a| ensures ws(a[j]) {
      assert a[j] == r[j];
    }
    forall j | 0 <= j < |b| ensures ws(b[j]) {
      if i + |m| + j < |r| {
        assert b[j] == r[i + |m| + j];
      } else {
        assert b[j] == s[i + |m| + j];
      }
    }
    assert m == s[i..i + |m|];
    Split3(s, i, i + |m|);
    StripUnique(s, ws, a, m, b);
  }

  lemma Split3<T>(s: seq<T>, x: nat, y: nat)
    requires x <= y <= |s|
    ensures s == s[..x] + s[x..y] + s[y..]
  {
    assert s == s[..x] + s[x..];
    assert s[x..] == s[x..y] + s[y..];
  }

  /** Stripping keeps every element that is not white space. */
  lemma StripKeeps<T>(s: seq<T>, ws: T -> bool, i: nat)
    requires i < |s| && !ws(s[i])
    ensures s[i] in Strip(s, ws)
  {
    var l := TrimLeft(s, ws);
    var j := i - (|s| - |l|);
    assert 0 <= j < |l| && l[j] == s[i];
    var r := TrimRight(l, ws);
    assert j < |r| && r[j] == s[i];
  }

  /** A sequence that neither starts nor ends with white space is its own strip. */
  lemma StripTrimmed<T>(s: seq<T>, ws: T -> bool)
    requires s == [] || (!ws(s[0]) && !ws(s[|s| - 1]))
    ensures Strip(s, ws) == s
  {
  }

  /** White space at the front is dropped by the left trim. */
  lemma TrimLeftCons<T>(c: T, s: seq<T>, ws: T -> bool)
    requires ws(c)
    ensures TrimLeft([c] + s, ws) == TrimLeft(s, ws)
  {
    assert ([c] + s)[1..] == s;
  }

  /** White space at the end is dropped by the right trim. */
  lemma TrimRightSnoc<T>(s: seq<T>, c: T, ws: T -> bool)
    requires ws(c)
    ensures TrimRight(s + [c], ws) == TrimRight(s, ws)
  {
    assert (s + [c])[..|s|] == s;
  }
}
