/** How `File.append` (remote_subl.py:50-56) collects the payload of a transfer:
    whole lines are added while fewer bytes than the declared size are held, and
    the buffer is cut back to the declared size as soon as it reaches it. */
module Payload {
  import opened Bytes

  /** Python's slice `s[:n]`: a negative `n` counts from the end. */
  function Prefix(s: Bytes, n: int): (r: Bytes)
    ensures r <= s
    ensures 0 <= n <= |s| ==> |r| == n
    ensures n > |s| ==> r == s
    ensures n < 0 ==> |r| == if -n <= |s| then |s| + n else 0
  {
    if n >= 0 then (if n <= |s| then s[..n] else s)
    else if -n <= |s| then s[..|s| + n] else []
  }

  /** The payload collected so far, and whether `ready` is set. */
  datatype Buffer = Buffer(data: Bytes, ready: bool)

  /** `File.append(line)` with `file_size == size`. */
  function Append(b: Buffer, size: int, line: Bytes): (r: Buffer)
    ensures r.ready <==> b.ready || |b.data| >= size || |b.data| + |line| >= size
    ensures |b.data| < size && |b.data| + |line| < size ==> r.data == b.data + line
    ensures 0 <= |b.data| < size <= |b.data| + |line| ==> r.data == (b.data + line)[..size]
    ensures 0 <= size <= |b.data| ==> r.data == b.data[..size]
  {
    var grown := if |b.data| < size then b.data + line else b.data;
    if |grown| >= size then Buffer(Prefix(grown, size), true) else Buffer(grown, b.ready)
  }

  /** Once the buffer holds exactly the declared size, further lines change
      nothing: the data stays as it is and `ready` stays set. */
  lemma AppendAfterFull(b: Buffer, size: int, line: Bytes)
    requires |b.data| == size
    ensures Append(b, size, line) == Buffer(b.data, true)
  {
    assert b.data[..size] == b.data;
  }

  /** A size that is zero or negative makes the first payload line set `ready`
      with an empty payload; the line itself is dropped. */
  lemma AppendNonPositive(size: int, line: Bytes)
    requires size <= 0
    ensures Append(Buffer([], false), size, line) == Buffer([], true)
  {
  }

  /** The session feeds payload lines to `append` until `ready` is set (at which
      point it opens the file and stops collecting, remote_subl.py:160-166).
      Yields the buffer and how many lines were used. It covers payload lines
      none of which strips to `open`: the session takes such a line as a new
      `open` even in payload mode (remote_subl.py:155-158,
      `Parse.OpenDuringPayload`); every other payload line is one
      `Parse.StepPayload`, which is one `Append`. */
  function Feed(b: Buffer, size: int, lines: seq<Bytes>): (r: (Buffer, nat))
    ensures r.1 <= |lines|
    ensures lines != [] ==> r.1 >= 1
    ensures r.1 < |lines| ==> r.0.ready
    decreases |lines|
  {
    if lines == [] then (b, 0)
    else
      var b1 := Append(b, size, lines[0]);
      if b1.ready then (b1, 1)
      else
        var (b2, k) := Feed(b1, size, lines[1..]);
        (b2, k + 1)
  }

  /** Feeding lines to a buffer that is not yet full sets `ready` exactly when
      the lines bring it to the declared size; the line that does so is the last
      one used, and the payload is then the first `size` bytes of what was
      collected. Otherwise every line is used and kept whole. */
  lemma {:induction false} FeedSpec(d: Bytes, size: int, lines: seq<Bytes>)
    requires |d| < size
    ensures var r := Feed(Buffer(d, false), size, lines);
            var (b, k) := (r.0, r.1);
            && (b.ready <==> |d| + TotalLength(lines) >= size)
            && (b.ready ==>
                  && 1 <= k <= |lines|
                  && |d| + TotalLength(lines[..k - 1]) < size <= |d| + TotalLength(lines[..k])
                  && b.data == (d + Flatten(lines[..k]))[..size])
            && (!b.ready ==> k == |lines| && b.data == d + Flatten(lines))
    decreases |lines|
  {
    if lines != [] {
      var l0, rest := lines[0], lines[1..];
      ConsPrefix(lines, 0);
      assert TotalLength(lines[..0]) == 0 by { assert lines[..0] == []; }
      if |d| + |l0| < size {
        FeedSpec(d + l0, size, rest);
        var r := Feed(Buffer(d + l0, false), size, rest);
        assert Feed(Buffer(d, false), size, lines) == (r.0, r.1 + 1);
        if r.0.ready {
          FeedSpecReady(d, size, lines, r.1, r.0.data);
        } else {
          assert d + Flatten(lines) == d + l0 + Flatten(rest);
        }
      }
    }
  }

  /** The induction step of `FeedSpec` when a later line fills the buffer. */
  lemma FeedSpecReady(d: Bytes, size: int, lines: seq<Bytes>, k: nat, data: Bytes)
    requires 1 <= k < |lines|
    requires |d| + |lines[0]| + TotalLength(lines[1..][..k - 1]) < size
    requires size <= |d| + |lines[0]| + TotalLength(lines[1..][..k])
    requires data == (d + lines[0] + Flatten(lines[1..][..k]))[..size]
    ensures |d| + TotalLength(lines[..k]) < size <= |d| + TotalLength(lines[..k + 1])
    ensures data == (d + Flatten(lines[..k + 1]))[..size]
  {
    ConsPrefix(lines, k);
    ConsPrefix(lines, k - 1);
    assert d + lines[0] + Flatten(lines[1..][..k]) == d + (lines[0] + Flatten(lines[1..][..k]));
  }

  /** The first `j + 1` chunks are the first chunk and then `j` more. */
  lemma ConsPrefix(lines: seq<Bytes>, j: nat)
    requires j < |lines|
    ensures Flatten(lines[..j + 1]) == lines[0] + Flatten(lines[1..][..j])
    ensures TotalLength(lines[..j + 1]) == |lines[0]| + TotalLength(lines[1..][..j])
  {
    assert lines[..j + 1][1..] == lines[1..][..j];
  }

  lemma {:induction false} FlattenSplit(lines: seq<Bytes>, k: nat)
    requires k <= |lines|
    ensures Flatten(lines) == Flatten(lines[..k]) + Flatten(lines[k..])
  {
    if k > 0 {
      FlattenSplit(lines[1..], k - 1);
      assert lines[..k][1..] == lines[1..][..k - 1];
      assert lines[1..][k - 1..] == lines[k..];
    } else {
      assert lines[..0] == [];
    }
  }

  /** After chunks whose total reaches the declared size, the payload has exactly
      that size and is a prefix of the chunks' concatenation. */
  lemma FeedReachesSize(size: int, lines: seq<Bytes>)
    requires 0 < size <= TotalLength(lines)
    ensures var (b, k) := Feed(Buffer([], false), size, lines);
            b.ready && |b.data| == size && b.data == Flatten(lines)[..size]
  {
    FeedSpec([], size, lines);
    var r := Feed(Buffer([], false), size, lines);
    var k := r.1;
    assert r.0.ready;
    var head := Flatten(lines[..k]);
    assert [] + head == head;
    assert r.0.data == head[..size];
    FlattenSplit(lines, k);
    PrefixOfConcat(head, Flatten(lines[k..]), size);
  }

  lemma PrefixOfConcat(a: Bytes, b: Bytes, n: nat)
    requires n <= |a|
    ensures (a + b)[..n] == a[..n]
  {
  }
}
