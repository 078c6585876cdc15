/**
 Text primitives the license tool relies on: Python's substring test `p in s`,
 `str.startswith`, the concatenation of successive `write` calls, and
 `readlines`, which splits file content after every newline.
 File content is taken after newline translation, so `'\n'` is the only line
 terminator.
 */
module Text {

  /** `p` occurs in `s` at index `i`. */
  predicate StartsAt(s: string, p: string, i: int)
  {
    0 <= i && i + |p| <= |s| && s[i..i + |p|] == p
  }

  /** Python's `p in s`. */
  predicate Occurs(p: string, s: string)
  {
    exists i | 0 <= i <= |s| :: StartsAt(s, p, i)
  }

  /** Python's `s.startswith(p)`. */
  predicate StartsWith(s: string, p: string)
  {
    p <= s
  }

  /** The leftmost occurrence of `p` in `s` at or after `from`, or -1 (Python's `s.find(p, from)`). */
  function FindFrom(s: string, p: string, from: nat): (r: int)
    ensures r == -1 || (from <= r && StartsAt(s, p, r))
    ensures forall i :: from <= i && (r == -1 || i < r) ==> !StartsAt(s, p, i)
    decreases |s| - from
  {
    if from + |p| > |s| then -1
    else if s[from..from + |p|] == p then from
    else FindFrom(s, p, from + 1)
  }

  /** The search finds something exactly when the pattern occurs. */
  lemma OccursIffFound(s: string, p: string)
    ensures Occurs(p, s) <==> FindFrom(s, p, 0) != -1
  {
    var r := FindFrom(s, p, 0);
    if r != -1 {
      assert StartsAt(s, p, r);
    }
  }

  /** `p` starts right after `a` in `a + p + b`. */
  lemma StartsAtMiddle(a: string, p: string, b: string)
    ensures StartsAt(a + p + b, p, |a|)
  {
    assert (a + p + b)[|a|..|a| + |p|] == p;
  }

  /** A pattern longer than the text does not occur in it. */
  lemma LongerDoesNotOccur(p: string, s: string)
    requires |p| > |s|
    ensures !Occurs(p, s)
  {
  }

  /** An occurrence in a prefix or a suffix is an occurrence in the whole. */
  lemma OccursInConcat(a: string, b: string, p: string)
    requires Occurs(p, a) || Occurs(p, b)
    ensures Occurs(p, a + b)
  {
    if Occurs(p, a) {
      var i :| 0 <= i <= |a| && StartsAt(a, p, i);
      assert (a + b)[i..i + |p|] == a[i..i + |p|];
      assert StartsAt(a + b, p, i);
    } else {
      var i :| 0 <= i <= |b| && StartsAt(b, p, i);
      assert (a + b)[|a| + i..|a| + i + |p|] == b[i..i + |p|];
      assert StartsAt(a + b, p, |a| + i);
    }
  }

  /** The text a sequence of `write` calls leaves in a freshly truncated file. */
  function Concat(chunks: seq<string>): string
  {
    if |chunks| == 0 then [] else chunks[0] + Concat(chunks[1..])
  }

  lemma ConcatCons(a: string, c: seq<string>)
    ensures Concat([a] + c) == a + Concat(c)
  {
    assert ([a] + c)[1..] == c;
  }

  lemma {:induction false} ConcatAppend(a: seq<string>, b: seq<string>)
    ensures Concat(a + b) == Concat(a) + Concat(b)
    decreases |a|
  {
    if |a| == 0 {
      assert a + b == b;
    } else {
      assert (a + b)[1..] == a[1..] + b;
      ConcatAppend(a[1..], b);
    }
  }

  /** An occurrence inside one written chunk is an occurrence in the file. */
  lemma {:induction false} OccursInChunk(chunks: seq<string>, k: int, p: string)
    requires 0 <= k < |chunks| && Occurs(p, chunks[k])
    ensures Occurs(p, Concat(chunks))
    decreases k
  {
    if k == 0 {
      OccursInConcat(chunks[0], Concat(chunks[1..]), p);
    } else {
      OccursInChunk(chunks[1..], k - 1, p);
      OccursInConcat(chunks[0], Concat(chunks[1..]), p);
    }
  }

  /** Index of the first newline in `s`, or `|s|` when there is none. */
  function NewlineIndex(s: string): (k: nat)
    ensures k <= |s|
    ensures forall m :: 0 <= m < k ==> s[m] != '\n'
    ensures k < |s| ==> s[k] == '\n'
  {
    if |s| == 0 then 0
    else if s[0] == '\n' then 0
    else 1 + NewlineIndex(s[1..])
  }

  /** Python's `'\n'.join(pieces)`. */
  function JoinLines(pieces: seq<string>): string
  {
    if |pieces| == 0 then []
    else if |pieces| == 1 then pieces[0]
    else pieces[0] + "\n" + JoinLines(pieces[1..])
  }

  /** Python's `s.split('\n')`: the pieces between newlines, joined back by `JoinLines`. */
  function SplitLines(s: string): (pieces: seq<string>)
    ensures |pieces| > 0
    ensures pieces[0] == s[..NewlineIndex(s)]
    ensures forall j :: 0 <= j < |pieces| ==> '\n' !in pieces[j]
    ensures JoinLines(pieces) == s
    decreases |s|
  {
    var n := NewlineIndex(s);
    if n == |s| then
      assert s[..n] == s;
      [s]
    else
      var rest := SplitLines(s[n + 1..]);
      assert ([s[..n]] + rest)[1..] == rest;
      assert s[..n] + "\n" + s[n + 1..] == s;
      [s[..n]] + rest
  }

  /** Length of the first line `readlines` returns, its newline included. */
  function FirstLineLength(s: string): (k: nat)
    requires |s| > 0
    ensures 0 < k <= |s|
    ensures forall m :: 0 <= m < k - 1 ==> s[m] != '\n'
    ensures k == |s| || s[k - 1] == '\n'
  {
    var n := NewlineIndex(s);
    if n < |s| then n + 1 else |s|
  }

  /** A line as `readlines` produces it: non-empty, with no newline before its last character. */
  predicate IsLine(l: string)
  {
    |l| > 0 && forall m :: 0 <= m < |l| - 1 ==> l[m] != '\n'
  }

  /** A line that ends in a newline. */
  predicate IsTerminatedLine(l: string)
  {
    IsLine(l) && l[|l| - 1] == '\n'
  }

  /** What `readlines` returns: every line but possibly the last ends in a newline. */
  predicate IsLineList(lines: seq<string>)
  {
    && (forall j :: 0 <= j < |lines| ==> IsLine(lines[j]))
    && (forall j :: 0 <= j < |lines| - 1 ==> IsTerminatedLine(lines[j]))
  }

  /** Python's `readlines` on the whole content `s`. */
  function ReadLines(s: string): (lines: seq<string>)
    ensures Concat(lines) == s
    ensures IsLineList(lines)
    decreases |s|
  {
    if |s| == 0 then []
    else
      var k := FirstLineLength(s);
      var rest := ReadLines(s[k..]);
      assert ([s[..k]] + rest)[1..] == rest;
      assert s[..k] + s[k..] == s;
      [s[..k]] + rest
  }

  /** `readlines` cuts right after a leading terminated line. */
  lemma FirstLineOfTerminated(x: string, y: string)
    requires IsTerminatedLine(x)
    ensures FirstLineLength(x + y) == |x|
  {
    var s := x + y;
    assert s[|x| - 1] == '\n';
    assert forall m :: 0 <= m < |x| - 1 ==> s[m] == x[m];
  }

  lemma ReadLinesCons(x: string, y: string)
    requires IsTerminatedLine(x)
    ensures ReadLines(x + y) == [x] + ReadLines(y)
  {
    FirstLineOfTerminated(x, y);
    assert (x + y)[..|x|] == x;
    assert (x + y)[|x|..] == y;
  }

  /** Re-associating a head element, stated generically so the proof never compares string elements. */
  lemma ConsAppend<T>(a: seq<T>, b: seq<T>)
    requires |a| > 0
    ensures [a[0]] + (a[1..] + b) == a + b
  {
    assert a == [a[0]] + a[1..];
  }

  /** Reading back the concatenation of terminated lines yields exactly those lines, followed by the lines of `tail`. */
  lemma {:induction false} ReadLinesOfConcat(chunks: seq<string>, tail: string)
    requires forall j :: 0 <= j < |chunks| ==> IsTerminatedLine(chunks[j])
    ensures ReadLines(Concat(chunks) + tail) == chunks + ReadLines(tail)
    decreases |chunks|
  {
    if |chunks| == 0 {
      assert Concat(chunks) + tail == tail;
    } else {
      var rest := Concat(chunks[1..]) + tail;
      assert Concat(chunks) + tail == chunks[0] + rest;
      calc {
        ReadLines(Concat(chunks) + tail);
        ReadLines(chunks[0] + rest);
        { ReadLinesCons(chunks[0], rest); }
        [chunks[0]] + ReadLines(rest);
        { ReadLinesOfConcat(chunks[1..], tail); }
        [chunks[0]] + (chunks[1..] + ReadLines(tail));
        { ConsAppend(chunks, ReadLines(tail)); }
        chunks + ReadLines(tail);
      }
    }
  }

  /** `readlines` is the inverse of writing a line list back: a list shaped as `readlines` returns it survives the round trip. */
  lemma {:induction false} ReadLinesOfLineList(lines: seq<string>)
    requires IsLineList(lines)
    ensures ReadLines(Concat(lines)) == lines
    decreases |lines|
  {
    if |lines| == 0 {
    } else if |lines| == 1 {
      var l := lines[0];
      assert Concat(lines) == l by {
        assert Concat(lines[1..]) == [];
      }
      assert FirstLineLength(l) == |l|;
      assert l[|l|..] == [];
      assert l[..|l|] == l;
    } else {
      assert IsLineList(lines[1..]);
      ReadLinesOfLineList(lines[1..]);
      ReadLinesCons(lines[0], Concat(lines[1..]));
      assert lines == [lines[0]] + lines[1..];
    }
  }

  /** An occurrence that begins on the first line ends there too when the pattern has no newline. */
  lemma OccurrenceInFirstLine(s: string, p: string, i: int)
    requires StartsAt(s, p, i) && |p| > 0 && '\n' !in p
    requires i < FirstLineLength(s)
    ensures StartsAt(s[..FirstLineLength(s)], p, i)
  {
    var k := FirstLineLength(s);
    assert forall m :: i <= m < i + |p| ==> s[m] == p[m - i];
    assert forall m :: i <= m < i + |p| ==> s[m] != '\n';
    assert s[..k][i..i + |p|] == s[i..i + |p|];
  }

  /** An occurrence of a newline-free pattern never straddles a line break, so some line returned by `readlines` contains it. */
  lemma {:induction false} OccurrenceStaysOnOneLine(s: string, p: string, i: int)
    requires StartsAt(s, p, i)
    requires |p| > 0 && '\n' !in p
    ensures exists j :: 0 <= j < |ReadLines(s)| && Occurs(p, ReadLines(s)[j])
    decreases |s|
  {
    var k := FirstLineLength(s);
    var lines := ReadLines(s);
    var rest := ReadLines(s[k..]);
    assert |lines| == 1 + |rest|;
    if i < k {
      OccurrenceInFirstLine(s, p, i);
      assert lines[0] == s[..k];
      assert StartsAt(lines[0], p, i);
    } else {
      assert s[k..][i - k..i - k + |p|] == s[i..i + |p|];
      OccurrenceStaysOnOneLine(s[k..], p, i - k);
      var j :| 0 <= j < |rest| && Occurs(p, rest[j]);
      assert lines[j + 1] == rest[j];
    }
  }

  /** `readlines` of a text that ends in a newline, followed by more text, is the lines of each part. */
  lemma {:induction false} ReadLinesAppend(x: string, y: string)
    requires |x| == 0 || x[|x| - 1] == '\n'
    ensures ReadLines(x + y) == ReadLines(x) + ReadLines(y)
    decreases |x|
  {
    if |x| == 0 {
      assert x + y == y;
    } else {
      var s := x + y;
      var k := FirstLineLength(s);
      assert s[|x| - 1] == '\n';
      assert k <= |x|;
      assert forall m :: 0 <= m < k ==> x[m] == s[m];
      assert FirstLineLength(x) == k;
      assert s[..k] == x[..k];
      assert s[k..] == x[k..] + y;
      ReadLinesAppend(x[k..], y);
      calc {
        ReadLines(s);
        [x[..k]] + ReadLines(x[k..] + y);
        [x[..k]] + (ReadLines(x[k..]) + ReadLines(y));
        { ConsAssoc(x[..k], ReadLines(x[k..]), ReadLines(y)); }
        ([x[..k]] + ReadLines(x[k..])) + ReadLines(y);
      }
    }
  }

  lemma ConsAssoc<T>(a: T, b: seq<T>, c: seq<T>)
    ensures [a] + (b + c) == ([a] + b) + c
  {
  }

  /** An occurrence of a newline-free pattern in `a + "\n" + t` lies wholly in `a` or wholly in `t`. */
  lemma OccurrenceAroundNewline(a: string, t: string, p: string, i: int)
    requires StartsAt(a + "\n" + t, p, i) && '\n' !in p
    ensures (i + |p| <= |a| && StartsAt(a, p, i)) || (i > |a| && StartsAt(t, p, i - |a| - 1))
  {
    var s := a + "\n" + t;
    assert forall m :: i <= m < i + |p| ==> s[m] == p[m - i];
    assert s[|a|] == '\n';
    if i + |p| <= |a| {
      assert s[i..i + |p|] == a[i..i + |p|];
    } else {
      assert i > |a|;
      assert s[i..i + |p|] == t[i - |a| - 1..i - |a| - 1 + |p|];
    }
  }

  /** An occurrence of a newline-free pattern in `JoinLines(pieces)` lies within one piece. */
  lemma {:induction false} OccurrenceInSomePiece(pieces: seq<string>, p: string, i: int)
    requires |pieces| > 0
    requires StartsAt(JoinLines(pieces), p, i) && '\n' !in p
    ensures exists j :: 0 <= j < |pieces| && Occurs(p, pieces[j])
    decreases |pieces|
  {
    if |pieces| == 1 {
      assert StartsAt(pieces[0], p, i);
    } else {
      var a := pieces[0];
      var t := JoinLines(pieces[1..]);
      OccurrenceAroundNewline(a, t, p, i);
      if i + |p| <= |a| {
        assert Occurs(p, pieces[0]);
      } else {
        OccurrenceInSomePiece(pieces[1..], p, i - |a| - 1);
        var j :| 0 <= j < |pieces| - 1 && Occurs(p, pieces[1..][j]);
        assert pieces[1..][j] == pieces[j + 1];
      }
    }
  }

  /** An occurrence of a newline-free pattern survives `split('\n')` within one piece. */
  lemma OccurrenceStaysInOnePiece(s: string, p: string, i: int)
    requires StartsAt(s, p, i) && '\n' !in p
    ensures exists j :: 0 <= j < |SplitLines(s)| && Occurs(p, SplitLines(s)[j])
  {
    OccurrenceInSomePiece(SplitLines(s), p, i);
  }
}
