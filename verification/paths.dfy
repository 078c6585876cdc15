/**
 The extension rule of POSIX `os.path.splitext`: the extension is the suffix
 starting at the last `.` of the final path component, provided that
 component has some character other than `.` before it; otherwise it is empty.
 */
module Paths {

  /** Index of the last `c` in `s`, or -1 (Python's `s.rfind(c)`). */
  function RFind(s: string, c: char): (r: int)
    ensures -1 <= r < |s|
    ensures r >= 0 ==> s[r] == c
    ensures forall m :: r < m < |s| ==> s[m] != c
  {
    if |s| == 0 then -1
    else if s[|s| - 1] == c then |s| - 1
    else RFind(s[..|s| - 1], c)
  }

  /**
   The extension starts at `d`: `d` holds the last dot, no separator follows it,
   and the final path component has a non-dot character before `d`
   (so the dots that lead a name like `.bashrc` do not start an extension).
   */
  predicate ExtensionStartsAt(p: string, d: int)
  {
    && 0 <= d < |p|
    && p[d] == '.'
    && (forall m :: d < m < |p| ==> p[m] != '.' && p[m] != '/')
    && (exists k :: 0 <= k < d && p[k] != '.' && p[k] != '/' && forall m :: k < m < d ==> p[m] != '/')
  }

  /** Any place an extension can start is the last dot, past the last separator, with a non-dot before it. */
  lemma ExtensionStartIsLastDot(p: string, d: int)
    requires ExtensionStartsAt(p, d)
    ensures d == RFind(p, '.') && RFind(p, '/') < d
    ensures exists k | RFind(p, '/') < k < d :: p[k] != '.'
  {
    var sep := RFind(p, '/');
    var k :| 0 <= k < d && p[k] != '.' && p[k] != '/' && forall m :: k < m < d ==> p[m] != '/';
    assert sep < k;
  }

  /** The second half of `os.path.splitext(p)`. */
  function Ext(p: string): (ext: string)
    ensures ext != [] ==> |ext| <= |p| && ext == p[|p| - |ext|..] && ExtensionStartsAt(p, |p| - |ext|)
    ensures ext == [] ==> forall d :: !ExtensionStartsAt(p, d)
  {
    var sep := RFind(p, '/');
    var dot := RFind(p, '.');
    assert forall d :: ExtensionStartsAt(p, d) ==> d == dot && sep < d && exists k | sep < k < dot :: p[k] != '.' by {
      forall d | ExtensionStartsAt(p, d)
        ensures d == dot && sep < d && exists k | sep < k < dot :: p[k] != '.'
      {
        ExtensionStartIsLastDot(p, d);
      }
    }
    if dot > sep && exists k | sep < k < dot :: p[k] != '.' then
      assert ExtensionStartsAt(p, dot) by {
        var k :| sep < k < dot && p[k] != '.';
        assert p[k] != '/';
      }
      p[dot..]
    else
      []
  }

  /** Wherever an extension can start, `Ext` returns the suffix from there. */
  lemma ExtFromStart(p: string, d: int)
    requires ExtensionStartsAt(p, d)
    ensures Ext(p) == p[d..]
  {
    var e := Ext(p);
    ExtensionStartIsLastDot(p, d);
    ExtensionStartIsLastDot(p, |p| - |e|);
  }
}
