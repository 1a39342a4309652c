/**
  The whitespace set shared by `String.prototype.trim` and the regular-expression
  class `\s` (the WhiteSpace and LineTerminator productions of ECMAScript), and
  the trimming of a string by that set.
 */
module Whitespace {

  /** ECMAScript WhiteSpace (TAB, VT, FF, SPACE, NBSP, ZWNBSP and the Zs
      space separators) and LineTerminator (LF, CR, LS, PS) code points. */
  predicate IsWs(c: char) {
    || c == '\U{9}' || c == '\U{B}' || c == '\U{C}' || c == ' '
    || c == '\U{A0}' || c == '\U{FEFF}'
    || c == '\U{1680}' || ('\U{2000}' <= c <= '\U{200A}')
    || c == '\U{202F}' || c == '\U{205F}' || c == '\U{3000}'
    || c == '\n' || c == '\r' || c == '\U{2028}' || c == '\U{2029}'
  }

  predicate AllWs(s: string) {
    forall i | 0 <= i < |s| :: IsWs(s[i])
  }

  predicate NoWs(s: string) {
    forall i | 0 <= i < |s| :: !IsWs(s[i])
  }

  /** Neither the first nor the last character of `s` is whitespace. */
  predicate NoEdgeWs(s: string) {
    s == [] || (!IsWs(s[0]) && !IsWs(s[|s| - 1]))
  }

  /** `s[a..b]` is a trimmed core of `s`: whitespace only outside it, and no
      whitespace at either of its ends. */
  ghost predicate Margins(s: string, a: int, b: int) {
    && 0 <= a <= b <= |s|
    && AllWs(s[..a])
    && AllWs(s[b..])
    && NoEdgeWs(s[a..b])
  }

  /** `r` is what trimming `s` must produce. */
  ghost predicate IsTrimOf(s: string, r: string) {
    exists a, b :: Margins(s, a, b) && r == s[a..b]
  }

  /** Drops leading whitespace. */
  function TrimStart(s: string): (r: string)
    ensures |r| <= |s| && r == s[|s| - |r|..]
    ensures AllWs(s[..|s| - |r|])
    ensures r == [] || !IsWs(r[0])
    decreases |s|
  {
    if |s| > 0 && IsWs(s[0]) then TrimStart(s[1..]) else s
  }

  /** Drops trailing whitespace. */
  function TrimEnd(s: string): (r: string)
    ensures |r| <= |s| && r == s[..|r|]
    ensures AllWs(s[|r|..])
    ensures r == [] || !IsWs(r[|r| - 1])
    decreases |s|
  {
    if |s| > 0 && IsWs(s[|s| - 1]) then TrimEnd(s[..|s| - 1]) else s
  }

  /** `String.prototype.trim`. */
  function Trim(s: string): (r: string)
    ensures IsTrimOf(s, r)
  {
    var t := TrimStart(s);
    var r := TrimEnd(t);
    var a := |s| - |t|;
    assert r == s[a..a + |r|];
    assert s[a + |r|..] == t[|r|..];
    assert r != [] ==> r[0] == t[0];
    assert Margins(s, a, a + |r|);
    r
  }

  lemma AllWsConcat(x: string, y: string)
    ensures AllWs(x + y) <==> AllWs(x) && AllWs(y)
  {
    if AllWs(x) && AllWs(y) {
      forall i | 0 <= i < |x + y|
        ensures IsWs((x + y)[i])
      {
        if i >= |x| {
          assert (x + y)[i] == y[i - |x|];
        }
      }
    }
    if AllWs(x + y) {
      forall i | 0 <= i < |x|
        ensures IsWs(x[i])
      {
        assert (x + y)[i] == x[i];
      }
      forall i | 0 <= i < |y|
        ensures IsWs(y[i])
      {
        assert (x + y)[|x| + i] == y[i];
      }
    }
  }

  /** The core is empty exactly when the whole string is whitespace. */
  lemma CoreEmptyIffAllWs(s: string, a: int, b: int)
    requires Margins(s, a, b)
    ensures a == b <==> AllWs(s)
  {
    if a == b {
      AllWsConcat(s[..a], s[a..]);
      assert s[..a] + s[a..] == s;
    }
  }

  /** A non-empty core starts at the first and ends after the last
      non-whitespace character of `s`. */
  lemma CoreBounds(s: string, a: int, b: int)
    requires Margins(s, a, b) && a < b
    ensures forall i | 0 <= i < a :: IsWs(s[i])
    ensures forall i | b <= i < |s| :: IsWs(s[i])
    ensures !IsWs(s[a]) && !IsWs(s[b - 1])
  {
    forall i | 0 <= i < a
      ensures IsWs(s[i])
    {
      assert s[..a][i] == s[i];
    }
    forall i | b <= i < |s|
      ensures IsWs(s[i])
    {
      assert s[b..][i - b] == s[i];
    }
    assert s[a..b][0] == s[a];
    assert s[a..b][b - a - 1] == s[b - 1];
  }

  /** Whatever the margins chosen, the trimmed core is the same string. */
  lemma MarginsUnique(s: string, a: int, b: int, a': int, b': int)
    requires Margins(s, a, b) && Margins(s, a', b')
    ensures s[a..b] == s[a'..b']
  {
    CoreEmptyIffAllWs(s, a, b);
    CoreEmptyIffAllWs(s, a', b');
    if a < b {
      CoreBounds(s, a, b);
      CoreBounds(s, a', b');
      assert a == a' && b == b';
    }
  }

  /** Trimming is determined by the margins characterization: any string with
      only whitespace around a core without edge whitespace trims to that core. */
  lemma TrimCharacterized(s: string, r: string)
    requires IsTrimOf(s, r)
    ensures Trim(s) == r
  {
    var a, b :| Margins(s, a, b) && r == s[a..b];
    var a', b' :| Margins(s, a', b') && Trim(s) == s[a'..b'];
    MarginsUnique(s, a, b, a', b');
  }

  /** A trimmed string has no edge whitespace, so trimming twice is trimming once. */
  lemma TrimIdempotent(s: string)
    ensures Trim(Trim(s)) == Trim(s)
  {
    var r := Trim(s);
    var a, b :| Margins(s, a, b) && r == s[a..b];
    assert r[..0] == [] && r[|r|..] == [] && r[0..|r|] == r;
    assert Margins(r, 0, |r|);
    TrimCharacterized(r, r);
  }

  /** Margins of `s` carry over to `s` padded with whitespace. */
  lemma PaddedMargins(p: string, s: string, q: string, a: int, b: int)
    requires AllWs(p) && AllWs(q) && Margins(s, a, b)
    ensures Margins(p + s + q, |p| + a, |p| + b)
    ensures (p + s + q)[|p| + a..|p| + b] == s[a..b]
  {
    var t := p + s + q;
    assert t[..|p| + a] == p + s[..a];
    assert t[|p| + b..] == s[b..] + q;
    assert t[|p| + a..|p| + b] == s[a..b];
    AllWsConcat(p, s[..a]);
    AllWsConcat(s[b..], q);
  }

  /** Padding a string with whitespace does not change its trim. */
  lemma TrimPadding(p: string, s: string, q: string)
    requires AllWs(p) && AllWs(q)
    ensures Trim(p + s + q) == Trim(s)
  {
    var r := Trim(s);
    var a, b :| Margins(s, a, b) && r == s[a..b];
    PaddedMargins(p, s, q, a, b);
    TrimCharacterized(p + s + q, r);
  }
}
