/** JavaScript strings as the ciphers see them: sequences of UTF-16 code
    units, with the two string builtins the ciphers rely on, `padEnd` with a
    space and `trim`. */
module JsText {

  /** One UTF-16 code unit, the value `charCodeAt` returns. XOR of two code
      units stays inside 16 bits, so `String.fromCharCode(a ^ b)` is `a ^ b`. */
  type Unit = bv16

  /** A JavaScript string. */
  type Text = seq<Unit>

  const Space: Unit := 0x20

  /** The code units `String.prototype.trim` removes: ECMAScript WhiteSpace
      (TAB, VT, FF, SP, NBSP, ZWNBSP and the Zs category) and LineTerminator
      (LF, CR, LS, PS). */
  predicate IsWhiteSpace(u: Unit) {
    u == 0x09 || u == 0x0A || u == 0x0B || u == 0x0C || u == 0x0D ||
    u == 0x20 || u == 0xA0 || u == 0x1680 ||
    u == 0x2000 || u == 0x2001 || u == 0x2002 || u == 0x2003 || u == 0x2004 ||
    u == 0x2005 || u == 0x2006 || u == 0x2007 || u == 0x2008 || u == 0x2009 ||
    u == 0x200A ||
    u == 0x2028 || u == 0x2029 || u == 0x202F || u == 0x205F ||
    u == 0x3000 || u == 0xFEFF
  }

  function Spaces(n: nat): (r: Text)
    ensures |r| == n
    ensures forall i :: 0 <= i < n ==> r[i] == Space
  {
    seq(n, _ => Space)
  }

  /** `s.padEnd(n, ' ')`: a string already at least `n` long is returned
      unchanged, a shorter one is filled up with spaces to length `n`. */
  function PadEnd(s: Text, n: nat): (r: Text)
    ensures |r| == if |s| < n then n else |s|
    ensures r[..|s|] == s
    ensures forall i :: |s| <= i < |r| ==> r[i] == Space
  {
    if |s| < n then s + Spaces(n - |s|) else s
  }

  /** The first position at or after `i` that holds no white space, or
      `|s|` when there is none: where the text `trimStart` keeps begins. */
  function KeptFrom(s: Text, i: nat): (a: nat)
    requires i <= |s|
    ensures i <= a <= |s|
    ensures forall k :: i <= k < a ==> IsWhiteSpace(s[k])
    ensures a == |s| || !IsWhiteSpace(s[a])
    decreases |s| - i
  {
    if i == |s| || !IsWhiteSpace(s[i]) then i else KeptFrom(s, i + 1)
  }

  /** The last position at or before `j` that follows no white space, or 0
      when there is none: where the text `trimEnd` keeps ends. */
  function KeptUntil(s: Text, j: nat): (b: nat)
    requires j <= |s|
    ensures b <= j
    ensures forall k :: b <= k < j ==> IsWhiteSpace(s[k])
    ensures b == 0 || !IsWhiteSpace(s[b - 1])
  {
    if j == 0 || !IsWhiteSpace(s[j - 1]) then j else KeptUntil(s, j - 1)
  }

  /** `s.trimStart()`: drops the leading white space. */
  function TrimStart(s: Text): (r: Text)
    ensures |r| <= |s| && r == s[|s| - |r|..]
    ensures forall i :: 0 <= i < |s| - |r| ==> IsWhiteSpace(s[i])
    ensures r == [] || !IsWhiteSpace(r[0])
  {
    s[KeptFrom(s, 0)..]
  }

  /** `s.trimEnd()`: drops the trailing white space. */
  function TrimEnd(s: Text): (r: Text)
    ensures |r| <= |s| && r == s[..|r|]
    ensures forall i :: |r| <= i < |s| ==> IsWhiteSpace(s[i])
    ensures r == [] || !IsWhiteSpace(r[|r| - 1])
  {
    s[..KeptUntil(s, |s|)]
  }

  /** `s.trim()`: drops the white space at both ends. */
  function Trim(s: Text): Text {
    TrimEnd(TrimStart(s))
  }

  /** The start of the kept text is the one position with white space before
      it and none at it. */
  lemma KeptFromUnique(s: Text, a: nat)
    requires a <= |s|
    requires forall k :: 0 <= k < a ==> IsWhiteSpace(s[k])
    requires a == |s| || !IsWhiteSpace(s[a])
    ensures KeptFrom(s, 0) == a
  {
  }

  /** The end of the kept text is the one position with white space after it
      and none just before it. */
  lemma KeptUntilUnique(s: Text, b: nat)
    requires b <= |s|
    requires forall k :: b <= k < |s| ==> IsWhiteSpace(s[k])
    requires b == 0 || !IsWhiteSpace(s[b - 1])
    ensures KeptUntil(s, |s|) == b
  {
  }

  /** What `trim` promises: the result is a contiguous piece of the input that
      neither starts nor ends with white space, and everything cut off on
      either side is white space. */
  lemma TrimIsMaximalSlice(s: Text)
    ensures var r, a := Trim(s), |s| - |TrimStart(s)|;
      a + |r| <= |s| && s[a..a + |r|] == r &&
      (forall i :: 0 <= i < a ==> IsWhiteSpace(s[i])) &&
      (forall i :: a + |r| <= i < |s| ==> IsWhiteSpace(s[i])) &&
      (r == [] || (!IsWhiteSpace(r[0]) && !IsWhiteSpace(r[|r| - 1])))
  {
    var t := TrimStart(s);
    var r := TrimEnd(t);
    var a := |s| - |t|;
    assert s[a..a + |r|] == r;
    forall i | a + |r| <= i < |s| ensures IsWhiteSpace(s[i]) {
      assert s[i] == t[i - a];
    }
    if r != [] {
      assert r[0] == t[0];
    }
  }

  /** Text without white space at either end is left alone by `trim`. */
  lemma TrimKeepsTrimmed(s: Text)
    requires s == [] || (!IsWhiteSpace(s[0]) && !IsWhiteSpace(s[|s| - 1]))
    ensures Trim(s) == s
  {
    assert s[0..] == s && s[..|s|] == s;
  }

  /** Appending white space does not change what `trim` keeps. */
  lemma TrimAppendWhiteSpace(s: Text, t: Text)
    requires forall i :: 0 <= i < |t| ==> IsWhiteSpace(t[i])
    ensures Trim(s + t) == Trim(s)
  {
    var a := KeptFrom(s, 0);
    KeptFromAppend(s, t);
    assert (s + t)[a..] == s[a..] + t;
    TrimEndAppend(s[a..], t);
  }

  /** Appending white space moves the start of the kept text only when the
      text is all white space, and then to the new end. */
  lemma KeptFromAppend(s: Text, t: Text)
    requires forall i :: 0 <= i < |t| ==> IsWhiteSpace(t[i])
    ensures KeptFrom(s + t, 0) == if KeptFrom(s, 0) < |s| then KeptFrom(s, 0) else |s + t|
  {
    var u, a := s + t, KeptFrom(s, 0);
    if a < |s| {
      assert forall k :: 0 <= k <= a ==> u[k] == s[k];
      KeptFromUnique(u, a);
    } else {
      assert forall k :: 0 <= k < |u| ==> IsWhiteSpace(u[k]) by {
        forall k | 0 <= k < |u| ensures IsWhiteSpace(u[k]) {
          if k < |s| { assert u[k] == s[k]; } else { assert u[k] == t[k - |s|]; }
        }
      }
      KeptFromUnique(u, |u|);
    }
  }

  /** Appending white space does not change what `trimEnd` keeps. */
  lemma TrimEndAppend(v: Text, t: Text)
    requires forall i :: 0 <= i < |t| ==> IsWhiteSpace(t[i])
    ensures TrimEnd(v + t) == TrimEnd(v)
  {
    var w, b := v + t, KeptUntil(v, |v|);
    forall k | b <= k < |w| ensures IsWhiteSpace(w[k]) {
      if k < |v| { assert w[k] == v[k]; } else { assert w[k] == t[k - |v|]; }
    }
    assert b > 0 ==> w[b - 1] == v[b - 1];
    KeptUntilUnique(w, b);
    assert w[..b] == v[..b];
  }

  /** The padding spaces added by `padEnd` are exactly what `trim` removes
      again: `s.padEnd(n, ' ').trim() == s.trim()`. */
  lemma TrimPadEnd(s: Text, n: nat)
    ensures Trim(PadEnd(s, n)) == Trim(s)
  {
    if |s| < n {
      TrimAppendWhiteSpace(s, Spaces(n - |s|));
    }
  }
}
