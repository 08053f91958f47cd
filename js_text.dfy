/**
 * The JavaScript string built-ins the quiz engine relies on:
 * `toLowerCase`, `trim`, `substring(0, n)` and `includes`.
 */
module JsText {

  /** The characters `String.prototype.trim` strips: ECMAScript WhiteSpace and LineTerminator. */
  predicate IsSpace(c: char) {
    || c == '\t' || c == '\n' || c == '\U{000B}' || c == '\U{000C}' || c == '\r'
    || c == ' ' || c == '\U{00A0}' || c == '\U{1680}' || ('\U{2000}' <= c <= '\U{200A}')
    || c == '\U{2028}' || c == '\U{2029}' || c == '\U{202F}' || c == '\U{205F}'
    || c == '\U{3000}' || c == '\U{FEFF}'
  }

  ghost predicate AllSpace(s: string) {
    forall i :: 0 <= i < |s| ==> IsSpace(s[i])
  }

  /** Every character of `s` in the index range [a, b) is whitespace. */
  ghost predicate SpaceBetween(s: string, a: int, b: int) {
    0 <= a <= b <= |s| && forall k :: a <= k < b ==> IsSpace(s[k])
  }

  predicate IsUpper(c: char) {
    'A' <= c <= 'Z'
  }

  /** Lower-cases one character (ASCII letters only; see README). */
  function LowerChar(c: char): (r: char)
    ensures !IsUpper(r)
    ensures IsUpper(c) ==> 'a' <= r <= 'z' && r as int - 'a' as int == c as int - 'A' as int
    ensures !IsUpper(c) ==> r == c
    ensures IsSpace(c) ==> r == c
  {
    if IsUpper(c) then (c as int + 32) as char else c
  }

  /** `s.toLowerCase()`. */
  function ToLower(s: string): (r: string)
    ensures |r| == |s|
    ensures forall i :: 0 <= i < |s| ==> r[i] == LowerChar(s[i])
  {
    if s == [] then [] else [LowerChar(s[0])] + ToLower(s[1..])
  }

  lemma ToLowerAppend(a: string, b: string)
    ensures ToLower(a + b) == ToLower(a) + ToLower(b)
  {
    var whole, parts := ToLower(a + b), ToLower(a) + ToLower(b);
    forall i | 0 <= i < |whole|
      ensures whole[i] == parts[i]
    {
      if i < |a| {
        assert (a + b)[i] == a[i];
      } else {
        assert (a + b)[i] == b[i - |a|];
      }
    }
  }

  lemma ToLowerIdempotent(s: string)
    ensures ToLower(ToLower(s)) == ToLower(s)
  {
  }

  /** Drops the leading whitespace: the first half of `s.trim()`. */
  function TrimStart(s: string): (r: string)
    ensures |r| <= |s| && r == s[|s| - |r|..]
    ensures SpaceBetween(s, 0, |s| - |r|)
    ensures |r| > 0 ==> !IsSpace(s[|s| - |r|])
  {
    if |s| > 0 && IsSpace(s[0]) then
      var r := TrimStart(s[1..]);
      SpaceBeforeSuffix(s, r);
      r
    else s
  }

  /** Drops the trailing whitespace: the second half of `s.trim()`. */
  function TrimEnd(s: string): (r: string)
    ensures |r| <= |s| && r == s[..|r|]
    ensures SpaceBetween(s, |r|, |s|)
    ensures |r| > 0 ==> !IsSpace(s[|r| - 1])
  {
    if |s| > 0 && IsSpace(s[|s| - 1]) then
      var r := TrimEnd(s[..|s| - 1]);
      SpaceAfterPrefix(s, r);
      r
    else s
  }

  /** The step of `TrimStart`: a leading space joins the whitespace run before the suffix. */
  lemma SpaceBeforeSuffix(s: string, r: string)
    requires |s| > 0 && IsSpace(s[0])
    requires |r| <= |s| - 1 && r == s[1..][|s| - 1 - |r|..] && SpaceBetween(s[1..], 0, |s| - 1 - |r|)
    ensures r == s[|s| - |r|..] && SpaceBetween(s, 0, |s| - |r|)
  {
    assert s[1..][|s| - 1 - |r|..] == s[|s| - |r|..];
    assert forall k :: 1 <= k < |s| ==> s[k] == s[1..][k - 1];
  }

  /** The step of `TrimEnd`: a trailing space joins the whitespace run after the prefix. */
  lemma SpaceAfterPrefix(s: string, r: string)
    requires |s| > 0 && IsSpace(s[|s| - 1])
    requires |r| <= |s| - 1 && r == s[..|s| - 1][..|r|] && SpaceBetween(s[..|s| - 1], |r|, |s| - 1)
    ensures r == s[..|r|] && SpaceBetween(s, |r|, |s|)
  {
    assert s[..|s| - 1][..|r|] == s[..|r|];
    assert forall k :: 0 <= k < |s| - 1 ==> s[k] == s[..|s| - 1][k];
  }

  /** `r` is the slice of `s` at offset `i` with only whitespace before and after it. */
  ghost predicate CoreAt(s: string, r: string, i: int) {
    0 <= i <= |s| - |r| && r == s[i..i + |r|] && SpaceBetween(s, 0, i) && SpaceBetween(s, i + |r|, |s|)
  }

  /** `s.trim()`: a slice of `s` that leaves only whitespace outside it
      (`TrimEnds` adds that it neither starts nor ends with whitespace). */
  function Trim(s: string): (r: string)
    ensures |r| <= |s|
    ensures exists i :: CoreAt(s, r, i)
  {
    var t := TrimStart(s);
    var r := TrimEnd(t);
    CoreOfPieces(s, t, r);
    r
  }

  /** A prefix `r` of a suffix `t` of `s`, with only whitespace around both, is a core of `s`. */
  lemma CoreOfPieces(s: string, t: string, r: string)
    requires |t| <= |s| && t == s[|s| - |t|..] && SpaceBetween(s, 0, |s| - |t|)
    requires |r| <= |t| && r == t[..|r|] && SpaceBetween(t, |r|, |t|)
    ensures CoreAt(s, r, |s| - |t|)
  {
    var i := |s| - |t|;
    assert r == s[i..][..|r|] == s[i..i + |r|];
    assert forall k :: i <= k < |s| ==> s[k] == t[k - i];
  }

  /** What `trim` returns neither starts nor ends with whitespace. */
  lemma TrimEnds(s: string)
    ensures var r := Trim(s); r == [] || (!IsSpace(r[0]) && !IsSpace(r[|r| - 1]))
  {
    var t := TrimStart(s);
    var r := TrimEnd(t);
    if |r| > 0 {
      assert r[0] == t[0] == s[|s| - |t|];
      assert r[|r| - 1] == t[|r| - 1];
    }
  }

  /** A string is blank for `!s.trim()` exactly when it is all whitespace. */
  lemma TrimEmptyIffAllSpace(s: string)
    ensures Trim(s) == [] <==> AllSpace(s)
  {
    if AllSpace(s) {
      AllSpaceTrimStart(s);
    }
  }

  lemma {:induction false} AllSpaceTrimStart(s: string)
    requires AllSpace(s)
    ensures TrimStart(s) == []
    decreases |s|
  {
    if |s| > 0 {
      assert IsSpace(s[0]);
      AllSpaceTrimStart(s[1..]);
    }
  }

  lemma {:induction false} TrimStartSkipsSpace(w: string, y: string)
    requires AllSpace(w)
    ensures TrimStart(w + y) == TrimStart(y)
    decreases |w|
  {
    if |w| > 0 {
      assert (w + y)[0] == w[0];
      assert (w + y)[1..] == w[1..] + y;
      TrimStartSkipsSpace(w[1..], y);
    } else {
      assert w + y == y;
    }
  }

  lemma {:induction false} TrimEndSkipsSpace(y: string, w: string)
    requires AllSpace(w)
    ensures TrimEnd(y + w) == TrimEnd(y)
    decreases |w|
  {
    if |w| > 0 {
      assert (y + w)[..|y + w| - 1] == y + w[..|w| - 1];
      TrimEndSkipsSpace(y, w[..|w| - 1]);
    } else {
      assert y + w == y;
    }
  }

  lemma {:induction false} TrimStartAppend(x: string, w: string)
    requires !AllSpace(x)
    ensures TrimStart(x + w) == TrimStart(x) + w
    decreases |x|
  {
    if IsSpace(x[0]) {
      assert (x + w)[1..] == x[1..] + w;
      assert !AllSpace(x[1..]) by {
        var k :| 0 <= k < |x| && !IsSpace(x[k]);
        assert x[1..][k - 1] == x[k];
      }
      TrimStartAppend(x[1..], w);
    }
  }

  /** Surrounding whitespace never changes what `trim` returns. */
  lemma TrimPadded(w1: string, x: string, w2: string)
    requires AllSpace(w1) && AllSpace(w2)
    ensures Trim(w1 + x + w2) == Trim(x)
  {
    assert w1 + x + w2 == w1 + (x + w2);
    TrimStartSkipsSpace(w1, x + w2);
    if AllSpace(x) {
      assert AllSpace(x + w2);
      AllSpaceTrimStart(x + w2);
      AllSpaceTrimStart(x);
    } else {
      TrimStartAppend(x, w2);
      TrimEndSkipsSpace(TrimStart(x), w2);
    }
  }

  /** `s.substring(0, n)`: the first `n` characters, or all of `s` when it is shorter. */
  function Prefix(s: string, n: nat): (r: string)
    ensures |r| == if |s| <= n then |s| else n
    ensures r == s[..|r|]
  {
    if |s| <= n then s else s[..n]
  }

  /** `t` occurs in `s` starting at offset `i`. */
  ghost predicate OccursAt(s: string, t: string, i: int) {
    0 <= i <= |s| - |t| && s[i..i + |t|] == t
  }

  /** `s.includes(t)`: `t` occurs in `s` at some offset. */
  function Contains(s: string, t: string): (b: bool)
    ensures b <==> exists i :: OccursAt(s, t, i)
    decreases |s|
  {
    if |t| > |s| then false
    else if s[..|t|] == t then assert OccursAt(s, t, 0); true
    else
      var b := Contains(s[1..], t);
      assert b ==> exists i :: OccursAt(s, t, i) by {
        if b {
          var j :| OccursAt(s[1..], t, j);
          assert s[1..][j..j + |t|] == s[j + 1..j + 1 + |t|];
          assert OccursAt(s, t, j + 1);
        }
      }
      assert (exists i :: OccursAt(s, t, i)) ==> b by {
        if exists i :: OccursAt(s, t, i) {
          var i :| OccursAt(s, t, i);
          assert i != 0;
          assert s[1..][i - 1..i - 1 + |t|] == s[i..i + |t|];
          assert OccursAt(s[1..], t, i - 1);
        }
      }
      b
  }

  /** Any prefix of an occurring string occurs too. */
  lemma ContainsPrefix(s: string, t: string, n: nat)
    requires Contains(s, t)
    ensures Contains(s, Prefix(t, n))
  {
    var i :| OccursAt(s, t, i);
    var p := Prefix(t, n);
    assert s[i..i + |p|] == p;
    assert OccursAt(s, p, i);
  }

  lemma ContainsSelf(s: string)
    ensures Contains(s, s)
  {
    assert OccursAt(s, s, 0);
  }

  /** A stretch of `s` that starts and ends with a non-space character lies inside
      any whitespace-bounded core of `s`. */
  lemma CoreKeepsInterior(s: string, r: string, k: int, t: string, m: int)
    requires CoreAt(s, r, k) && OccursAt(s, t, m)
    requires t != [] && !IsSpace(t[0]) && !IsSpace(t[|t| - 1])
    ensures OccursAt(r, t, m - k)
  {
    assert s[m] == t[0] && s[m + |t| - 1] == t[|t| - 1];
    assert k <= m && m + |t| <= k + |r|;
    var seg := r[m - k..m - k + |t|];
    assert forall j :: 0 <= j < |t| ==> seg[j] == s[m + j] == t[j];
  }

  /** `trim` only removes whitespace at the ends, so such a stretch survives it. */
  lemma TrimKeepsInterior(s: string, t: string, m: int)
    requires OccursAt(s, t, m)
    requires t != [] && !IsSpace(t[0]) && !IsSpace(t[|t| - 1])
    ensures Contains(Trim(s), t)
  {
    var r := Trim(s);
    var k :| CoreAt(s, r, k);
    CoreKeepsInterior(s, r, k, t, m);
  }

  /** A piece `t` of `c` at offset `i` occurs in `x + c + y` at offset `|x| + i`. */
  lemma EmbeddedOccurrence(x: string, c: string, y: string, t: string, i: int)
    requires OccursAt(c, t, i)
    ensures OccursAt(x + c + y, t, |x| + i)
  {
    var s := x + c + y;
    var seg := s[|x| + i..|x| + i + |t|];
    assert forall j :: 0 <= j < |t| ==> seg[j] == c[i + j] == t[j];
  }

  /** The trimmed form of a piece of `x + c + y` occurs in the trimmed whole. */
  lemma TrimOfEmbedded(x: string, c: string, y: string)
    ensures Contains(Trim(x + c + y), Trim(c))
  {
    var t := Trim(c);
    if t == [] {
      ContainsEmpty(Trim(x + c + y));
    } else {
      var i :| CoreAt(c, t, i);
      TrimEnds(c);
      assert OccursAt(c, t, i);
      EmbeddedOccurrence(x, c, y, t, i);
      TrimKeepsInterior(x + c + y, t, |x| + i);
    }
  }

  lemma ContainsEmpty(s: string)
    ensures Contains(s, [])
  {
    assert OccursAt(s, [], 0);
  }

  /** Strings that agree letter for letter up to case have the same lower-case form. */
  lemma ToLowerCaseless(a: string, b: string)
    requires |a| == |b|
    requires forall k :: 0 <= k < |a| ==> LowerChar(a[k]) == LowerChar(b[k])
    ensures ToLower(a) == ToLower(b)
  {
  }

  lemma ToLowerKeepsLowerCase(s: string)
    requires forall k :: 0 <= k < |s| ==> !IsUpper(s[k])
    ensures ToLower(s) == s
  {
  }

  lemma TrimKeepsCore(s: string)
    requires |s| > 0 && !IsSpace(s[0]) && !IsSpace(s[|s| - 1])
    ensures Trim(s) == s
  {
  }
}
