/**
 * The string primitives the log scanner relies on: `str.lower()`, `str.strip()`
 * and the substring test `k in s` of Python, stated over `string` (a `seq<char>`).
 *
 * Lower-casing is modelled on ASCII only ('A'..'Z' become 'a'..'z'); whitespace
 * for stripping is Python's `str.isspace()` set.
 */
module Text {

  // ---------------------------------------------------------------------------
  // Case folding
  // ---------------------------------------------------------------------------

  predicate IsUpper(c: char) {
    'A' <= c <= 'Z'
  }

  /** `c.lower()` for one character, ASCII letters only. */
  function LowerChar(c: char): (r: char)
    ensures !IsUpper(r)
    ensures IsUpper(c) || r == c
    ensures IsUpper(c) ==> 'a' <= r <= 'z' && r as int - 'a' as int == c as int - 'A' as int
    ensures IsSpace(r) == IsSpace(c)
  {
    if IsUpper(c) then (c as int + 32) as char else c
  }

  /** `s.lower()`: every character is lower-cased, nothing else changes. */
  function ToLower(s: string): (r: string)
    ensures |r| == |s|
    ensures forall i {:trigger r[i]} :: 0 <= i < |s| ==> r[i] == LowerChar(s[i])
  {
    if s == [] then [] else [LowerChar(s[0])] + ToLower(s[1..])
  }

  /** Two strings that differ at most in the case of their letters. */
  ghost predicate SameIgnoringCase(a: string, b: string) {
    && |a| == |b|
    && forall i {:trigger LowerChar(a[i]), LowerChar(b[i])} :: 0 <= i < |a| ==> LowerChar(a[i]) == LowerChar(b[i])
  }

  /** Lower-casing forgets exactly the case of the letters. */
  lemma ToLowerIgnoresCase(a: string, b: string)
    ensures SameIgnoringCase(a, b) <==> ToLower(a) == ToLower(b)
  {
    if ToLower(a) == ToLower(b) {
      forall i | 0 <= i < |a| ensures LowerChar(a[i]) == LowerChar(b[i]) {
        assert ToLower(a)[i] == ToLower(b)[i];
      }
    }
  }

  /** `s` has no capital letter. */
  ghost predicate NoUpper(s: string) {
    forall i :: 0 <= i < |s| ==> !IsUpper(s[i])
  }

  /** A string without capitals is its own lower-case form. */
  lemma ToLowerOfLower(s: string)
    requires NoUpper(s)
    ensures ToLower(s) == s
  {
    assert forall i :: 0 <= i < |s| ==> ToLower(s)[i] == s[i];
  }

  /** Lower-casing a concatenation lower-cases each part. */
  lemma ToLowerConcat(a: string, b: string)
    ensures ToLower(a + b) == ToLower(a) + ToLower(b)
  {
    assert forall i :: 0 <= i < |a + b| ==> ToLower(a + b)[i] == (ToLower(a) + ToLower(b))[i];
  }

  // ---------------------------------------------------------------------------
  // Whitespace and stripping
  // ---------------------------------------------------------------------------

  /**
   * `c.isspace()`: the ASCII controls \t \n \v \f \r, the separators
   * U+001C..U+001F, the space, and the Unicode spaces U+0085, U+00A0,
   * U+1680, U+2000..U+200A, U+2028, U+2029, U+202F, U+205F, U+3000.
   */
  predicate IsSpace(c: char) {
    var n := c as int;
    (9 <= n <= 13) || (28 <= n <= 32) || n == 0x85 || n == 0xA0 || n == 0x1680
    || (0x2000 <= n <= 0x200A) || n == 0x2028 || n == 0x2029 || n == 0x202F
    || n == 0x205F || n == 0x3000
  }

  /** Every character of `s` in `[a, b)` is whitespace. */
  ghost predicate SpaceBetween(s: string, a: int, b: int) {
    forall j :: a <= j < b && 0 <= j < |s| ==> IsSpace(s[j])
  }

  /** Number of whitespace characters at the front of `s`. */
  function LeadingSpace(s: string): (n: nat)
    ensures n <= |s|
    ensures SpaceBetween(s, 0, n)
    ensures n < |s| ==> !IsSpace(s[n])
  {
    if s != [] && IsSpace(s[0]) then
      assert forall j :: 1 <= j < |s| ==> s[1..][j - 1] == s[j];
      LeadingSpace(s[1..]) + 1
    else
      0
  }

  /** Number of whitespace characters at the end of `s`. */
  function TrailingSpace(s: string): (n: nat)
    ensures n <= |s|
    ensures SpaceBetween(s, |s| - n, |s|)
    ensures n < |s| ==> !IsSpace(s[|s| - n - 1])
  {
    if s != [] && IsSpace(s[|s| - 1]) then
      assert forall j :: 0 <= j < |s| - 1 ==> s[..|s| - 1][j] == s[j];
      TrailingSpace(s[..|s| - 1]) + 1
    else
      0
  }

  /**
   * `r` is `s` with its leading and trailing whitespace removed, `r` sitting
   * at offset `i` of `s`.
   */
  ghost predicate StrippedAt(s: string, r: string, i: int) {
    0 <= i && i + |r| <= |s| && r == s[i..i + |r|]
    && SpaceBetween(s, 0, i) && SpaceBetween(s, i + |r|, |s|)
    && (r != [] ==> !IsSpace(r[0]) && !IsSpace(r[|r| - 1]))
  }

  ghost predicate IsStripOf(s: string, r: string) {
    exists i :: StrippedAt(s, r, i)
  }

  /**
   * `s.strip()`: the leading whitespace goes first, then the trailing
   * whitespace of what is left; a string of whitespace only becomes empty.
   */
  function Strip(s: string): (r: string)
    ensures IsStripOf(s, r)
  {
    var a := LeadingSpace(s);
    var e := |s| - TrailingSpace(s);
    if e <= a then
      assert StrippedAt(s, [], a);
      []
    else
      assert StrippedAt(s, s[a..e], a);
      s[a..e]
  }

  /** The stripped form of a string is unique: `IsStripOf` specifies `Strip`. */
  lemma StripUnique(s: string, r1: string, r2: string)
    requires IsStripOf(s, r1) && IsStripOf(s, r2)
    ensures r1 == r2
  {
    var i1 :| StrippedAt(s, r1, i1);
    var i2 :| StrippedAt(s, r2, i2);
    if r1 != [] {
      StripBounds(s, r1, i1);
    }
    if r2 != [] {
      StripBounds(s, r2, i2);
    }
  }

  /** A non-empty stripped form runs from the first to the last non-whitespace character. */
  lemma StripBounds(s: string, r: string, i: int)
    requires StrippedAt(s, r, i) && r != []
    ensures i == LeadingSpace(s)
    ensures i + |r| == |s| - TrailingSpace(s)
  {
    assert s[i] == r[0] && s[i + |r| - 1] == r[|r| - 1];
  }

  /** The line is its leading whitespace, its stripped form and its trailing whitespace. */
  lemma StrippedSplits(s: string, r: string, i: int)
    requires StrippedAt(s, r, i)
    ensures s == s[..i] + r + s[i + |r|..]
  {
    assert s == s[..i] + s[i..i + |r|] + s[i + |r|..];
  }

  /** Stripping twice is stripping once. */
  lemma StripIdempotent(s: string)
    ensures Strip(Strip(s)) == Strip(s)
  {
    var r := Strip(s);
    var i :| StrippedAt(s, r, i);
    assert r[..0] == [] && r[|r|..] == [];
    assert StrippedAt(r, r, 0);
    StripUnique(r, r, Strip(r));
  }

  // ---------------------------------------------------------------------------
  // Substring search
  // ---------------------------------------------------------------------------

  /** `k` occurs in `s` starting at index `i`. */
  ghost predicate OccursAt(k: string, s: string, i: int) {
    0 <= i && i + |k| <= |s| && s[i..i + |k|] == k
  }

  /** Python's `k in s` on strings: a left-to-right search for `k` as a contiguous substring. */
  function Occurs(k: string, s: string): (r: bool)
    ensures r <==> exists i :: OccursAt(k, s, i)
    decreases |s|
  {
    if |s| < |k| then
      false
    else if s[..|k|] == k then
      assert OccursAt(k, s, 0);
      true
    else
      OccursShift(k, s);
      Occurs(k, s[1..])
  }

  /** Past a mismatch at the front, the occurrences of `k` in `s` are those in `s[1..]`, shifted by one. */
  lemma OccursShift(k: string, s: string)
    requires |k| <= |s| && s[..|k|] != k
    ensures (exists i :: OccursAt(k, s, i)) <==> (exists i :: OccursAt(k, s[1..], i))
  {
    if i :| OccursAt(k, s, i) {
      assert i != 0;
      assert s[1..][i - 1..i - 1 + |k|] == s[i..i + |k|];
      assert OccursAt(k, s[1..], i - 1);
    }
    if i :| OccursAt(k, s[1..], i) {
      assert s[1..][i..i + |k|] == s[i + 1..i + 1 + |k|];
      assert OccursAt(k, s, i + 1);
    }
  }

  /** `any(k in s for k in keywords)`, tried in list order. */
  function AnyOccurs(keywords: seq<string>, s: string): (r: bool)
    ensures r <==> exists j :: 0 <= j < |keywords| && Occurs(keywords[j], s)
  {
    if keywords == [] then
      false
    else if Occurs(keywords[0], s) then
      true
    else
      assert forall j :: 1 <= j < |keywords| ==> keywords[1..][j - 1] == keywords[j];
      AnyOccurs(keywords[1..], s)
  }

  /** `k` laid over `u` from offset `d` on agrees with `u` wherever the two overlap. */
  ghost predicate AgreesAt(k: string, u: string, d: int) {
    forall t :: 0 <= t < |k| && 0 <= d + t < |u| ==> k[t] == u[d + t]
  }

  /**
   * When `k` agrees with `u` at no offset where the two overlap, `k` can only
   * be found in `p + u + q` inside `p` or inside `q`.
   */
  lemma OccursAround(k: string, p: string, u: string, q: string)
    requires forall d :: -|k| < d < |u| ==> !AgreesAt(k, u, d)
    ensures Occurs(k, p + u + q) <==> Occurs(k, p) || Occurs(k, q)
  {
    var s := p + u + q;
    if Occurs(k, s) {
      var i :| OccursAt(k, s, i);
      OccurrenceBesideMiddle(k, p, u, q, i);
    }
    if Occurs(k, p) {
      var i :| OccursAt(k, p, i);
      OccursAtBefore(k, p, u, i);
      OccursAtBefore(k, p + u, q, i);
    }
    if Occurs(k, q) {
      var i :| OccursAt(k, q, i);
      OccursAtAfter(k, p + u, q, i);
    }
  }

  /** An occurrence in `a` is one in `a + b`, at the same index. */
  lemma OccursAtBefore(k: string, a: string, b: string, i: int)
    requires OccursAt(k, a, i)
    ensures OccursAt(k, a + b, i)
  {
    assert (a + b)[i..i + |k|] == a[i..i + |k|];
  }

  /** An occurrence in `b` is one in `a + b`, shifted by the length of `a`. */
  lemma OccursAtAfter(k: string, a: string, b: string, i: int)
    requires OccursAt(k, b, i)
    ensures OccursAt(k, a + b, |a| + i)
  {
    assert (a + b)[|a| + i..|a| + i + |k|] == b[i..i + |k|];
  }

  /** An occurrence in `p + u + q` that cannot overlap `u` lies wholly in `p` or wholly in `q`. */
  lemma OccurrenceBesideMiddle(k: string, p: string, u: string, q: string, i: int)
    requires forall d :: -|k| < d < |u| ==> !AgreesAt(k, u, d)
    requires OccursAt(k, p + u + q, i)
    ensures OccursAt(k, p, i) || OccursAt(k, q, i - |p| - |u|)
  {
    var s := p + u + q;
    if i + |k| <= |p| {
      assert s[i..i + |k|] == p[i..i + |k|];
    } else if i >= |p| + |u| {
      var i' := i - |p| - |u|;
      assert s[i..i + |k|] == q[i'..i' + |k|];
    } else {
      var d := i - |p|;
      forall t | 0 <= t < |k| && 0 <= d + t < |u| ensures k[t] == u[d + t] {
        assert s[i..i + |k|][t] == s[i + t];
      }
      assert AgreesAt(k, u, d);
    }
  }

  /** `OccursAround` for every keyword of a list at once. */
  lemma AnyOccursAround(keywords: seq<string>, p: string, u: string, q: string)
    requires forall j, d :: 0 <= j < |keywords| && -|keywords[j]| < d < |u| ==> !AgreesAt(keywords[j], u, d)
    ensures AnyOccurs(keywords, p + u + q) <==> AnyOccurs(keywords, p) || AnyOccurs(keywords, q)
  {
    forall j | 0 <= j < |keywords|
      ensures Occurs(keywords[j], p + u + q) <==> Occurs(keywords[j], p) || Occurs(keywords[j], q)
    {
      OccursAround(keywords[j], p, u, q);
    }
  }

  /** A string always occurs in itself surrounded by anything. */
  lemma OccursInContext(p: string, k: string, q: string)
    ensures Occurs(k, p + k + q)
  {
    assert (p + k + q)[|p|..|p| + |k|] == k;
    assert OccursAt(k, p + k + q, |p|);
  }
}
