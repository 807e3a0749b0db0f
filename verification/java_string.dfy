/** The `java.lang.String` operations the vacancy record relies on: `trim`,
    `toLowerCase` and `compareTo`. */
module JavaString {

  /** `String.trim` strips every character whose code is at most U+0020. */
  predicate IsBlank(c: char) {
    c <= ' '
  }

  predicate AllBlank(s: string) {
    forall i :: 0 <= i < |s| ==> IsBlank(s[i])
  }

  /** Neither the first nor the last character is blank. */
  predicate NoEdgeBlank(s: string) {
    |s| == 0 || (!IsBlank(s[0]) && !IsBlank(s[|s| - 1]))
  }

  /** `t` is what is left of `s` once the blank run at each end is removed:
      `s` is some blanks, then `t`, then some blanks, and `t` has no blank edge. */
  predicate TrimmedOf(t: string, s: string) {
    && NoEdgeBlank(t)
    && exists i :: 0 <= i <= |s| - |t| && s[i..i + |t|] == t && AllBlank(s[..i]) && AllBlank(s[i + |t|..])
  }

  /** First index at or after `i` that holds a non-blank character, or `|s|`. */
  function SkipLeading(s: string, i: nat): (k: nat)
    requires i <= |s|
    ensures i <= k <= |s|
    ensures forall m :: i <= m < k ==> IsBlank(s[m])
    ensures k < |s| ==> !IsBlank(s[k])
    decreases |s| - i
  {
    if i < |s| && IsBlank(s[i]) then SkipLeading(s, i + 1) else i
  }

  /** Shortens the end `len` down to `st` while the last character is blank. */
  function SkipTrailing(s: string, st: nat, len: nat): (k: nat)
    requires st <= len <= |s|
    ensures st <= k <= len
    ensures forall m :: k <= m < len ==> IsBlank(s[m])
    ensures k > st ==> !IsBlank(s[k - 1])
    decreases len
  {
    if st < len && IsBlank(s[len - 1]) then SkipTrailing(s, st, len - 1) else len
  }

  /** `String.trim`. */
  function Trim(s: string): (t: string)
    ensures TrimmedOf(t, s)
  {
    var st := SkipLeading(s, 0);
    var len := SkipTrailing(s, st, |s|);
    var t := s[st..len];
    assert s[st..st + |t|] == t;
    assert AllBlank(s[..st]) by {
      forall m | 0 <= m < st ensures IsBlank(s[..st][m]) { assert s[..st][m] == s[m]; }
    }
    assert AllBlank(s[st + |t|..]) by {
      forall m | 0 <= m < |s| - len ensures IsBlank(s[len..][m]) { assert s[len..][m] == s[len + m]; }
    }
    t
  }

  /** Blanks around a string with no blank edge are exactly what `trim` removes. */
  lemma TrimPadded(before: string, t: string, after: string)
    requires AllBlank(before) && AllBlank(after) && NoEdgeBlank(t)
    ensures Trim(before + t + after) == t
  {
    var s := before + t + after;
    var st := SkipLeading(s, 0);
    if |t| == 0 {
      assert s == before + after;
      assert st == |s|;
    } else {
      assert s[|before|] == t[0];
      assert st == |before|;
      var len := SkipTrailing(s, st, |s|);
      var e := |before| + |t|;
      assert s[e - 1] == t[|t| - 1];
      assert len == e;
      assert s[st..len] == t;
    }
  }

  /** `TrimmedOf` pins its first argument down: it is the trim. */
  lemma TrimmedOfIsTrim(t: string, s: string)
    requires TrimmedOf(t, s)
    ensures t == Trim(s)
  {
    var i :| 0 <= i <= |s| - |t| && s[i..i + |t|] == t && AllBlank(s[..i]) && AllBlank(s[i + |t|..]);
    assert s == s[..i] + t + s[i + |t|..];
    TrimPadded(s[..i], t, s[i + |t|..]);
  }

  /** Trimming is idempotent. */
  lemma TrimIdempotent(s: string)
    ensures Trim(Trim(s)) == Trim(s)
  {
    var t := Trim(s);
    TrimNoEdgeBlank(t);
  }

  /** A string with no blank edge is its own trim. */
  lemma TrimNoEdgeBlank(s: string)
    requires NoEdgeBlank(s)
    ensures Trim(s) == s
  {
    if |s| > 0 {
      assert SkipLeading(s, 0) == 0;
      assert SkipTrailing(s, 0, |s|) == |s|;
    }
  }

  /** `Character.toLowerCase` restricted to ASCII: `A`..`Z` become `a`..`z`. */
  function LowerChar(c: char): (d: char)
    ensures 'A' <= c <= 'Z' ==> 'a' <= d <= 'z' && d as int - c as int == 32
    ensures !('A' <= c <= 'Z') ==> d == c
  {
    if 'A' <= c <= 'Z' then (c as int + 32) as char else c
  }

  function UpperChar(c: char): char {
    if 'a' <= c <= 'z' then (c as int - 32) as char else c
  }

  /** `String.toLowerCase`, character by character. */
  function ToLower(s: string): (r: string)
    ensures |r| == |s|
    ensures forall i :: 0 <= i < |s| ==> r[i] == LowerChar(s[i])
  {
    seq(|s|, i requires 0 <= i < |s| => LowerChar(s[i]))
  }

  /** Upper-casing of ASCII letters only. Java's `String.toUpperCase` also
      maps some non-ASCII letters to ASCII ones ('ſ' to 'S', 'ı' to 'I'),
      which this does not. */
  function ToUpper(s: string): (r: string)
    ensures |r| == |s|
    ensures forall i :: 0 <= i < |s| ==> r[i] == UpperChar(s[i])
  {
    seq(|s|, i requires 0 <= i < |s| => UpperChar(s[i]))
  }

  /** Case-insensitive equality of ASCII letters: equal length, and equal
      characters once both are folded to lower case. */
  predicate EqualsIgnoreCase(a: string, b: string) {
    |a| == |b| && forall i :: 0 <= i < |a| ==> LowerChar(a[i]) == LowerChar(b[i])
  }

  /** `String.compareTo`: the difference of the first pair of characters that
      differ, or else the difference of the lengths. */
  function CompareStrings(a: string, b: string): (r: int)
    ensures r == 0 <==> a == b
    decreases |a|
  {
    if |a| == 0 || |b| == 0 then |a| - |b|
    else if a[0] != b[0] then a[0] as int - b[0] as int
    else
      var r := CompareStrings(a[1..], b[1..]);
      assert a == [a[0]] + a[1..] && b == [b[0]] + b[1..];
      r
  }

  /** Swapping the operands negates the comparison. */
  lemma {:induction false} CompareStringsAntisymmetric(a: string, b: string)
    ensures CompareStrings(a, b) == -CompareStrings(b, a)
    decreases |a|
  {
    if |a| > 0 && |b| > 0 && a[0] == b[0] {
      CompareStringsAntisymmetric(a[1..], b[1..]);
    }
  }

  /** "Sorts before" is transitive. */
  lemma {:induction false} CompareStringsTransitive(a: string, b: string, c: string)
    requires CompareStrings(a, b) < 0 && CompareStrings(b, c) < 0
    ensures CompareStrings(a, c) < 0
    decreases |a|
  {
    if |a| > 0 && |b| > 0 && |c| > 0 && a[0] == b[0] && b[0] == c[0] {
      CompareStringsTransitive(a[1..], b[1..], c[1..]);
    }
  }
}
