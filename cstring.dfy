/** Character and string primitives of datastructure.c: ASCII `tolower`, the
    in-place `strtolower`, and the equality test `strcasecmp(a, b) == 0`. */
module CString {
  import opened Common

  predicate IsUpper(c: char) { 'A' <= c <= 'Z' }

  /** `tolower` in the C locale: upper-case ASCII letters map to lower case,
      every other character is left alone. */
  function ToLower(c: char): char
  {
    if IsUpper(c) then (c as int + 32) as char else c
  }

  /** The string `strtolower` leaves behind: every character through `ToLower`. */
  function LowerStr(s: string): (r: string)
    ensures |r| == |s|
  {
    if s == [] then [] else [ToLower(s[0])] + LowerStr(s[1..])
  }

  lemma {:induction false} LowerStrAt(s: string, k: nat)
    requires k < |s|
    ensures LowerStr(s)[k] == ToLower(s[k])
  {
    if k > 0 {
      LowerStrAt(s[1..], k - 1);
    }
  }

  /** A string with no upper-case letter is left unchanged. */
  lemma {:induction false} LowerStrKeepsNonUpper(s: string)
    requires forall k :: 0 <= k < |s| ==> !IsUpper(s[k])
    ensures LowerStr(s) == s
  {
    if s != [] {
      LowerStrKeepsNonUpper(s[1..]);
    }
  }

  /** The result holds no upper-case letter. */
  lemma LowerStrHasNoUpper(s: string)
    ensures forall k :: 0 <= k < |s| ==> !IsUpper(LowerStr(s)[k])
  {
    forall k | 0 <= k < |s| ensures !IsUpper(LowerStr(s)[k]) {
      LowerStrAt(s, k);
    }
  }

  /** Lower-casing twice is lower-casing once. */
  lemma LowerStrIdempotent(s: string)
    ensures LowerStr(LowerStr(s)) == LowerStr(s)
  {
    LowerStrHasNoUpper(s);
    LowerStrKeepsNonUpper(LowerStr(s));
  }

  /** `strcasecmp(a, b) == 0`: the two strings are equal once both are
      lower-cased. */
  predicate CaseEq(a: string, b: string)
  {
    LowerStr(a) == LowerStr(b)
  }

  /** Case-insensitive equality compares character by character: same
      length, and `tolower` agrees at every position. */
  lemma CaseEqPointwise(a: string, b: string)
    ensures CaseEq(a, b) <==> |a| == |b| && forall k :: 0 <= k < |a| ==> ToLower(a[k]) == ToLower(b[k])
  {
    if |a| == |b| {
      forall k | 0 <= k < |a| ensures LowerStr(a)[k] == ToLower(a[k]) && LowerStr(b)[k] == ToLower(b[k]) {
        LowerStrAt(a, k);
        LowerStrAt(b, k);
      }
    }
  }

  /** Length of the NUL-terminated string held in `s`. */
  function CLength(s: seq<char>): (n: nat)
    requires '\0' in s
    ensures n < |s| && s[n] == '\0' && forall k :: 0 <= k < n ==> s[k] != '\0'
  {
    Find(s, '\0')
  }

  /** `strtolower(str)`: lower-cases, in place, every character before the
      terminating NUL and touches nothing from the NUL on. */
  method StrToLower(str: array<char>)
    requires '\0' in str[..]
    modifies str
    ensures var n := CLength(old(str[..]));
      str[..n] == LowerStr(old(str[..n])) && str[n..] == old(str[n..])
  {
    ghost var n := CLength(str[..]);
    var i := 0;
    while str[i] != '\0'
      invariant 0 <= i <= n
      invariant forall k :: 0 <= k < i ==> str[k] == ToLower(old(str[k]))
      invariant forall k :: i <= k < str.Length ==> str[k] == old(str[k])
      decreases n - i
    {
      str[i] := ToLower(str[i]);
      i := i + 1;
    }
    forall k | 0 <= k < n ensures str[..n][k] == LowerStr(old(str[..n]))[k] {
      LowerStrAt(old(str[..n]), k);
    }
  }
}
