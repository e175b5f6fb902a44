/**
 * The few PHP runtime behaviours the material-reference core leans on:
 * `null`, `empty()` / truthiness of strings, `trim()` and ASCII-only
 * `strtolower()` / `ucfirst()`. Those two are ASCII-only in every locale
 * from PHP 8.2; earlier versions follow LC_CTYPE and are ASCII-only in the
 * default "C" locale, which is the case modelled here.
 */
module Php {

  /** A PHP value that may be `null`. */
  datatype Option<+T> = None | Some(value: T)

  /** `empty($s)` for a string: true for "" and for "0". */
  predicate IsEmpty(s: string)
  {
    s == "" || s == "0"
  }

  /** `if ($x)` for a string-or-null value. */
  predicate Truthy(x: Option<string>)
  {
    x.Some? && !IsEmpty(x.value)
  }

  /** The characters `trim()` removes by default: " \t\n\r\0\x0B". */
  predicate IsTrimmed(c: char)
  {
    c == ' ' || c == '\t' || c == '\n' || c == '\r' || c == '\0' || c == '\U{000B}'
  }

  function TrimStart(s: string): (r: string)
    ensures |r| <= |s| && r == s[|s| - |r|..]
    ensures forall i :: 0 <= i < |s| - |r| ==> IsTrimmed(s[i])
    ensures r == [] || !IsTrimmed(r[0])
  {
    if |s| > 0 && IsTrimmed(s[0]) then TrimStart(s[1..]) else s
  }

  function TrimEnd(s: string): (r: string)
    ensures |r| <= |s| && r == s[..|r|]
    ensures forall i :: |r| <= i < |s| ==> IsTrimmed(s[i])
    ensures r == [] || !IsTrimmed(r[|r| - 1])
  {
    if |s| > 0 && IsTrimmed(s[|s| - 1]) then TrimEnd(s[..|s| - 1]) else s
  }

  /** PHP `trim($s)`. */
  function Trim(s: string): (r: string)
    ensures r == [] || (!IsTrimmed(r[0]) && !IsTrimmed(r[|r| - 1]))
    ensures |r| <= |s|
    ensures (forall i :: 0 <= i < |s| ==> !IsTrimmed(s[i])) ==> r == s
  {
    TrimEnd(TrimStart(s))
  }

  /** A prefix `r` of a suffix `t` of `s` is the slice of `s` between them. */
  lemma PrefixOfSuffix(s: string, t: string, r: string)
    requires |t| <= |s| && t == s[|s| - |t|..]
    requires |r| <= |t| && r == t[..|r|]
    ensures r == s[|s| - |t|..|s| - |t| + |r|]
    ensures forall i :: |s| - |t| + |r| <= i < |s| ==> s[i] == t[i - (|s| - |t|)]
  {
  }

  /** `r` is the slice of `s` at `k` with only the characters of its list on either side. */
  predicate TrimmedSlice(s: string, k: nat, r: string)
  {
    k + |r| <= |s| && r == s[k..k + |r|] &&
    (forall i :: 0 <= i < k ==> IsTrimmed(s[i])) &&
    (forall i :: k + |r| <= i < |s| ==> IsTrimmed(s[i]))
  }

  /** `trim()` removes only the characters of its list, and only at the two
      ends: the result is the middle slice of `s` that starts where
      `TrimStart` stopped. */
  lemma TrimKeepsMiddle(s: string)
    ensures TrimmedSlice(s, |s| - |TrimStart(s)|, Trim(s))
  {
    var t := TrimStart(s);
    var r := TrimEnd(t);
    assert Trim(s) == r;
    EndsTrimmed(s, t, r);
  }

  lemma EndsTrimmed(s: string, t: string, r: string)
    requires |t| <= |s| && t == s[|s| - |t|..]
    requires forall i :: 0 <= i < |s| - |t| ==> IsTrimmed(s[i])
    requires |r| <= |t| && r == t[..|r|]
    requires forall i :: |r| <= i < |t| ==> IsTrimmed(t[i])
    ensures TrimmedSlice(s, |s| - |t|, r)
  {
    var k := |s| - |t|;
    PrefixOfSuffix(s, t, r);
    forall i | k + |r| <= i < |s|
      ensures IsTrimmed(s[i])
    {
      assert s[i] == t[i - k];
    }
  }

  /** `empty()` holds of exactly two strings, so every string of two or more
      characters is truthy and `null` never is. */
  lemma EmptyIsShort(s: string)
    ensures IsEmpty(s) <==> |s| == 0 || (|s| == 1 && s[0] == '0')
    ensures |s| >= 2 ==> Truthy(Some(s))
    ensures !Truthy(None)
  {
    if |s| == 1 && s[0] == '0' {
      assert s == "0";
    }
  }

  predicate IsUpper(c: char) { 'A' <= c <= 'Z' }
  predicate IsLower(c: char) { 'a' <= c <= 'z' }
  predicate IsDigit(c: char) { '0' <= c <= '9' }
  predicate IsAsciiAlnum(c: char) { IsUpper(c) || IsLower(c) || IsDigit(c) }
  predicate IsAscii(c: char) { c < '\U{0080}' }

  function LowerChar(c: char): char
  {
    if IsUpper(c) then (c as int + 32) as char else c
  }

  function UpperChar(c: char): char
  {
    if IsLower(c) then (c as int - 32) as char else c
  }

  /** `strtolower`: PHP 8 maps only the ASCII letters A-Z. */
  function AsciiLower(s: string): (r: string)
    ensures |r| == |s|
    ensures forall i :: 0 <= i < |s| ==> r[i] == LowerChar(s[i])
  {
    if s == [] then [] else [LowerChar(s[0])] + AsciiLower(s[1..])
  }

  lemma {:induction false} AsciiLowerConcat(a: string, b: string)
    ensures AsciiLower(a + b) == AsciiLower(a) + AsciiLower(b)
  {
    var ab, la, lb := a + b, AsciiLower(a), AsciiLower(b);
    var x, y := AsciiLower(ab), la + lb;
    forall i | 0 <= i < |ab| ensures x[i] == y[i] {
      if i < |a| {
        assert ab[i] == a[i] && y[i] == la[i];
      } else {
        assert ab[i] == b[i - |a|] && y[i] == lb[i - |a|];
      }
    }
    assert |x| == |y|;
  }
}
