/**
 * Text primitives shared by the editor's string rewrites: the white-space
 * class of JavaScript regular expressions and `String.prototype.trim`,
 * ASCII case folding as the `i` flag applies it, prefix and search helpers,
 * and decimal digits.
 */
module Wrappers {
  datatype Option<+T> = None | Some(value: T)
}

module JsText {
  import opened Wrappers

  /** The characters JavaScript's `\s` class matches and `trim` removes
      (WhiteSpace and LineTerminator of ECMA-262). */
  predicate IsSpace(c: char) {
    c == ' ' || c == '\t' || c == '\n' || c == '\U{B}' || c == '\U{C}' || c == '\r' ||
    c == '\U{A0}' || c == '\U{1680}' || ('\U{2000}' <= c <= '\U{200A}') ||
    c == '\U{2028}' || c == '\U{2029}' || c == '\U{202F}' || c == '\U{205F}' ||
    c == '\U{3000}' || c == '\U{FEFF}'
  }

  predicate IsDigit(c: char) {
    '0' <= c <= '9'
  }

  predicate IsAsciiLetter(c: char) {
    'a' <= c <= 'z' || 'A' <= c <= 'Z'
  }

  /** Case folding of a regular expression with the `i` flag and no `u` flag:
      only ASCII letters fold onto ASCII letters. */
  function Lower(c: char): (r: char)
    ensures IsAsciiLetter(c) ==> 'a' <= r <= 'z'
    ensures !('A' <= c <= 'Z') ==> r == c
  {
    if 'A' <= c <= 'Z' then (c as int + 32) as char else c
  }

  /** `s` begins with `p`, letters compared without regard to case. */
  predicate StartsWithCI(s: seq<char>, p: seq<char>) {
    |p| <= |s| && forall i :: 0 <= i < |p| ==> Lower(s[i]) == Lower(p[i])
  }

  lemma StartsWithCIAppend(s: seq<char>, t: seq<char>, p: seq<char>)
    requires StartsWithCI(s, p)
    ensures StartsWithCI(s + t, p)
  {
  }

  /** Length of the longest prefix of white space. */
  function SpanSpaces(s: seq<char>): (n: nat)
    ensures n <= |s|
    ensures forall i :: 0 <= i < n ==> IsSpace(s[i])
    ensures n == |s| || !IsSpace(s[n])
  {
    if s == [] || !IsSpace(s[0]) then 0 else 1 + SpanSpaces(s[1..])
  }

  /** No white space at position `k`: the run of white space there is empty. */
  lemma NoLeadingSpace(s: seq<char>, k: nat)
    requires k < |s| && !IsSpace(s[k])
    ensures SpanSpaces(s[k..]) == 0
  {
    assert s[k..][0] == s[k];
  }

  /** Length of the longest prefix of ASCII digits (JavaScript's `\d`). */
  function SpanDigits(s: seq<char>): (n: nat)
    ensures n <= |s|
    ensures forall i :: 0 <= i < n ==> IsDigit(s[i])
    ensures n == |s| || !IsDigit(s[n])
  {
    if s == [] || !IsDigit(s[0]) then 0 else 1 + SpanDigits(s[1..])
  }

  /** Length of the longest prefix of ASCII letters. */
  function SpanLetters(s: seq<char>): (n: nat)
    ensures n <= |s|
    ensures forall i :: 0 <= i < n ==> IsAsciiLetter(s[i])
    ensures n == |s| || !IsAsciiLetter(s[n])
  {
    if s == [] || !IsAsciiLetter(s[0]) then 0 else 1 + SpanLetters(s[1..])
  }

  /** Length of the longest prefix matching `[^\s>]`. */
  function SpanUnquotedValue(s: seq<char>): (n: nat)
    ensures n <= |s|
    ensures forall i :: 0 <= i < n ==> !IsSpace(s[i]) && s[i] != '>'
    ensures n == |s| || IsSpace(s[n]) || s[n] == '>'
  {
    if s == [] || IsSpace(s[0]) || s[0] == '>' then 0 else 1 + SpanUnquotedValue(s[1..])
  }

  /** Index of the first occurrence of `c`, if any. */
  function IndexOf(s: seq<char>, c: char): (r: Option<nat>)
    ensures r.Some? ==> r.value < |s| && s[r.value] == c && c !in s[..r.value]
    ensures r.None? ==> c !in s
  {
    if s == [] then None
    else if s[0] == c then Some(0)
    else match IndexOf(s[1..], c)
      case None => None
      case Some(i) => assert s[..i + 1] == [s[0]] + s[1..][..i]; Some(i + 1)
  }

  /** Index of the first place where `p` starts (case-insensitively), if any:
      what a lazy `[\s\S]*?` followed by the literal `p` stops at. */
  function FindCI(s: seq<char>, p: seq<char>): (r: Option<nat>)
    ensures r.Some? ==> r.value + |p| <= |s| && StartsWithCI(s[r.value..], p)
    ensures r.Some? ==> forall i :: 0 <= i < r.value ==> !StartsWithCI(s[i..], p)
    ensures r.None? ==> forall i :: 0 <= i <= |s| ==> !StartsWithCI(s[i..], p)
    decreases |s|
  {
    if StartsWithCI(s, p) then Some(0)
    else if s == [] then None
    else match FindCI(s[1..], p)
      case None => NotFoundInTail(s, p); None
      case Some(i) => FoundInTail(s, p, i); Some(i + 1)
  }

  lemma NotFoundInTail(s: seq<char>, p: seq<char>)
    requires s != [] && !StartsWithCI(s, p)
    requires forall i :: 0 <= i <= |s| - 1 ==> !StartsWithCI(s[1..][i..], p)
    ensures forall i :: 0 <= i <= |s| ==> !StartsWithCI(s[i..], p)
  {
    forall i | 1 <= i <= |s| ensures !StartsWithCI(s[i..], p) {
      assert s[i..] == s[1..][i - 1..];
    }
  }

  lemma FoundInTail(s: seq<char>, p: seq<char>, i: nat)
    requires s != [] && !StartsWithCI(s, p)
    requires i + |p| <= |s| - 1 && StartsWithCI(s[1..][i..], p)
    requires forall j :: 0 <= j < i ==> !StartsWithCI(s[1..][j..], p)
    ensures StartsWithCI(s[i + 1..], p)
    ensures forall j :: 0 <= j < i + 1 ==> !StartsWithCI(s[j..], p)
  {
    assert s[i + 1..] == s[1..][i..];
    forall j | 1 <= j < i + 1 ensures !StartsWithCI(s[j..], p) {
      assert s[j..] == s[1..][j - 1..];
    }
  }

  /** `p` occurs in `s` starting at index `i`. */
  predicate OccursAt(s: seq<char>, p: seq<char>, i: nat) {
    i + |p| <= |s| && s[i..i + |p|] == p
  }

  /** `s` contains `p` as a contiguous piece (`String.prototype.includes`). */
  predicate Contains(s: seq<char>, p: seq<char>) {
    exists i | 0 <= i <= |s| :: OccursAt(s, p, i)
  }

  // ---------------------------------------------------------------------
  // Trimming (`String.prototype.trim`)
  // ---------------------------------------------------------------------

  function TrimStart(s: seq<char>): (r: seq<char>)
    ensures r == s[SpanSpaces(s)..]
  {
    s[SpanSpaces(s)..]
  }

  function TrimEnd(s: seq<char>): (r: seq<char>)
    ensures |r| <= |s| && r == s[..|r|]
    ensures r == [] || !IsSpace(r[|r| - 1])
    ensures forall i :: |r| <= i < |s| ==> IsSpace(s[i])
  {
    if s == [] || !IsSpace(s[|s| - 1]) then s else TrimEnd(s[..|s| - 1])
  }

  function Trim(s: seq<char>): (r: seq<char>)
  {
    TrimEnd(TrimStart(s))
  }

  lemma TrimShape(s: seq<char>)
    ensures var r := Trim(s); r == [] || (!IsSpace(r[0]) && !IsSpace(r[|r| - 1]))
    ensures Contains(s, Trim(s))
  {
    var t := TrimStart(s);
    var r := TrimEnd(t);
    var a := SpanSpaces(s);
    assert OccursAt(s, r, a);
  }

  /** Trimming a text that neither begins nor ends with white space gives it back. */
  lemma {:induction false} TrimUntrimmed(s: seq<char>)
    requires s == [] || (!IsSpace(s[0]) && !IsSpace(s[|s| - 1]))
    ensures Trim(s) == s
  {
  }

  lemma TrimIdempotent(s: seq<char>)
    ensures Trim(Trim(s)) == Trim(s)
  {
    TrimShape(s);
    TrimUntrimmed(Trim(s));
  }

  /** A text whose first character is not white space keeps, after trimming,
      every prefix that ends in a character that is not white space. */
  lemma {:induction false} TrimKeepsPrefix(p: seq<char>, u: seq<char>)
    requires p != [] && !IsSpace(p[0]) && !IsSpace(p[|p| - 1])
    ensures |p| <= |Trim(p + u)| && Trim(p + u)[..|p|] == p
  {
    var s := p + u;
    assert SpanSpaces(s) == 0;
    assert TrimStart(s) == s;
    var r := TrimEnd(s);
    assert !IsSpace(s[|p| - 1]);
    assert |p| <= |r|;
    assert r == s[..|r|];
    assert r[..|p|] == s[..|p|] == p;
  }

  // ---------------------------------------------------------------------
  // Decimal numbers
  // ---------------------------------------------------------------------

  predicate AllDigits(d: seq<char>) {
    forall i :: 0 <= i < |d| ==> IsDigit(d[i])
  }

  function DigitValue(c: char): (v: nat)
    requires IsDigit(c)
    ensures v < 10
  {
    c as int - '0' as int
  }

  function DigitChar(v: nat): (c: char)
    requires v < 10
    ensures IsDigit(c) && DigitValue(c) == v
  {
    ('0' as int + v) as char
  }

  /** The value of a run of decimal digits (what `parseInt(d, 10)` gives for it). */
  function DigitsValue(d: seq<char>): nat
    requires AllDigits(d)
  {
    if d == [] then 0 else 10 * DigitsValue(d[..|d| - 1]) + DigitValue(d[|d| - 1])
  }

  /** Decimal notation of a natural number, without leading zeros. */
  function NatToString(n: nat): (r: seq<char>)
    ensures |r| >= 1 && AllDigits(r)
  {
    if n < 10 then [DigitChar(n)] else NatToString(n / 10) + [DigitChar(n % 10)]
  }

  /** Reading back the decimal notation gives the number, and the notation
      has no leading zero. */
  lemma {:induction false} NatToStringRoundTrip(n: nat)
    ensures DigitsValue(NatToString(n)) == n
    ensures NatToString(n)[0] == '0' <==> n == 0
  {
    if n >= 10 {
      NatToStringRoundTrip(n / 10);
      var r := NatToString(n);
      assert r[..|r| - 1] == NatToString(n / 10);
      assert r[0] == NatToString(n / 10)[0];
    }
  }

  /** Decimal notation of an integer (JavaScript's number-to-string for integers). */
  function IntToString(n: int): (r: seq<char>)
    ensures n >= 0 ==> r == NatToString(n)
    ensures n < 0 ==> r == ['-'] + NatToString(-n)
  {
    if n < 0 then ['-'] + NatToString(-n) else NatToString(n)
  }

  /** `s` left-padded with `pad` to at least `width` characters. */
  function PadLeft(s: seq<char>, width: nat, pad: char): (r: seq<char>)
    ensures |r| == if |s| < width then width else |s|
    ensures r[|r| - |s|..] == s
    ensures forall i :: 0 <= i < |r| - |s| ==> r[i] == pad
    decreases width - |s|
  {
    if |s| < width then
      var r := PadLeft([pad] + s, width, pad);
      PaddedOnce(r, s, pad);
      r
    else s
  }

  /** Text ending in `pad` followed by `s`, with only `pad` before that, ends
      in `s` with only `pad` before it. */
  lemma PaddedOnce(r: seq<char>, s: seq<char>, pad: char)
    requires |s| + 1 <= |r| && r[|r| - (|s| + 1)..] == [pad] + s
    requires forall i :: 0 <= i < |r| - (|s| + 1) ==> r[i] == pad
    ensures r[|r| - |s|..] == s
    ensures forall i :: 0 <= i < |r| - |s| ==> r[i] == pad
  {
    var k := |r| - (|s| + 1);
    assert r[k] == r[k..][0] == pad;
    assert r[k + 1..] == r[k..][1..];
  }
}
