/**
 * The regular-expression rewrites of the editor, one anchored matcher per
 * pattern, and the left-to-right scan that a global `String.prototype.replace`
 * performs with them.
 *
 * Each matcher answers: does the pattern match the text starting exactly at
 * its first character, and if so, how many characters does the match take
 * and what replaces them? The backtracking of each pattern has been worked
 * out by hand; where a pattern could in principle backtrack, the comment
 * says why backtracking never produces a different match.
 */
module Patterns {
  import opened Wrappers
  import opened JsText

  /** A successful anchored match: the characters it consumes and their replacement. */
  datatype Match = Match(len: nat, replacement: seq<char>)

  /** The attributes the paste cleaner strips. */
  datatype Attribute =
    | Class
    | Style
    | Alt
    | VmlAttribute   // `v:` followed by one or more letters
    | Height

  /** The patterns of the editor, each with the replacement the source gives it. */
  datatype Rule =
    | EmptyParagraph              // an empty `<p></p>` (white space and one `&nbsp;` allowed) → removed
    | Width                       // a numeric `width=` value → clamped to 600
    | OfficeTag                   // an opening or closing `o:p` tag → removed
    | Comment                     // `<!--` up to the first `-->` → removed
    | MsoFragment                 // `<![` up to the first `]>` → removed
    | StyleBlock                  // `<style` up to the first `</style>` → removed
    | StripAttribute(attr: Attribute)  // white space, the attribute, `=`, its value → removed
    | LegacyWidth                 // a `width=` of 468, quotes optional → `width="600"`
    | BoldOpen                    // `<b>` (white space allowed before `>`) → `<strong>`
    | BoldClose                   // `</b>` → `</strong>`
    | SpanTag                     // an opening or closing `span` tag → removed
  {
    /** The rules whose replacement is the empty text. */
    predicate Deletes() {
      !(Width? || LegacyWidth? || BoldOpen? || BoldClose?)
    }
  }

  predicate IsQuote(c: char) {
    c == '"' || c == '\''
  }

  // -----------------------------------------------------------------------
  // Empty paragraphs: `<p>`, white space, an optional `&nbsp;`, white space, `</p>`
  // -----------------------------------------------------------------------

  /** White space and `&` or `<` are disjoint, so the two white-space runs and
      the optional entity never trade characters: the match is unique. */
  function EmptyParagraphMatch(s: seq<char>): (r: Option<Match>)
    ensures r.Some? ==> 7 <= r.value.len <= |s| && r.value.replacement == []
    ensures r.Some? ==> StartsWithCI(s, "<p>") && StartsWithCI(s[r.value.len - 4..], "</p>")
  {
    if !StartsWithCI(s, "<p>") then None
    else
      var j := EntityEnd(s, 3 + SpanSpaces(s[3..]));
      if StartsWithCI(s[j..], "</p>") then
        Some(Match(j + 4, []))
      else None
  }

  /** Where the optional `&nbsp;` and the white space after it end, for a
      paragraph body resumed at `i`. */
  function EntityEnd(s: seq<char>, i: nat): (j: nat)
    requires i <= |s|
    ensures i <= j <= |s|
  {
    if StartsWithCI(s[i..], "&nbsp;") then
      i + 6 + SpanSpaces(s[i + 6..])
    else i
  }

  // -----------------------------------------------------------------------
  // Width attributes: `width`, white space, `=`, white space, an optional quote,
  // digits, and the same quote again
  // -----------------------------------------------------------------------

  /** What the width pattern captures: the match length, the quote (empty or
      one quote character) and the digits. */
  datatype WidthAttr = WidthAttr(len: nat, quote: seq<char>, digits: seq<char>)

  /** Where the value of a width attribute starts: after `width`, white
      space, `=` and white space. Giving back white space would leave it where
      `=` or the value must start, so the white-space runs are taken whole. */
  function WidthValueStart(s: seq<char>): (j: Option<nat>)
    ensures j.Some? ==> 6 <= j.value <= |s| && StartsWithCI(s, "width")
  {
    if !StartsWithCI(s, "width") then None
    else
      var i := 5 + SpanSpaces(s[5..]);
      if i == |s| || s[i] != '=' then None
      else Some(i + 1 + SpanSpaces(s[i + 1..]))
  }

  /** The value part: an optional quote, digits, the same quote again. When a
      quote is taken but the digits are not followed by the same quote,
      dropping the quote leaves the digit run to start at a quote, which fails;
      shorter digit runs are followed by a digit, never by a quote. So the
      match, when there is one, is the greedy one. */
  function WidthValue(t: seq<char>): (r: Option<WidthAttr>)
    ensures r.Some? ==> 0 < r.value.len <= |t|
    ensures r.Some? ==> |r.value.quote| <= 1 && r.value.digits != [] && AllDigits(r.value.digits)
    ensures r.Some? ==> (r.value.quote == [] || IsQuote(r.value.quote[0]))
    ensures r.Some? ==> r.value.len == |r.value.quote| + |r.value.digits| + |r.value.quote|
    ensures r.Some? ==> t[..r.value.len] == r.value.quote + r.value.digits + r.value.quote
    ensures r.Some? && r.value.quote != [] ==> t[r.value.len - 1] == r.value.quote[0]
    ensures r.Some? && r.value.quote == [] ==> r.value.len == |t| || !IsDigit(t[r.value.len])
  {
    var q := if t != [] && IsQuote(t[0]) then [t[0]] else [];
    var n := SpanDigits(t[|q|..]);
    if n == 0 then None
    else if q != [] && (|q| + n == |t| || t[|q| + n] != q[0]) then None
    else
      ValueSpelled(t, q, n);
      Some(WidthAttr(n + 2 * |q|, q, t[|q|..|q| + n]))
  }

  /** The text a value match covers: the digits between two copies of its optional quote. */
  lemma ValueSpelled(t: seq<char>, q: seq<char>, n: nat)
    requires |q| <= 1 && |q| + n + |q| <= |t|
    requires q == [] || (q == [t[0]] && t[1 + n] == t[0])
    ensures t[..n + 2 * |q|] == q + t[|q|..|q| + n] + q
  {
    if q != [] {
      assert t[..n + 2] == [t[0]] + t[1..1 + n] + [t[1 + n]];
    }
  }

  /** How many characters the value of a match covers: quote, digits, quote. */
  function ValueLength(w: WidthAttr): nat {
    2 * |w.quote| + |w.digits|
  }

  /** The match `w` ends with its own captured quote, digits and quote. */
  predicate EndsWithValue(s: seq<char>, w: WidthAttr) {
    ValueLength(w) <= w.len <= |s| &&
    s[w.len - ValueLength(w)..w.len] == w.quote + w.digits + w.quote
  }

  /** The captured quote, digits and quote are the characters that end the
      match: what is written back is built from the attribute's own text. */
  lemma ParseWidthCaptures(s: seq<char>)
    ensures ParseWidth(s).Some? ==> EndsWithValue(s, ParseWidth(s).value)
  {
    var j := WidthValueStart(s);
    if j.Some? && WidthValue(s[j.value..]).Some? {
      var w := WidthValue(s[j.value..]).value;
      ParseWidthAt(s, j.value, w);
      ValueCaptures(s[j.value..], w);
      ShiftedSlice(s, j.value, w, ParseWidth(s).value);
    }
  }

  lemma ValueCaptures(t: seq<char>, w: WidthAttr)
    requires WidthValue(t) == Some(w)
    ensures EndsWithValue(t, w) && w.len == ValueLength(w)
  {
  }

  lemma ShiftedSlice(s: seq<char>, j: nat, w: WidthAttr, v: WidthAttr)
    requires j <= |s| && EndsWithValue(s[j..], w) && w.len == ValueLength(w)
    requires v.len == j + w.len && v.quote == w.quote && v.digits == w.digits
    ensures EndsWithValue(s, v)
  {
    assert s[j..][0..w.len] == s[j..j + w.len];
  }

  /** The width pattern anchored at the start of `s`; `len` counts from the start of `s`. */
  function ParseWidth(s: seq<char>): (r: Option<WidthAttr>)
    ensures r.Some? ==> 0 < r.value.len <= |s| && StartsWithCI(s, "width")
    ensures r.Some? ==> |r.value.quote| <= 1 && r.value.digits != [] && AllDigits(r.value.digits)
    ensures r.Some? ==> (r.value.quote == [] || IsQuote(r.value.quote[0]))
    ensures r.Some? && r.value.quote == [] ==> r.value.len == |s| || !IsDigit(s[r.value.len])
    ensures r.Some? && r.value.quote != [] ==> s[r.value.len - 1] == r.value.quote[0]
  {
    var j := WidthValueStart(s);
    if j.None? then None else ValueAt(s, j.value)
  }

  /** The value pattern applied `j` characters into `s`, its length counted from the start of `s`. */
  function ValueAt(s: seq<char>, j: nat): (r: Option<WidthAttr>)
    requires j <= |s|
    ensures r.Some? ==> j < r.value.len <= |s|
    ensures r.Some? ==> |r.value.quote| <= 1 && r.value.digits != [] && AllDigits(r.value.digits)
    ensures r.Some? ==> (r.value.quote == [] || IsQuote(r.value.quote[0]))
    ensures r.Some? && r.value.quote == [] ==> r.value.len == |s| || !IsDigit(s[r.value.len])
    ensures r.Some? && r.value.quote != [] ==> s[r.value.len - 1] == r.value.quote[0]
  {
    var r := WidthValue(s[j..]);
    assert r.Some? && r.value.quote == [] && j + r.value.len < |s| ==> s[j + r.value.len] == s[j..][r.value.len];
    assert r.Some? && r.value.quote != [] ==> s[j + r.value.len - 1] == s[j..][r.value.len - 1];
    Shifted(j, r)
  }

  /** A value match found `j` characters in, with its length counted from the start. */
  function Shifted(j: nat, r: Option<WidthAttr>): Option<WidthAttr> {
    match r
    case None => None
    case Some(w) => Some(w.(len := j + w.len))
  }

  /** The width written back: the value itself up to 600, else 600. */
  function ClampedWidth(digits: seq<char>): (v: nat)
    requires AllDigits(digits)
    ensures v <= 600
    ensures DigitsValue(digits) <= 600 ==> v == DigitsValue(digits)
    ensures DigitsValue(digits) > 600 ==> v == 600
  {
    if DigitsValue(digits) <= 600 then DigitsValue(digits) else 600
  }

  /** The replacement: lower-case `width=`, the captured quote on both sides,
      and the clamped value in decimal without leading zeros. */
  function WidthMatch(s: seq<char>): (r: Option<Match>)
    ensures r.Some? <==> ParseWidth(s).Some?
    ensures r.Some? ==> 0 < r.value.len <= |s|
  {
    match ParseWidth(s)
    case None => None
    case Some(w) =>
      Some(Match(w.len, "width=" + w.quote + NatToString(ClampedWidth(w.digits)) + w.quote))
  }

  // -----------------------------------------------------------------------
  // Paste-cleaner patterns
  // -----------------------------------------------------------------------

  /** `<`, an optional `/`, the tag name, then everything up to the first `>`.
      Both tag names start with a letter, so taking the `/` never has to be undone. */
  function TagMatch(s: seq<char>, name: seq<char>): (r: Option<Match>)
    requires name != [] && IsAsciiLetter(name[0])
    ensures r.Some? ==> 0 < r.value.len <= |s| && r.value.replacement == []
    ensures r.Some? ==> s[0] == '<' && s[r.value.len - 1] == '>'
  {
    if s == [] || s[0] != '<' then None
    else
      var i := if |s| > 1 && s[1] == '/' then 2 else 1;
      if !StartsWithCI(s[i..], name) then None
      else
        match IndexOf(s[i + |name|..], '>')
        case None => None
        case Some(t) => Some(Match(i + |name| + t + 1, []))
  }

  /** `open`, then the shortest run of any characters, then `close`. */
  function DelimitedMatch(s: seq<char>, open: seq<char>, close: seq<char>): (r: Option<Match>)
    requires open != []
    ensures r.Some? ==> |open| + |close| <= r.value.len <= |s| && r.value.replacement == []
    ensures r.Some? ==> StartsWithCI(s, open) && StartsWithCI(s[r.value.len - |close|..], close)
  {
    if !StartsWithCI(s, open) then None
    else
      match FindCI(s[|open|..], close)
      case None => None
      case Some(t) => Some(Match(|open| + t + |close|, []))
  }

  /** The attribute's name as the pattern spells it; for the VML attributes,
      the `v:` prefix that a run of letters follows. */
  function AttributeName(attr: Attribute): seq<char> {
    match attr
    case Class => "class"
    case Style => "style"
    case Alt => "alt"
    case Height => "height"
    case VmlAttribute => "v:"
  }

  /** How many characters the attribute's name takes at the start of `s`. A
      shorter run of letters after `v:` would leave a letter where white space
      or `=` is needed, so the longest run is the only one that can match. */
  function AttributeNameLength(attr: Attribute, s: seq<char>): (r: Option<nat>)
    ensures r.Some? ==> 0 < r.value <= |s|
  {
    var name := AttributeName(attr);
    if !StartsWithCI(s, name) then None
    else
      if attr.VmlAttribute? then
        var n := SpanLetters(s[2..]);
        if n == 0 then None else Some(2 + n)
      else Some(|name|)
  }

  /** An attribute value: a double-quoted run, a single-quoted run, or else a
      run of characters that are neither white space nor `>`, tried in that
      order. An unclosed quote is taken by the third alternative. */
  function AttributeValueLength(t: seq<char>): (r: Option<nat>)
    ensures r.Some? ==> 0 < r.value <= |t|
  {
    if t == [] then None
    else if t[0] == '"' && IndexOf(t[1..], '"').Some? then Some(IndexOf(t[1..], '"').value + 2)
    else if t[0] == '\'' && IndexOf(t[1..], '\'').Some? then Some(IndexOf(t[1..], '\'').value + 2)
    else
      var n := SpanUnquotedValue(t);
      if n == 0 then None else Some(n)
  }

  /** White space, `=`, white space, a value: how many characters that
      takes at the start of `u`. */
  function AssignmentLength(u: seq<char>): (r: Option<nat>)
    ensures r.Some? ==> 0 < r.value <= |u|
  {
    AssignmentFrom(u, SpanSpaces(u))
  }

  /** The assignment once the white space before `=` is known to end at `i`. */
  function AssignmentFrom(u: seq<char>, i: nat): (r: Option<nat>)
    requires i <= |u|
    ensures r.Some? ==> i < r.value <= |u|
  {
    if i == |u| || u[i] != '=' then None else SpacedValueLength(u[i + 1..], i + 1)
  }

  /** White space then a value at the start of `w`, which starts `offset`
      characters into the assignment: where the value ends. */
  function SpacedValueLength(w: seq<char>, offset: nat): (r: Option<nat>)
    ensures r.Some? ==> offset < r.value <= offset + |w|
  {
    var k := SpanSpaces(w);
    match AttributeValueLength(w[k..])
    case None => None
    case Some(v) => Some(offset + k + v)
  }

  /** One white-space character, the name, then the assignment of a value.
      Giving characters back to a white-space run would leave white space
      where `=` or a value must start, so the match is unique. */
  function AttributeMatch(attr: Attribute, s: seq<char>): (r: Option<Match>)
    ensures r.Some? ==> 0 < r.value.len <= |s| && r.value.replacement == []
    ensures r.Some? ==> IsSpace(s[0])
  {
    if s == [] || !IsSpace(s[0]) then None
    else match AttributeNameLength(attr, s[1..])
      case None => None
      case Some(n) =>
        match AssignmentLength(s[1 + n..])
        case None => None
        case Some(m) => Some(Match(1 + n + m, []))
  }

  /** `width`, white space, `=`, white space, an optional quote of either kind,
      white space, `468`, white space, an optional quote of either kind. The
      match need not end at the end of the number: nothing after `468` is
      required. */
  function LegacyWidthMatch(s: seq<char>): (r: Option<Match>)
    ensures r.Some? ==> 0 < r.value.len <= |s| && r.value.replacement == "width=\"600\""
  {
    match WidthValueStart(s)
    case None => None
    case Some(j) => LegacyNumber(s[j..], j)
  }

  /** The part after `width=` and its white space, which starts `offset`
      characters into the match: an optional quote, white space, `468`, then
      the close. */
  function LegacyNumber(u: seq<char>, offset: nat): (r: Option<Match>)
    ensures r.Some? ==> offset < r.value.len <= offset + |u| && r.value.replacement == "width=\"600\""
  {
    var k0 := if u != [] && IsQuote(u[0]) then 1 else 0;
    var k := k0 + SpanSpaces(u[k0..]);
    if !StartsWithCI(u[k..], "468") then None
    else Some(LegacyClose(u[k + 3..], offset + k + 3))
  }

  /** White space and an optional quote after the number, which ends
      `offset` characters into the match. */
  function LegacyClose(v: seq<char>, offset: nat): (r: Match)
    ensures offset <= r.len <= offset + |v| && r.replacement == "width=\"600\""
  {
    var m := SpanSpaces(v);
    var e := if m < |v| && IsQuote(v[m]) then m + 1 else m;
    Match(offset + e, "width=\"600\"")
  }

  /** `<b`, white space, `>`. */
  function BoldOpenMatch(s: seq<char>): (r: Option<Match>)
    ensures r.Some? ==> 0 < r.value.len <= |s| && r.value.replacement == "<strong>"
    ensures r.Some? ==> s[r.value.len - 1] == '>' && forall i :: 2 <= i < r.value.len - 1 ==> IsSpace(s[i])
  {
    if !StartsWithCI(s, "<b") then None
    else
      var i := 2 + SpanSpaces(s[2..]);
      if i < |s| && s[i] == '>' then Some(Match(i + 1, "<strong>")) else None
  }

  function BoldCloseMatch(s: seq<char>): (r: Option<Match>)
    ensures r.Some? ==> r.value.len == 4 <= |s| && r.value.replacement == "</strong>"
  {
    if StartsWithCI(s, "</b>") then Some(Match(4, "</strong>")) else None
  }

  /** The anchored matcher of each rule. */
  function Matcher(rule: Rule): seq<char> -> Option<Match> {
    match rule
    case EmptyParagraph => EmptyParagraphMatch
    case Width => WidthMatch
    case OfficeTag => OfficeTagMatch
    case Comment => CommentMatch
    case MsoFragment => MsoFragmentMatch
    case StyleBlock => StyleBlockMatch
    case StripAttribute(attr) => s => AttributeMatch(attr, s)
    case LegacyWidth => LegacyWidthMatch
    case BoldOpen => BoldOpenMatch
    case BoldClose => BoldCloseMatch
    case SpanTag => SpanTagMatch
  }

  function OfficeTagMatch(s: seq<char>): Option<Match> {
    TagMatch(s, "o:p")
  }

  function CommentMatch(s: seq<char>): Option<Match> {
    DelimitedMatch(s, "<!--", "-->")
  }

  function MsoFragmentMatch(s: seq<char>): Option<Match> {
    DelimitedMatch(s, "<![", "]>")
  }

  function StyleBlockMatch(s: seq<char>): Option<Match> {
    DelimitedMatch(s, "<style", "</style>")
  }

  function SpanTagMatch(s: seq<char>): Option<Match> {
    TagMatch(s, "span")
  }

  /** The rule's pattern matched at the start of `s`. */
  function MatchAt(rule: Rule, s: seq<char>): (r: Option<Match>)
    ensures r.Some? ==> 0 < r.value.len <= |s|
    ensures r.Some? && rule.Deletes() ==> r.value.replacement == []
  {
    Matcher(rule)(s)
  }

  /** Every pattern starts with `<`, with white space (the attributes) or
      with a `w` of either case (the widths). */
  lemma MatchStart(rule: Rule, s: seq<char>)
    requires s != []
    ensures MatchAt(rule, s).Some? ==> s[0] == '<' || IsSpace(s[0]) || IsW(s[0])
  {
    if MatchAt(rule, s).Some? {
    match rule
    case EmptyParagraph => assert Lower(s[0]) == Lower("<p>"[0]);
    case Width => assert Lower(s[0]) == Lower("width"[0]);
    case OfficeTag =>
    case Comment => assert Lower(s[0]) == Lower("<!--"[0]);
    case MsoFragment => assert Lower(s[0]) == Lower("<!["[0]);
    case StyleBlock => assert Lower(s[0]) == Lower("<style"[0]);
    case StripAttribute(_) =>
    case LegacyWidth => assert Lower(s[0]) == Lower("width"[0]);
    case BoldOpen => assert Lower(s[0]) == Lower("<b"[0]);
    case BoldClose => assert Lower(s[0]) == Lower("</b>"[0]);
    case SpanTag =>
    }
  }

  /** A pattern cannot occur in text that has no `<`, no white space and no `w`. */
  lemma NoOccurrenceInPlainText(rule: Rule, html: seq<char>)
    requires forall i :: 0 <= i < |html| ==> html[i] != '<' && !IsSpace(html[i]) && !IsW(html[i])
    ensures !Occurs(rule, html)
  {
    forall i | 0 <= i < |html| ensures MatchAt(rule, html[i..]).None? {
      MatchStart(rule, html[i..]);
      assert html[i..][0] == html[i];
    }
  }

  /** A global replace: scanning left to right, a match is replaced and the
      scan resumes after it; where nothing matches, the character is kept. */
  function ReplaceAll(rule: Rule, s: seq<char>): seq<char>
    decreases |s|
  {
    if s == [] then []
    else match MatchAt(rule, s)
      case Some(m) => m.replacement + ReplaceAll(rule, s[m.len..])
      case None => [s[0]] + ReplaceAll(rule, s[1..])
  }

  /** The pattern matches somewhere in `s`. */
  predicate Occurs(rule: Rule, s: seq<char>) {
    exists i | 0 <= i < |s| :: MatchAt(rule, s[i..]).Some?
  }

  // -----------------------------------------------------------------------
  // Properties of the scan
  // -----------------------------------------------------------------------

  /** Text in which the pattern never matches is returned unchanged. */
  lemma {:induction false} ReplaceAllWithoutOccurrence(rule: Rule, s: seq<char>)
    requires !Occurs(rule, s)
    ensures ReplaceAll(rule, s) == s
    decreases |s|
  {
    if s != [] {
      assert s[0..] == s;
      assert forall i :: 1 <= i < |s| ==> s[1..][i - 1..] == s[i..];
      ReplaceAllWithoutOccurrence(rule, s[1..]);
    }
  }

  /** A deleting pattern that matches somewhere makes the text strictly shorter. */
  lemma {:induction false} ReplaceAllShortens(rule: Rule, s: seq<char>)
    requires rule.Deletes()
    ensures |ReplaceAll(rule, s)| <= |s|
    ensures Occurs(rule, s) ==> |ReplaceAll(rule, s)| < |s|
    decreases |s|
  {
    if s != [] {
      match MatchAt(rule, s)
      case Some(m) =>
        ReplaceAllShortens(rule, s[m.len..]);
      case None =>
        ReplaceAllShortens(rule, s[1..]);
        if Occurs(rule, s) {
          var i :| 0 <= i < |s| && MatchAt(rule, s[i..]).Some?;
          assert i != 0;
          assert s[1..][i - 1..] == s[i..];
        }
    }
  }

  /** A deleting pattern leaves the text unchanged exactly when it occurs nowhere. */
  lemma ReplaceAllFixedIff(rule: Rule, s: seq<char>)
    requires rule.Deletes()
    ensures ReplaceAll(rule, s) == s <==> !Occurs(rule, s)
  {
    ReplaceAllShortens(rule, s);
    if !Occurs(rule, s) { ReplaceAllWithoutOccurrence(rule, s); }
  }

  /** `a` can be obtained from `b` by deleting characters. */
  predicate IsSubsequence(a: seq<char>, b: seq<char>)
    decreases |b|
  {
    if a == [] then true
    else if b == [] then false
    else (a[0] == b[0] && IsSubsequence(a[1..], b[1..])) || IsSubsequence(a, b[1..])
  }

  lemma {:induction false} SubsequenceOfSuffix(a: seq<char>, b: seq<char>, n: nat)
    requires n <= |b| && IsSubsequence(a, b[n..])
    ensures IsSubsequence(a, b)
    decreases n
  {
    if n > 0 {
      assert b[1..][n - 1..] == b[n..];
      SubsequenceOfSuffix(a, b[1..], n - 1);
    }
  }

  lemma {:induction false} SubsequenceReflexive(a: seq<char>)
    ensures IsSubsequence(a, a)
    decreases |a|
  {
    if a != [] { SubsequenceReflexive(a[1..]); }
  }

  lemma {:induction false} SubsequenceTransitive(a: seq<char>, b: seq<char>, c: seq<char>)
    requires IsSubsequence(a, b) && IsSubsequence(b, c)
    ensures IsSubsequence(a, c)
    decreases |c|
  {
    if a != [] {
      assert b != [] && c != [];
      if b[0] == c[0] && IsSubsequence(b[1..], c[1..]) {
        if a[0] == b[0] && IsSubsequence(a[1..], b[1..]) {
          SubsequenceTransitive(a[1..], b[1..], c[1..]);
        } else {
          SubsequenceTransitive(a, b[1..], c[1..]);
        }
      } else {
        SubsequenceTransitive(a, b, c[1..]);
      }
    }
  }

  /** A deleting pattern keeps every character it does not delete, in order. */
  lemma {:induction false} ReplaceAllKeepsOrder(rule: Rule, s: seq<char>)
    requires rule.Deletes()
    ensures IsSubsequence(ReplaceAll(rule, s), s)
    decreases |s|
  {
    if s != [] {
      match MatchAt(rule, s)
      case Some(m) =>
        ReplaceAllKeepsOrder(rule, s[m.len..]);
        SubsequenceOfSuffix(ReplaceAll(rule, s[m.len..]), s, m.len);
        assert m.replacement == [];
        assert ReplaceAll(rule, s) == ReplaceAll(rule, s[m.len..]);
      case None =>
        ReplaceAllKeepsOrder(rule, s[1..]);
        var r := ReplaceAll(rule, s);
        assert r[0] == s[0] && r[1..] == ReplaceAll(rule, s[1..]);
    }
  }

  /** Where a match starts, it is replaced and the scan resumes after it. */
  lemma ReplaceAllReplacesFirst(rule: Rule, s: seq<char>, m: Match)
    requires MatchAt(rule, s) == Some(m)
    ensures ReplaceAll(rule, s) == m.replacement + ReplaceAll(rule, s[m.len..])
  {
  }

  /** A match that is replaced by its own text leaves the scan's output
      unchanged as far as the rest is unchanged. */
  lemma ReplaceAllOfIdentityMatch(rule: Rule, t: seq<char>, n: nat)
    requires n <= |t| && MatchAt(rule, t) == Some(Match(n, t[..n]))
    requires ReplaceAll(rule, t[n..]) == t[n..]
    ensures ReplaceAll(rule, t) == t
  {
    ReplaceAllReplacesFirst(rule, t, Match(n, t[..n]));
    PrefixThenSuffix(t, n);
  }

  lemma PrefixThenSuffix(t: seq<char>, n: nat)
    requires n <= |t|
    ensures t[..n] + t[n..] == t
  {
  }

  /** Where nothing matches, the first character is kept and the scan moves on. */
  lemma ReplaceAllKeepsFirst(rule: Rule, s: seq<char>)
    requires s != [] && MatchAt(rule, s).None?
    ensures ReplaceAll(rule, s) == [s[0]] + ReplaceAll(rule, s[1..])
  {
  }

  /** Over a stretch of text where the pattern matches at no position, the
      scan copies the stretch and goes on with what follows it. */
  lemma {:induction false} ReplaceAllCopiesUnmatched(rule: Rule, p: seq<char>, s: seq<char>)
    requires forall i | 0 <= i < |p| :: MatchAt(rule, p[i..] + s).None?
    ensures ReplaceAll(rule, p + s) == p + ReplaceAll(rule, s)
    decreases |p|
  {
    if p == [] {
      assert p + s == s;
    } else {
      UnmatchedTail(rule, p, s);
      ReplaceAllCopiesUnmatched(rule, p[1..], s);
      ConsConcat(p, s, ReplaceAll(rule, s));
      ReplaceAllKeepsFirst(rule, p + s);
    }
  }

  lemma UnmatchedTail(rule: Rule, p: seq<char>, s: seq<char>)
    requires p != [] && forall i | 0 <= i < |p| :: MatchAt(rule, p[i..] + s).None?
    ensures MatchAt(rule, p + s).None?
    ensures forall i | 0 <= i < |p| - 1 :: MatchAt(rule, p[1..][i..] + s).None?
  {
    assert p[0..] == p;
    forall i | 0 <= i < |p| - 1 ensures MatchAt(rule, p[1..][i..] + s).None? {
      assert p[1..][i..] == p[i + 1..];
    }
  }

  lemma ConsConcat(p: seq<char>, s: seq<char>, r: seq<char>)
    requires p != []
    ensures p + s != [] && (p + s)[0] == p[0] && (p + s)[1..] == p[1..] + s
    ensures [p[0]] + (p[1..] + r) == p + r
  {
  }

  /** A match deleted after a stretch where the pattern matches nowhere:
      the stretch is kept and the scan resumes right after the match. */
  lemma ReplaceAllDeletesAfterUnmatched(rule: Rule, p: seq<char>, e: seq<char>, t: seq<char>)
    requires forall i | 0 <= i < |p| :: MatchAt(rule, p[i..] + (e + t)).None?
    requires MatchAt(rule, e + t) == Some(Match(|e|, []))
    ensures ReplaceAll(rule, p + e + t) == p + ReplaceAll(rule, t)
  {
    ReplaceAllAfterUnmatched(rule, p, e + t, Match(|e|, []));
    ConcatThenDrop(p, e, t, ReplaceAll(rule, t));
  }

  lemma ConcatThenDrop(p: seq<char>, e: seq<char>, t: seq<char>, r: seq<char>)
    ensures (e + t)[|e|..] == t
    ensures p + e + t == p + (e + t)
    ensures p + [] + r == p + r
  {
  }

  lemma Regroup(p: seq<char>, a: seq<char>, b: seq<char>, c: seq<char>, d: seq<char>, r: seq<char>)
    ensures p + (a + b + c + d) + r == p + a + b + c + d + r
  {
  }

  /** A match after a stretch where the pattern matches nowhere: the stretch
      is kept, the match is replaced, and the scan resumes right after it. */
  lemma ReplaceAllAfterUnmatched(rule: Rule, p: seq<char>, s: seq<char>, m: Match)
    requires forall i | 0 <= i < |p| :: MatchAt(rule, p[i..] + s).None?
    requires MatchAt(rule, s) == Some(m)
    ensures ReplaceAll(rule, p + s) == p + m.replacement + ReplaceAll(rule, s[m.len..])
  {
    ReplaceAllCopiesUnmatched(rule, p, s);
    ReplaceAllReplacesFirst(rule, s, m);
  }

  lemma EmptyParagraphMatchAt(s: seq<char>, m: Match)
    requires EmptyParagraphMatch(s) == Some(m)
    ensures MatchAt(EmptyParagraph, s) == Some(m)
  {
  }

  /** The width pattern at a parsed width attribute. */
  lemma WidthMatchAt(s: seq<char>, w: WidthAttr)
    requires ParseWidth(s) == Some(w)
    ensures MatchAt(Width, s) ==
      Some(Match(w.len, "width=" + w.quote + NatToString(ClampedWidth(w.digits)) + w.quote))
  {
  }

  /** The width pattern matches at no position of a stretch without `w`. */
  lemma NoWidthInStretch(p: seq<char>, s: seq<char>)
    requires forall i | 0 <= i < |p| :: !IsW(p[i])
    ensures forall i | 0 <= i < |p| :: MatchAt(Width, p[i..] + s).None?
  {
    forall i | 0 <= i < |p| ensures MatchAt(Width, p[i..] + s).None? {
      assert (p[i..] + s)[0] == p[i];
      NoWidthAtNonW(p[i..] + s);
    }
  }

  lemma NoWidthAtNonW(s: seq<char>)
    requires s != [] && !IsW(s[0])
    ensures MatchAt(Width, s).None?
  {
    assert !StartsWithCI(s, "width") by { assert Lower(s[0]) != Lower("width"[0]); }
  }

  // -----------------------------------------------------------------------
  // Locality of the width pattern
  // -----------------------------------------------------------------------

  /** A `w` of either case: the only character that can start a width match,
      and one that no later part of a width match accepts. */
  predicate IsW(c: char) {
    Lower(c) == 'w'
  }

  /** Index of the first `w` of either case, or the length when there is none. */
  function FirstW(s: seq<char>): (k: nat)
    ensures k <= |s| && (k == |s| || IsW(s[k]))
    ensures forall i :: 0 <= i < k ==> !IsW(s[i])
  {
    if s == [] || IsW(s[0]) then 0 else 1 + FirstW(s[1..])
  }

  /** `t` and `u` agree on their first `n` characters, and then either both
      end or both go on with a `w` of either case. */
  predicate SameUpTo(t: seq<char>, u: seq<char>, n: nat) {
    n <= |t| && n <= |u| && t[..n] == u[..n] &&
    ((n == |t| && n == |u|) || (n < |t| && n < |u| && IsW(t[n]) && IsW(u[n])))
  }

  /** Position `k` reads the same in both texts, or, at `n`, is in neither
      a character other than a `w`. */
  lemma SameAt(t: seq<char>, u: seq<char>, n: nat, k: nat)
    requires SameUpTo(t, u, n) && k < n
    ensures t[k] == u[k]
  {
    assert t[..n][k] == t[k] && u[..n][k] == u[k];
  }

  lemma SameUpToSuffix(t: seq<char>, u: seq<char>, n: nat, m: nat)
    requires SameUpTo(t, u, n) && m <= n
    ensures SameUpTo(t[m..], u[m..], n - m)
  {
    assert t[m..][..n - m] == t[..n][m..];
    assert u[m..][..n - m] == u[..n][m..];
  }

  lemma SameUpToCons(a: char, t: seq<char>, u: seq<char>, n: nat)
    requires SameUpTo(t, u, n)
    ensures SameUpTo([a] + t, [a] + u, n + 1)
  {
    assert ([a] + t)[..n + 1] == [a] + t[..n];
    assert ([a] + u)[..n + 1] == [a] + u[..n];
  }

  /** A `w` is neither white space, nor a digit, nor `=`, nor a quote. */
  lemma WIsNoDelimiter(c: char)
    requires IsW(c)
    ensures !IsSpace(c) && !IsDigit(c) && c != '=' && !IsQuote(c)
  {
  }

  lemma SpanSpacesUnique(s: seq<char>, a: nat)
    requires a <= |s| && (forall i :: 0 <= i < a ==> IsSpace(s[i]))
    requires a == |s| || !IsSpace(s[a])
    ensures SpanSpaces(s) == a
  {
  }

  lemma SpanDigitsUnique(s: seq<char>, a: nat)
    requires a <= |s| && (forall i :: 0 <= i < a ==> IsDigit(s[i]))
    requires a == |s| || !IsDigit(s[a])
    ensures SpanDigits(s) == a
  {
  }

  lemma SpanSpacesSame(t: seq<char>, u: seq<char>, n: nat)
    requires SameUpTo(t, u, n)
    ensures SpanSpaces(t) == SpanSpaces(u) <= n
  {
    var a := SpanSpaces(t);
    if n < |t| { WIsNoDelimiter(t[n]); WIsNoDelimiter(u[n]); }
    assert a <= n;
    forall i | 0 <= i < a ensures IsSpace(u[i]) { SameAt(t, u, n, i); }
    if a < n { SameAt(t, u, n, a); }
    SpanSpacesUnique(u, a);
  }

  lemma SpanDigitsSame(t: seq<char>, u: seq<char>, n: nat)
    requires SameUpTo(t, u, n)
    ensures SpanDigits(t) == SpanDigits(u) <= n
  {
    var a := SpanDigits(t);
    if n < |t| { WIsNoDelimiter(t[n]); WIsNoDelimiter(u[n]); }
    assert a <= n;
    forall i | 0 <= i < a ensures IsDigit(u[i]) { SameAt(t, u, n, i); }
    if a < n { SameAt(t, u, n, a); }
    SpanDigitsUnique(u, a);
  }

  /** Only the first letter of `width` is a `w`. */
  lemma WidthLettersAfterFirst(k: nat)
    requires 1 <= k < 5
    ensures Lower("width"[k]) != 'w'
  {
  }

  lemma StartsWithWidthSame(t: seq<char>, u: seq<char>, n: nat)
    requires SameUpTo(t, u, n) && 1 <= n
    ensures StartsWithCI(t, "width") <==> StartsWithCI(u, "width")
    ensures StartsWithCI(t, "width") ==> 5 <= n
  {
    if n < 5 {
      WidthLettersAfterFirst(n);
      if n < |t| { assert Lower(t[n]) != Lower("width"[n]); }
      if n < |u| { assert Lower(u[n]) != Lower("width"[n]); }
    } else {
      forall i | 0 <= i < 5 ensures t[i] == u[i] { SameAt(t, u, n, i); }
    }
  }

  lemma WidthValueStartSame(t: seq<char>, u: seq<char>, n: nat)
    requires SameUpTo(t, u, n) && 1 <= n
    ensures WidthValueStart(t) == WidthValueStart(u)
    ensures WidthValueStart(t).Some? ==> WidthValueStart(t).value <= n
  {
    StartsWithWidthSame(t, u, n);
    if StartsWithCI(t, "width") {
      WidthValueStartSameAfterName(t, u, n);
    } else {
      assert WidthValueStart(t) == None;
      assert WidthValueStart(u) == None;
    }
  }

  lemma WidthValueStartSameAfterName(t: seq<char>, u: seq<char>, n: nat)
    requires SameUpTo(t, u, n) && 5 <= n
    requires StartsWithCI(t, "width") && StartsWithCI(u, "width")
    ensures WidthValueStart(t) == WidthValueStart(u)
    ensures WidthValueStart(t).Some? ==> WidthValueStart(t).value <= n
  {
    var i := EqualsPosition(t, u, n);
    if i < n && t[i] == '=' {
      ValueStartSame(t, u, n, i);
    } else {
      WidthValueStartNoEquals(t, i);
      WidthValueStartNoEquals(u, i);
    }
  }

  /** Where `=` must stand after `width` and white space: the same place in both texts. */
  lemma EqualsPosition(t: seq<char>, u: seq<char>, n: nat) returns (i: nat)
    requires SameUpTo(t, u, n) && 5 <= n
    ensures i == 5 + SpanSpaces(t[5..]) == 5 + SpanSpaces(u[5..]) && i <= n
    ensures (i < |t| && t[i] == '=') <==> (i < |u| && u[i] == '=')
    ensures i < |t| && t[i] == '=' ==> i < n
  {
    SameUpToSuffix(t, u, n, 5);
    SpanSpacesSame(t[5..], u[5..], n - 5);
    i := 5 + SpanSpaces(t[5..]);
    EqualsSignSame(t, u, n, i);
  }

  lemma ValueStartSame(t: seq<char>, u: seq<char>, n: nat, i: nat)
    requires SameUpTo(t, u, n) && i < n
    requires StartsWithCI(t, "width") && StartsWithCI(u, "width")
    requires i == 5 + SpanSpaces(t[5..]) == 5 + SpanSpaces(u[5..])
    requires t[i] == '=' && u[i] == '='
    ensures WidthValueStart(t) == WidthValueStart(u)
    ensures WidthValueStart(t).value <= n
  {
    var k := SpacesAfterEquals(t, u, n, i);
    WidthValueStartAt(t, i, k);
    WidthValueStartAt(u, i, k);
  }

  lemma SpacesAfterEquals(t: seq<char>, u: seq<char>, n: nat, i: nat) returns (k: nat)
    requires SameUpTo(t, u, n) && i < n
    ensures k == SpanSpaces(t[i + 1..]) == SpanSpaces(u[i + 1..]) && i + 1 + k <= n
  {
    SameUpToSuffix(t, u, n, i + 1);
    SpanSpacesSame(t[i + 1..], u[i + 1..], n - i - 1);
    k := SpanSpaces(t[i + 1..]);
  }

  lemma WidthValueStartAt(s: seq<char>, i: nat, k: nat)
    requires StartsWithCI(s, "width") && i == 5 + SpanSpaces(s[5..]) && i < |s| && s[i] == '='
    requires k == SpanSpaces(s[i + 1..])
    ensures WidthValueStart(s) == Some(i + 1 + k)
  {
  }

  lemma WidthValueStartNoEquals(s: seq<char>, i: nat)
    requires StartsWithCI(s, "width") && i == 5 + SpanSpaces(s[5..]) && !(i < |s| && s[i] == '=')
    ensures WidthValueStart(s) == None
  {
  }

  lemma EqualsSignSame(t: seq<char>, u: seq<char>, n: nat, i: nat)
    requires SameUpTo(t, u, n) && i <= n
    ensures (i < |t| && t[i] == '=') <==> (i < |u| && u[i] == '=')
    ensures i < |t| && t[i] == '=' ==> i < n
  {
    if i < n { SameAt(t, u, n, i); }
    else if n < |t| { WIsNoDelimiter(t[n]); WIsNoDelimiter(u[n]); }
  }

  lemma WidthValueSame(t: seq<char>, u: seq<char>, n: nat)
    requires SameUpTo(t, u, n)
    ensures WidthValue(t) == WidthValue(u)
  {
    WidthValueShape(t);
    WidthValueShape(u);
    WidthPartsSame(t, u, n);
  }

  /** The three things the value pattern looks at agree in both texts. */
  lemma WidthPartsSame(t: seq<char>, u: seq<char>, n: nat)
    requires SameUpTo(t, u, n)
    ensures LeadingQuote(t) == LeadingQuote(u)
    ensures DigitRun(t) == DigitRun(u)
    ensures QuoteCloses(t) == QuoteCloses(u)
  {
    LeadingQuoteSame(t, u, n);
    var q := LeadingQuote(t);
    DigitCountSame(t, u, n, q);
    DigitRunSame(t, u, n, q, SpanDigits(t[|q|..]));
    if q != [] {
      ClosingQuoteSame(t, u, n, q, |q| + SpanDigits(t[|q|..]));
    }
  }

  lemma LeadingQuoteSame(t: seq<char>, u: seq<char>, n: nat)
    requires SameUpTo(t, u, n)
    ensures LeadingQuote(t) == LeadingQuote(u)
  {
    if 0 < n { SameAt(t, u, n, 0); }
    else if n < |t| { WIsNoDelimiter(t[n]); WIsNoDelimiter(u[n]); }
  }

  lemma DigitCountSame(t: seq<char>, u: seq<char>, n: nat, q: seq<char>)
    requires SameUpTo(t, u, n) && q == LeadingQuote(t) == LeadingQuote(u) && |q| <= n
    ensures SpanDigits(t[|q|..]) == SpanDigits(u[|q|..]) && |q| + SpanDigits(t[|q|..]) <= n
  {
    SameUpToSuffix(t, u, n, |q|);
    SpanDigitsSame(t[|q|..], u[|q|..], n - |q|);
  }

  lemma DigitRunSame(t: seq<char>, u: seq<char>, n: nat, q: seq<char>, d: nat)
    requires SameUpTo(t, u, n) && |q| + d <= n
    ensures t[|q|..|q| + d] == u[|q|..|q| + d]
  {
    SliceOfPrefix(t, n, |q|, |q| + d);
    SliceOfPrefix(u, n, |q|, |q| + d);
  }

  lemma SliceOfPrefix(t: seq<char>, n: nat, a: nat, b: nat)
    requires a <= b <= n <= |t|
    ensures t[a..b] == t[..n][a..b]
  {
    forall i | 0 <= i < b - a ensures t[a..b][i] == t[..n][a..b][i] {
      assert t[a..b][i] == t[a + i];
    }
  }

  function LeadingQuote(t: seq<char>): (q: seq<char>)
    ensures |q| <= 1 && q <= t && (q == [] || IsQuote(q[0]))
  {
    if t != [] && IsQuote(t[0]) then [t[0]] else []
  }

  /** The digits right after the optional leading quote. */
  function DigitRun(t: seq<char>): seq<char> {
    var q := LeadingQuote(t);
    t[|q|..|q| + SpanDigits(t[|q|..])]
  }

  /** There is no leading quote, or the same quote follows the digit run. */
  predicate QuoteCloses(t: seq<char>) {
    var q := LeadingQuote(t);
    var i := |q| + SpanDigits(t[|q|..]);
    q == [] || (i < |t| && t[i] == q[0])
  }

  /** A value match built from its parts. */
  function WidthCandidate(q: seq<char>, d: seq<char>, closes: bool): Option<WidthAttr> {
    if d == [] || !closes then None else Some(WidthAttr(|d| + 2 * |q|, q, d))
  }

  lemma WidthValueShape(t: seq<char>)
    ensures WidthValue(t) == WidthCandidate(LeadingQuote(t), DigitRun(t), QuoteCloses(t))
  {
  }

  lemma ClosingQuoteSame(t: seq<char>, u: seq<char>, n: nat, q: seq<char>, i: nat)
    requires SameUpTo(t, u, n) && i <= n && |q| == 1 && IsQuote(q[0])
    ensures (i == |t| || t[i] != q[0]) <==> (i == |u| || u[i] != q[0])
  {
    if i < n { SameAt(t, u, n, i); }
    else if n < |t| { WIsNoDelimiter(t[n]); WIsNoDelimiter(u[n]); }
  }

  /** Whether the width pattern matches at the start, and what it captures,
      depends only on the text before the next `w`. */
  lemma ParseWidthSame(t: seq<char>, u: seq<char>, n: nat)
    requires SameUpTo(t, u, n) && 1 <= n
    ensures ParseWidth(t) == ParseWidth(u)
  {
    WidthValueStartSame(t, u, n);
    match WidthValueStart(t)
    case None =>
    case Some(j) =>
      SameUpToSuffix(t, u, n, j);
      WidthValueSame(t[j..], u[j..], n - j);
      ParseWidthFrom(t, j);
      ParseWidthFrom(u, j);
  }

  lemma ParseWidthFrom(s: seq<char>, j: nat)
    requires WidthValueStart(s) == Some(j)
    ensures ParseWidth(s) == Shifted(j, WidthValue(s[j..]))
  {
  }

  lemma SpanDigitsOfDigits(d: seq<char>, rest: seq<char>)
    requires AllDigits(d)
    requires rest == [] || !IsDigit(rest[0])
    ensures SpanDigits(d + rest) == |d|
  {
    var s := d + rest;
    assert forall i :: 0 <= i < |d| ==> s[i] == d[i];
    assert |d| < |s| ==> s[|d|] == rest[0];
  }

  /** What the value pattern reads in a written-back value followed by `z`. */
  lemma RematchParts(q: seq<char>, d: seq<char>, z: seq<char>)
    requires |q| <= 1 && (q == [] || IsQuote(q[0]))
    requires d != [] && AllDigits(d)
    requires q == [] ==> z == [] || !IsDigit(z[0])
    ensures var t := q + d + q + z;
      LeadingQuote(t) == q && SpanDigits(t[|q|..]) == |d| && t[|q|..|q| + |d|] == d &&
      (q != [] ==> |q| + |d| < |t| && t[|q| + |d|] == q[0])
  {
    RematchQuote(q, d, z);
    RematchDigits(q, d, z);
  }

  lemma RematchQuote(q: seq<char>, d: seq<char>, z: seq<char>)
    requires |q| <= 1 && (q == [] || IsQuote(q[0]))
    requires d != [] && AllDigits(d)
    ensures LeadingQuote(q + d + q + z) == q
  {
    var t := q + d + q + z;
    if q == [] {
      assert t[0] == d[0];
      assert !IsQuote(t[0]);
    } else {
      assert t[0] == q[0];
    }
  }

  lemma RematchDigits(q: seq<char>, d: seq<char>, z: seq<char>)
    requires |q| <= 1 && (q == [] || IsQuote(q[0]))
    requires d != [] && AllDigits(d)
    requires q == [] ==> z == [] || !IsDigit(z[0])
    ensures var t := q + d + q + z;
      SpanDigits(t[|q|..]) == |d| && t[|q|..|q| + |d|] == d &&
      (q != [] ==> |q| + |d| < |t| && t[|q| + |d|] == q[0])
  {
    var t := q + d + q + z;
    assert t[|q|..] == d + (q + z);
    if q != [] {
      assert (q + z)[0] == q[0];
    }
    SpanDigitsOfDigits(d, q + z);
    if q != [] {
      assert t[|q|..][|d|] == q[0];
    }
  }

  lemma WidthValueOfParts(t: seq<char>, q: seq<char>, d: seq<char>)
    requires LeadingQuote(t) == q && |q| + |d| <= |t| && d != []
    requires SpanDigits(t[|q|..]) == |d| && t[|q|..|q| + |d|] == d
    requires q != [] ==> |q| + |d| < |t| && t[|q| + |d|] == q[0]
    ensures WidthValue(t) == Some(WidthAttr(2 * |q| + |d|, q, d))
  {
    WidthValueShape(t);
  }

  /** A width attribute written back by the normaliser is matched again in
      full, with the same quote and digits, whatever follows it, as long as
      an unquoted value is not followed by a further digit. */
  lemma ParseWidthRematch(q: seq<char>, d: seq<char>, z: seq<char>)
    requires |q| <= 1 && (q == [] || IsQuote(q[0]))
    requires d != [] && AllDigits(d)
    requires q == [] ==> z == [] || !IsDigit(z[0])
    ensures ParseWidth("width=" + (q + d + q + z)) == Some(WidthAttr(6 + 2 * |q| + |d|, q, d))
  {
    RematchParts(q, d, z);
    ParseWidthOfParts(q + d + q + z, q, d);
  }

  /** One spelling of a width attribute that the case-insensitive pattern
      accepts: `width` in any letter case, white space on either side of `=`,
      and digits between two copies of an optional quote (`WIDTH = "700"`,
      `Width='300'`, `width=120`). */
  datatype WidthSpelling = WidthSpelling(name: seq<char>, before: seq<char>, after: seq<char>,
                                         quote: seq<char>, digits: seq<char>)
  {
    /** The parts are well formed and `rest` does not extend an unquoted value. */
    predicate FitsBefore(rest: seq<char>) {
      |name| == 5 && StartsWithCI(name, "width") &&
      (forall i | 0 <= i < |before| :: IsSpace(before[i])) &&
      (forall i | 0 <= i < |after| :: IsSpace(after[i])) &&
      |quote| <= 1 && (quote == [] || IsQuote(quote[0])) &&
      digits != [] && AllDigits(digits) &&
      (quote == [] ==> rest == [] || !IsDigit(rest[0]))
    }

    function Value(): seq<char> {
      quote + digits + quote
    }

    function Written(): seq<char> {
      name + before + "=" + after + Value()
    }
  }

  /** Every spelling the pattern accepts is matched in full, with its own
      quote and digits, whatever follows it. */
  lemma ParseWidthSpelled(sp: WidthSpelling, z: seq<char>)
    requires sp.FitsBefore(z)
    ensures var r := ParseWidth(sp.Written() + z);
      r.Some? && r.value.len == |sp.Written()| && r.value.quote == sp.quote && r.value.digits == sp.digits
  {
    var j := SpelledParts(sp, z);
    ParseWidthAt(sp.Written() + z, j, WidthAttr(|sp.Value()|, sp.quote, sp.digits));
  }

  /** Where the value starts in a spelling followed by `z`, and the value found there. */
  lemma SpelledParts(sp: WidthSpelling, z: seq<char>) returns (j: nat)
    requires sp.FitsBefore(z)
    ensures j + |sp.Value()| == |sp.Written()| && j <= |sp.Written() + z|
    ensures WidthValueStart(sp.Written() + z).Some? && WidthValueStart(sp.Written() + z).value == j
    ensures WidthValue((sp.Written() + z)[j..]) == Some(WidthAttr(|sp.Value()|, sp.quote, sp.digits))
  {
    ValueOfSpelled(sp, z);
    j := StartOfSpelled(sp, z);
  }

  /** A value found where the value starts makes the whole match. */
  lemma ParseWidthAt(s: seq<char>, j: nat, w: WidthAttr)
    requires j <= |s| && WidthValueStart(s).Some? && WidthValueStart(s).value == j
    requires WidthValue(s[j..]) == Some(w)
    ensures ParseWidth(s).Some? && ParseWidth(s).value.len == j + w.len
    ensures ParseWidth(s).value.quote == w.quote && ParseWidth(s).value.digits == w.digits
  {
    ParseWidthFrom(s, j);
  }

  lemma ValueOfSpelled(sp: WidthSpelling, z: seq<char>)
    requires sp.FitsBefore(z)
    ensures WidthValue(sp.Value() + z) == Some(WidthAttr(|sp.Value()|, sp.quote, sp.digits))
    ensures !IsSpace((sp.Value() + z)[0])
  {
    var q, d := sp.quote, sp.digits;
    RematchParts(q, d, z);
    WidthValueOfParts(q + d + q + z, q, d);
    WidthValueStartsWithNoSpace(q + d + q + z);
  }

  lemma StartOfSpelled(sp: WidthSpelling, z: seq<char>) returns (j: nat)
    requires sp.FitsBefore(z)
    ensures j + |sp.Value()| == |sp.Written()| && j <= |sp.Written() + z|
    ensures WidthValueStart(sp.Written() + z).Some? && WidthValueStart(sp.Written() + z).value == j
    ensures (sp.Written() + z)[j..] == sp.Value() + z
  {
    EqualsOfSpelled(sp, z);
    AfterEqualsOfSpelled(sp, z);
    StartAfterEquals(sp.Written() + z, 5 + |sp.before|, |sp.after|);
    j := 5 + |sp.before| + 1 + |sp.after|;
  }

  /** The white space after `=` of a spelling, and the value behind it. */
  lemma AfterEqualsOfSpelled(sp: WidthSpelling, z: seq<char>)
    requires sp.FitsBefore(z)
    requires 5 + |sp.before| + 1 <= |sp.Written() + z|
    requires (sp.Written() + z)[5 + |sp.before| + 1..] == sp.after + (sp.Value() + z)
    ensures var s := sp.Written() + z; var k := 5 + |sp.before| + 1;
      SpanSpaces(s[k..]) == |sp.after| && k + |sp.after| <= |s| && s[k + |sp.after|..] == sp.Value() + z
  {
    ValueOfSpelled(sp, z);
    SpacesBefore(sp.after, sp.Value() + z);
    DropAfter(sp.Written() + z, 5 + |sp.before| + 1, sp.after, sp.Value() + z);
  }

  /** After `=`, the white space is skipped and the value starts. */
  lemma StartAfterEquals(s: seq<char>, i: nat, k: nat)
    requires StartsWithCI(s, "width") && i == 5 + SpanSpaces(s[5..]) && i < |s| && s[i] == '='
    requires k == SpanSpaces(s[i + 1..])
    ensures WidthValueStart(s).Some? && WidthValueStart(s).value == i + 1 + k
  {
    WidthValueStartAt(s, i, k);
  }

  /** The name, the white space before `=` and the `=` of a spelling. */
  lemma EqualsOfSpelled(sp: WidthSpelling, z: seq<char>)
    requires sp.FitsBefore(z)
    ensures var s := sp.Written() + z; var i := 5 + |sp.before|;
      StartsWithCI(s, "width") && i == 5 + SpanSpaces(s[5..]) && i < |s| && s[i] == '=' &&
      s[i + 1..] == sp.after + (sp.Value() + z)
  {
    var s := sp.Written() + z;
    var after := sp.after + (sp.Value() + z);
    var rest := sp.before + ("=" + after);
    SpelledRegroup(sp, z);
    NameThen(sp.name, rest);
    SpacesBefore(sp.before, "=" + after);
    EqualsThen(s, 5 + |sp.before|, rest, after);
  }

  lemma SpelledRegroup(sp: WidthSpelling, z: seq<char>)
    ensures sp.Written() + z == sp.name + (sp.before + ("=" + (sp.after + (sp.Value() + z))))
  {
  }

  lemma NameThen(name: seq<char>, rest: seq<char>)
    requires |name| == 5 && StartsWithCI(name, "width")
    ensures StartsWithCI(name + rest, "width") && (name + rest)[5..] == rest
  {
    StartsWithCIAppend(name, rest, "width");
  }

  /** A run of white space followed by something else is spanned whole. */
  lemma SpacesBefore(a: seq<char>, r: seq<char>)
    requires forall i | 0 <= i < |a| :: IsSpace(a[i])
    requires r == [] || !IsSpace(r[0])
    ensures SpanSpaces(a + r) == |a| && (a + r)[|a|..] == r
  {
    var s := a + r;
    assert |a| < |s| ==> s[|a|] == r[0];
    SpanSpacesUnique(s, |a|);
  }

  lemma EqualsThen(s: seq<char>, i: nat, rest: seq<char>, after: seq<char>)
    requires i >= 5 && |s| == 5 + |rest| && s[5..] == rest
    requires i - 5 <= |rest| && rest[i - 5..] == "=" + after
    ensures i < |s| && s[i] == '=' && s[i + 1..] == after && i == 5 + (i - 5)
  {
    assert s[i..] == rest[i - 5..];
    assert s[i] == s[i..][0];
    assert s[i + 1..] == s[i..][1..];
  }

  lemma DropAfter(s: seq<char>, k: nat, b: seq<char>, t: seq<char>)
    requires k <= |s| && s[k..] == b + t
    ensures k + |b| <= |s| && s[k + |b|..] == t
  {
    assert s[k + |b|..] == s[k..][|b|..];
  }

  lemma ParseWidthOfParts(t: seq<char>, q: seq<char>, d: seq<char>)
    requires LeadingQuote(t) == q && |q| + |d| <= |t| && d != []
    requires SpanDigits(t[|q|..]) == |d| && t[|q|..|q| + |d|] == d
    requires q != [] ==> |q| + |d| < |t| && t[|q| + |d|] == q[0]
    ensures ParseWidth("width=" + t) == Some(WidthAttr(6 + 2 * |q| + |d|, q, d))
  {
    WidthValueOfParts(t, q, d);
    ParseWidthOfValue(t, q, d);
  }

  lemma ParseWidthOfValue(t: seq<char>, q: seq<char>, d: seq<char>)
    requires WidthValue(t) == Some(WidthAttr(2 * |q| + |d|, q, d))
    ensures ParseWidth("width=" + t) == Some(WidthAttr(6 + 2 * |q| + |d|, q, d))
  {
    ParseWidthOfWritten(t, WidthAttr(2 * |q| + |d|, q, d));
  }

  /** A value right after `width=` is matched with the six characters in front. */
  lemma ParseWidthOfWritten(t: seq<char>, w: WidthAttr)
    requires WidthValue(t) == Some(w)
    ensures ParseWidth("width=" + t) == Some(WidthAttr(6 + w.len, w.quote, w.digits))
  {
    WidthValueStartsWithNoSpace(t);
    WidthValueStartOfWritten(t);
    ParseWidthFrom("width=" + t, 6);
  }

  /** A value match starts with a quote or a digit, never with white space. */
  lemma WidthValueStartsWithNoSpace(t: seq<char>)
    requires WidthValue(t).Some?
    ensures !IsSpace(t[0])
  {
    var w := WidthValue(t).value;
    assert t[..w.len][0] == t[0];
  }

  lemma WidthValueStartOfWritten(t: seq<char>)
    requires t == [] || !IsSpace(t[0])
    ensures WidthValueStart("width=" + t) == Some(6) && ("width=" + t)[6..] == t
  {
    var s := "width=" + t;
    assert StartsWithCI(s, "width") by { assert s[..5] == "width"; }
    assert SpanSpaces(s[5..]) == 0 by { assert s[5..][0] == '='; }
    assert s[6..] == t;
    assert SpanSpaces(s[6..]) == 0;
    WidthValueStartAt(s, 5, 0);
  }

  // -----------------------------------------------------------------------
  // What the width pattern leaves alone
  // -----------------------------------------------------------------------

  /** A quoted value must be digits closed by the same quote: a quoted
      percentage (`width="50%"`), a mismatched closing quote (`width="600'`)
      or a quoted word (`width="auto"`) is not a width match. */
  lemma QuotedValueRejected(q: char, d: seq<char>, c: char, t: seq<char>)
    requires IsQuote(q) && AllDigits(d) && !IsDigit(c) && c != q
    ensures ParseWidth("width=" + ([q] + d + [c] + t)).None?
  {
    var v := [q] + d + [c] + t;
    QuotedValueSpelled(q, d, c, t);
    SpanDigitsOfDigits(d, [c] + t);
    QuotedValueUnclosed(v, |d|);
    WidthValueStartOfWritten(v);
    ParseWidthNoValue("width=" + v);
  }

  lemma QuotedValueSpelled(q: char, d: seq<char>, c: char, t: seq<char>)
    ensures var v := [q] + d + [c] + t;
      |v| > 1 + |d| && v[0] == q && v[1..] == d + ([c] + t) && v[1 + |d|] == c
  {
    var v := [q] + d + [c] + t;
    assert v[1..] == d + ([c] + t);
  }

  /** A leading quote whose digit run is not followed by the same quote. */
  lemma QuotedValueUnclosed(v: seq<char>, n: nat)
    requires v != [] && IsQuote(v[0]) && SpanDigits(v[1..]) == n
    requires 1 + n < |v| && v[1 + n] != v[0]
    ensures WidthValue(v).None?
  {
  }

  lemma ParseWidthNoValue(s: seq<char>)
    requires WidthValueStart(s) == Some(6) && WidthValue(s[6..]).None?
    ensures ParseWidth(s).None?
  {
  }

  /** An unquoted value that does not start with a digit (`width=auto`) is
      not a width match. */
  lemma NonNumericRejected(c: char, t: seq<char>)
    requires !IsSpace(c) && !IsQuote(c) && !IsDigit(c)
    ensures ParseWidth("width=" + ([c] + t)).None?
  {
    var v := [c] + t;
    WidthValueStartOfWritten(v);
    ParseWidthFrom("width=" + v, 6);
    SpanDigitsOfDigits([], v);
    assert [] + v == v;
  }

  /** An unquoted percentage is matched all the same: its digits are taken
      as a pixel width and the `%` is left behind them. */
  lemma UnquotedPercentMatched(d: seq<char>, t: seq<char>)
    requires d != [] && AllDigits(d)
    ensures ParseWidth("width=" + (d + "%" + t)) == Some(WidthAttr(6 + |d|, [], d))
  {
    ParseWidthRematch([], d, "%" + t);
    UnquotedRegroup(d, "%", t);
  }

  lemma UnquotedRegroup(d: seq<char>, p: seq<char>, t: seq<char>)
    ensures [] + d + [] + (p + t) == d + p + t
  {
  }

  /** One spelling of an empty paragraph that the case-insensitive pattern
      accepts: `<p>` and `</p>` in any letter case around white space, with
      at most one `&nbsp;` (any case) in it (`<p></p>`, `<P> &nbsp; </P>`). */
  datatype ParagraphSpelling = ParagraphSpelling(open: seq<char>, before: seq<char>, entity: seq<char>,
                                                 after: seq<char>, close: seq<char>)
  {
    predicate WellFormed() {
      |open| == 3 && StartsWithCI(open, "<p>") &&
      (forall i | 0 <= i < |before| :: IsSpace(before[i])) &&
      (entity == [] || (|entity| == 6 && StartsWithCI(entity, "&nbsp;"))) &&
      (forall i | 0 <= i < |after| :: IsSpace(after[i])) &&
      |close| == 4 && StartsWithCI(close, "</p>")
    }

    function Written(): seq<char> {
      open + before + entity + after + close
    }
  }

  /** Every spelling of an empty paragraph is matched in full and replaced
      by nothing, whatever follows it. */
  lemma EmptyParagraphSpelled(sp: ParagraphSpelling, t: seq<char>)
    requires sp.WellFormed()
    ensures var r := EmptyParagraphMatch(sp.Written() + t);
      r.Some? && r.value.len == |sp.Written()| && r.value.replacement == []
  {
    if sp.entity == [] {
      PlainSpelled(sp.open, sp.before, sp.entity, sp.after, sp.close, t);
    } else {
      EntitySpelled(sp.open, sp.before, sp.entity, sp.after, sp.close, t);
    }
  }

  /** What follows the white space of a spelling: a closing tag, never an entity. */
  lemma ClosingRest(c: seq<char>, t: seq<char>)
    requires |c| == 4 && StartsWithCI(c, "</p>")
    ensures c + t != [] && (c + t)[0] == '<' && !IsSpace((c + t)[0])
    ensures StartsWithCI(c + t, "</p>") && !StartsWithCI(c + t, "&nbsp;")
  {
    assert c[0] == '<' by { assert Lower(c[0]) == Lower("</p>"[0]); }
    StartsWithCIAppend(c, t, "</p>");
    assert Lower((c + t)[0]) != Lower("&nbsp;"[0]);
  }

  lemma PlainSpelled(o: seq<char>, b: seq<char>, e: seq<char>, a: seq<char>, c: seq<char>, t: seq<char>)
    requires e == [] && |o| == 3 && StartsWithCI(o, "<p>")
    requires (forall i | 0 <= i < |b| :: IsSpace(b[i])) && (forall i | 0 <= i < |a| :: IsSpace(a[i]))
    requires |c| == 4 && StartsWithCI(c, "</p>")
    ensures var r := EmptyParagraphMatch(o + b + e + a + c + t);
      r.Some? && r.value.len == |o + b + e + a + c| && r.value.replacement == []
  {
    var u := b + a;
    var rest := c + t;
    ClosingRest(c, t);
    SpacesBefore(u, rest);
    var s := o + (u + rest);
    StartsWithCIAppend(o, u + rest, "<p>");
    PlainSlices(o, u, rest);
    EmptyParagraphAt(s, 3 + |u|);
    PlainRegroup(o, b, e, a, c, t);
  }

  lemma PlainRegroup(o: seq<char>, b: seq<char>, e: seq<char>, a: seq<char>, c: seq<char>, t: seq<char>)
    requires e == []
    ensures o + b + e + a + c + t == o + ((b + a) + (c + t))
  {
  }

  lemma PlainSlices(o: seq<char>, u: seq<char>, r: seq<char>)
    ensures (o + (u + r))[|o|..] == u + r && (o + (u + r))[|o| + |u|..] == r
  {
  }

  lemma EntitySpelled(o: seq<char>, b: seq<char>, e: seq<char>, a: seq<char>, c: seq<char>, t: seq<char>)
    requires |o| == 3 && StartsWithCI(o, "<p>") && |e| == 6 && StartsWithCI(e, "&nbsp;")
    requires (forall i | 0 <= i < |b| :: IsSpace(b[i])) && (forall i | 0 <= i < |a| :: IsSpace(a[i]))
    requires |c| == 4 && StartsWithCI(c, "</p>")
    ensures var r := EmptyParagraphMatch(o + b + e + a + c + t);
      r.Some? && r.value.len == |o + b + e + a + c| && r.value.replacement == []
  {
    var rest := c + t;
    ClosingRest(c, t);
    SpacesBefore(a, rest);
    assert e[0] == '&' by { assert Lower(e[0]) == Lower("&nbsp;"[0]); }
    var x := e + (a + rest);
    SpacesBefore(b, x);
    StartsWithCIAppend(e, a + rest, "&nbsp;");
    var s := o + (b + x);
    StartsWithCIAppend(o, b + x, "<p>");
    EntitySlices(o, b, e, a, rest);
    EntityAt(s, 3 + |b|, 3 + |b| + 6 + |a|);
    EntityRegroup(o, b, e, a, c, t);
  }

  lemma EntityRegroup(o: seq<char>, b: seq<char>, e: seq<char>, a: seq<char>, c: seq<char>, t: seq<char>)
    ensures o + b + e + a + c + t == o + (b + (e + (a + (c + t))))
  {
  }

  lemma EntitySlices(o: seq<char>, b: seq<char>, e: seq<char>, a: seq<char>, r: seq<char>)
    ensures var s := o + (b + (e + (a + r)));
      s[|o|..] == b + (e + (a + r)) && s[|o| + |b|..] == e + (a + r) &&
      s[|o| + |b| + |e|..] == a + r && s[|o| + |b| + |e| + |a|..] == r
  {
  }

  /** The empty-paragraph pattern where no `&nbsp;` follows the opening run
      of white space. */
  lemma EmptyParagraphAt(s: seq<char>, i: nat)
    requires |s| >= 3 && StartsWithCI(s, "<p>") && i == 3 + SpanSpaces(s[3..])
    requires !StartsWithCI(s[i..], "&nbsp;") && StartsWithCI(s[i..], "</p>")
    ensures EmptyParagraphMatch(s).Some? && EmptyParagraphMatch(s).value.len == i + 4
    ensures EmptyParagraphMatch(s).value.replacement == []
  {
    ClosedAt(s, i, i);
  }

  /** The empty-paragraph pattern where a `&nbsp;` follows the opening run
      of white space. */
  lemma EntityAt(s: seq<char>, i: nat, j: nat)
    requires |s| >= 3 && StartsWithCI(s, "<p>") && i == 3 + SpanSpaces(s[3..])
    requires i + 6 <= |s| && StartsWithCI(s[i..], "&nbsp;") && j == i + 6 + SpanSpaces(s[i + 6..])
    requires j <= |s| && StartsWithCI(s[j..], "</p>")
    ensures EmptyParagraphMatch(s).Some? && EmptyParagraphMatch(s).value.len == j + 4
    ensures EmptyParagraphMatch(s).value.replacement == []
  {
    ClosedAt(s, i, j);
  }

  /** The pattern once the end `j` of the white space and the optional
      entity is known. */
  lemma ClosedAt(s: seq<char>, i: nat, j: nat)
    requires |s| >= 3 && StartsWithCI(s, "<p>") && i == 3 + SpanSpaces(s[3..])
    requires i <= |s| && j == EntityEnd(s, i)
    requires StartsWithCI(s[j..], "</p>")
    ensures EmptyParagraphMatch(s).Some? && EmptyParagraphMatch(s).value.len == j + 4
    ensures EmptyParagraphMatch(s).value.replacement == []
  {
  }
}
