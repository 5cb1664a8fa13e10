/**
 * What each rule of the paste clean-up does to text of the shape its
 * pattern describes: the piece at the start of the text is removed or
 * rewritten, and the global replace goes on with what follows it.
 */
module RuleEffects {
  import opened Wrappers
  import opened JsText
  import opened Patterns

  /** A match that spans exactly `a` at the start of the text: `a` becomes
      the replacement and the scan resumes right after it. */
  lemma ReplaceAllAtStart(rule: Rule, a: seq<char>, t: seq<char>, r: seq<char>)
    requires MatchAt(rule, a + t).Some?
    requires MatchAt(rule, a + t).value.len == |a| && MatchAt(rule, a + t).value.replacement == r
    ensures ReplaceAll(rule, a + t) == r + ReplaceAll(rule, t)
  {
    ReplaceAllReplacesFirst(rule, a + t, MatchAt(rule, a + t).value);
    assert (a + t)[|a|..] == t;
  }

  // -----------------------------------------------------------------------
  // Tags: `<`, an optional `/`, the name, anything but `>`, then `>`
  // -----------------------------------------------------------------------

  /** An `o:p` tag, opening or closing, its name in any letter case and
      whatever follows the name, is removed. */
  lemma OfficeTagRemoved(slash: seq<char>, n: seq<char>, x: seq<char>, t: seq<char>)
    requires slash == [] || slash == "/"
    requires |n| == 3 && StartsWithCI(n, "o:p")
    requires '>' !in x
    ensures ReplaceAll(OfficeTag, "<" + slash + n + x + ">" + t) == ReplaceAll(OfficeTag, t)
  {
    TagMatchSpans("o:p", n, slash, x, t);
    ReplaceAllAtStart(OfficeTag, "<" + slash + n + x + ">", t, []);
  }

  /** A `span` tag, opening or closing, its name in any letter case and with
      whatever attributes, is removed. */
  lemma SpanTagRemoved(slash: seq<char>, n: seq<char>, x: seq<char>, t: seq<char>)
    requires slash == [] || slash == "/"
    requires |n| == 4 && StartsWithCI(n, "span")
    requires '>' !in x
    ensures ReplaceAll(SpanTag, "<" + slash + n + x + ">" + t) == ReplaceAll(SpanTag, t)
  {
    TagMatchSpans("span", n, slash, x, t);
    ReplaceAllAtStart(SpanTag, "<" + slash + n + x + ">", t, []);
  }

  /** A tag whose name `n` is `name` in some letter case is matched up to its `>`. */
  lemma TagMatchSpans(name: seq<char>, n: seq<char>, slash: seq<char>, x: seq<char>, t: seq<char>)
    requires name != [] && IsAsciiLetter(name[0])
    requires |n| == |name| && StartsWithCI(n, name)
    requires slash == [] || slash == "/"
    requires '>' !in x
    ensures var r := TagMatch("<" + slash + n + x + ">" + t, name);
      r.Some? && r.value.len == |"<" + slash + n + x + ">"| && r.value.replacement == []
  {
    var s := "<" + slash + n + x + ">" + t;
    assert n[0] != '/' by { assert Lower(n[0]) == Lower(name[0]); }
    TagSpelled(slash, n, x, t);
    StartsWithCIAppend(n, x + ">" + t, name);
    IndexOfFirst(x, '>', t);
    TagMatchOf(s, name, 1 + |slash|, |x|);
  }

  lemma TagSpelled(slash: seq<char>, n: seq<char>, x: seq<char>, t: seq<char>)
    requires n != [] && n[0] != '/'
    requires slash == [] || slash == "/"
    ensures var s := "<" + slash + n + x + ">" + t;
      var i := 1 + |slash|;
      |s| > 1 && s[0] == '<' && (i == if s[1] == '/' then 2 else 1) &&
      s[i..] == n + (x + ">" + t) && s[i + |n|..] == x + ">" + t &&
      |"<" + slash + n + x + ">"| == i + |n| + |x| + 1
  {
    var s := "<" + slash + n + x + ">" + t;
    var rest := x + ">" + t;
    assert s == "<" + slash + (n + rest);
    assert s[1] == if slash == [] then n[0] else '/';
  }

  lemma TagMatchOf(s: seq<char>, name: seq<char>, i: nat, k: nat)
    requires name != [] && IsAsciiLetter(name[0])
    requires s != [] && s[0] == '<'
    requires i == if |s| > 1 && s[1] == '/' then 2 else 1
    requires i + |name| <= |s| && StartsWithCI(s[i..], name)
    requires IndexOf(s[i + |name|..], '>') == Some(k)
    ensures var r := TagMatch(s, name);
      r.Some? && r.value.len == i + |name| + k + 1 && r.value.replacement == []
  {
  }

  lemma StartsWithItself(p: seq<char>, r: seq<char>)
    ensures StartsWithCI(p + r, p)
  {
    assert forall i :: 0 <= i < |p| ==> (p + r)[i] == p[i];
  }

  lemma IndexOfFirst(x: seq<char>, c: char, t: seq<char>)
    requires c !in x
    ensures IndexOf(x + [c] + t, c) == Some(|x|)
  {
    var s := x + [c] + t;
    assert s[|x|] == c;
    assert forall k | 0 <= k < |x| :: s[k] == x[k];
    assert s[..|x| + 1][|x|] == c;
  }

  // -----------------------------------------------------------------------
  // Delimited runs: the opening text, the shortest run, the closing text
  // -----------------------------------------------------------------------

  /** No occurrence of `close` (letters in either case) starts inside `x`
      when `x` is followed by `close` and then `t`. */
  predicate NoCloseWithin(x: seq<char>, close: seq<char>, t: seq<char>)
    decreases |x|
  {
    x == [] || (!StartsWithCI(x + close + t, close) && NoCloseWithin(x[1..], close, t))
  }

  /** A comment is removed up to the first `-->` after its `<!--`. */
  lemma CommentRemoved(x: seq<char>, t: seq<char>)
    requires NoCloseWithin(x, "-->", t)
    ensures ReplaceAll(Comment, "<!--" + x + "-->" + t) == ReplaceAll(Comment, t)
  {
    CommentAt("<!--" + x + "-->" + t);
    DelimitedRemoved(Comment, "<!--", "-->", x, t);
  }

  /** An MSO fragment is removed from `<![` up to the first `]>`. */
  lemma MsoFragmentRemoved(x: seq<char>, t: seq<char>)
    requires NoCloseWithin(x, "]>", t)
    ensures ReplaceAll(MsoFragment, "<![" + x + "]>" + t) == ReplaceAll(MsoFragment, t)
  {
    MsoFragmentAt("<![" + x + "]>" + t);
    DelimitedRemoved(MsoFragment, "<![", "]>", x, t);
  }

  /** A style block is removed from `<style` up to the first `</style>`,
      letters in either case. */
  lemma StyleBlockRemoved(x: seq<char>, t: seq<char>)
    requires NoCloseWithin(x, "</style>", t)
    ensures ReplaceAll(StyleBlock, "<style" + x + "</style>" + t) == ReplaceAll(StyleBlock, t)
  {
    StyleBlockAt("<style" + x + "</style>" + t);
    DelimitedRemoved(StyleBlock, "<style", "</style>", x, t);
  }

  lemma CommentAt(s: seq<char>)
    ensures MatchAt(Comment, s) == DelimitedMatch(s, "<!--", "-->")
  {
  }

  lemma MsoFragmentAt(s: seq<char>)
    ensures MatchAt(MsoFragment, s) == DelimitedMatch(s, "<![", "]>")
  {
  }

  lemma StyleBlockAt(s: seq<char>)
    ensures MatchAt(StyleBlock, s) == DelimitedMatch(s, "<style", "</style>")
  {
  }

  lemma DelimitedRemoved(rule: Rule, open: seq<char>, close: seq<char>, x: seq<char>, t: seq<char>)
    requires open != [] && NoCloseWithin(x, close, t)
    requires MatchAt(rule, open + x + close + t) == DelimitedMatch(open + x + close + t, open, close)
    ensures ReplaceAll(rule, open + x + close + t) == ReplaceAll(rule, t)
  {
    DelimitedMatchSpans(open, close, x, t);
    ReplaceAllAtStart(rule, open + x + close, t, []);
  }

  lemma DelimitedMatchSpans(open: seq<char>, close: seq<char>, x: seq<char>, t: seq<char>)
    requires open != [] && NoCloseWithin(x, close, t)
    ensures var r := DelimitedMatch(open + x + close + t, open, close);
      r.Some? && r.value.len == |open + x + close| && r.value.replacement == []
  {
    var s := open + x + close + t;
    DelimitedSpelled(open, x, close, t);
    StartsWithItself(open, x + close + t);
    FindFirst(x, close, t);
    DelimitedMatchOf(s, open, close, |x|);
  }

  lemma DelimitedMatchOf(s: seq<char>, open: seq<char>, close: seq<char>, k: nat)
    requires open != [] && StartsWithCI(s, open)
    requires FindCI(s[|open|..], close).Some? && FindCI(s[|open|..], close).value == k
    ensures var r := DelimitedMatch(s, open, close);
      r.Some? && r.value.len == |open| + k + |close| && r.value.replacement == []
  {
  }

  lemma DelimitedSpelled(open: seq<char>, x: seq<char>, close: seq<char>, t: seq<char>)
    ensures open + x + close + t == open + (x + close + t)
    ensures (open + x + close + t)[|open|..] == x + close + t
    ensures |open + x + close| == |open| + |x| + |close|
  {
  }

  /** The shortest run before `p` ends where `p` first starts. */
  lemma {:induction false} FindFirst(x: seq<char>, p: seq<char>, t: seq<char>)
    requires NoCloseWithin(x, p, t)
    ensures FindCI(x + p + t, p).Some? && FindCI(x + p + t, p).value == |x|
    decreases |x|
  {
    if x == [] {
      FindAtClose(p, t);
    } else {
      FindFirst(x[1..], p, t);
      FindPastFirst(x, p, t);
    }
  }

  lemma FindAtClose(p: seq<char>, t: seq<char>)
    ensures FindCI([] + p + t, p).Some? && FindCI([] + p + t, p).value == 0
  {
    assert [] + p + t == p + t;
    StartsWithItself(p, t);
    FindHere(p + t, p);
  }

  lemma FindPastFirst(x: seq<char>, p: seq<char>, t: seq<char>)
    requires x != [] && !StartsWithCI(x + p + t, p)
    requires FindCI(x[1..] + p + t, p).Some? && FindCI(x[1..] + p + t, p).value == |x| - 1
    ensures FindCI(x + p + t, p).Some? && FindCI(x + p + t, p).value == |x|
  {
    TailOfConcat(x, p, t);
    FindLater(x + p + t, p);
  }

  lemma TailOfConcat(x: seq<char>, p: seq<char>, t: seq<char>)
    requires x != []
    ensures (x + p + t)[1..] == x[1..] + p + t
  {
  }

  lemma FindHere(s: seq<char>, p: seq<char>)
    requires StartsWithCI(s, p)
    ensures FindCI(s, p).Some? && FindCI(s, p).value == 0
  {
  }

  lemma FindLater(s: seq<char>, p: seq<char>)
    requires s != [] && !StartsWithCI(s, p) && FindCI(s[1..], p).Some?
    ensures FindCI(s, p).Some? && FindCI(s, p).value == FindCI(s[1..], p).value + 1
  {
  }

  // -----------------------------------------------------------------------
  // Attributes: white space, the name, `=` with white space around it, a value
  // -----------------------------------------------------------------------

  /** The three forms of value the attribute patterns accept. */
  datatype AttributeValue =
    | DoubleQuoted(inner: seq<char>)
    | SingleQuoted(inner: seq<char>)
    | Unquoted(text: seq<char>)
  {
    function Written(): seq<char> {
      match this
      case DoubleQuoted(v) => "\"" + v + "\""
      case SingleQuoted(v) => "'" + v + "'"
      case Unquoted(v) => v
    }

    /** The value, written in front of `t`, is read whole: a quoted value
        holds no quote of its kind; an unquoted one does not start with a
        quote, holds no white space or `>`, and ends where `t` starts with
        one of them or the text ends. */
    predicate FitsBefore(t: seq<char>) {
      match this
      case DoubleQuoted(v) => '"' !in v
      case SingleQuoted(v) => '\'' !in v
      case Unquoted(v) =>
        v != [] && !IsQuote(v[0]) &&
        (forall i | 0 <= i < |v| :: !IsSpace(v[i]) && v[i] != '>') &&
        (t == [] || IsSpace(t[0]) || t[0] == '>')
    }
  }

  /** A class, style, alt or height attribute, with its value in any of the
      three forms and the white-space character before it, is removed. */
  lemma AttributeRemoved(attr: Attribute, c: char, a: seq<char>, b: seq<char>, value: AttributeValue, t: seq<char>)
    requires !attr.VmlAttribute?
    requires IsSpace(c) && value.FitsBefore(t)
    requires forall i | 0 <= i < |a| :: IsSpace(a[i])
    requires forall i | 0 <= i < |b| :: IsSpace(b[i])
    ensures var rule := StripAttribute(attr);
      ReplaceAll(rule, [c] + AttributeName(attr) + a + "=" + b + value.Written() + t) == ReplaceAll(rule, t)
  {
    var w := value.Written();
    ValueRead(value, t);
    PlainNameLength(attr, a + ("=" + (b + (w + t))));
    AttributeStripped(attr, c, AttributeName(attr), a, b, w, t);
  }

  /** A `v:` attribute (any run of letters after `v:`), with its value in
      any of the three forms and the white-space character before it, is
      removed. */
  lemma VmlAttributeRemoved(c: char, letters: seq<char>, a: seq<char>, b: seq<char>, value: AttributeValue, t: seq<char>)
    requires letters != [] && forall i | 0 <= i < |letters| :: IsAsciiLetter(letters[i])
    requires IsSpace(c) && value.FitsBefore(t)
    requires forall i | 0 <= i < |a| :: IsSpace(a[i])
    requires forall i | 0 <= i < |b| :: IsSpace(b[i])
    ensures var rule := StripAttribute(VmlAttribute);
      ReplaceAll(rule, [c] + "v:" + letters + a + "=" + b + value.Written() + t) == ReplaceAll(rule, t)
  {
    var w := value.Written();
    var n := "v:" + letters;
    ValueRead(value, t);
    AssignmentStart(a, b, w + t);
    VmlNameLength(letters, a + ("=" + (b + (w + t))));
    VmlSpelled(c, letters, a, b, w, t);
    AttributeStripped(VmlAttribute, c, n, a, b, w, t);
  }

  /** The value pattern reads exactly the written value. */
  lemma ValueRead(value: AttributeValue, t: seq<char>)
    requires value.FitsBefore(t)
    ensures var w := value.Written();
      w != [] && !IsSpace(w[0]) &&
      AttributeValueLength(w + t).Some? && AttributeValueLength(w + t).value == |w|
  {
    match value
    case DoubleQuoted(v) => QuotedValue('"', v, t);
    case SingleQuoted(v) => QuotedValue('\'', v, t);
    case Unquoted(v) => UnquotedValue(v, t);
  }

  /** A quoted value runs to the next quote of its kind. */
  lemma QuotedValue(q: char, v: seq<char>, t: seq<char>)
    requires IsQuote(q) && q !in v
    ensures var w := [q] + v + [q];
      AttributeValueLength(w + t).Some? && AttributeValueLength(w + t).value == |w|
  {
    var u := [q] + v + [q] + t;
    assert u[0] == q;
    assert u[1..] == v + [q] + t;
    IndexOfFirst(v, q, t);
  }

  /** An unquoted value runs to the next white space or `>`. */
  lemma UnquotedValue(v: seq<char>, t: seq<char>)
    requires Unquoted(v).FitsBefore(t)
    ensures AttributeValueLength(v + t).Some? && AttributeValueLength(v + t).value == |v|
  {
    var u := v + t;
    assert u[0] == v[0];
    assert forall i | 0 <= i < |v| :: u[i] == v[i];
    assert |v| < |u| ==> u[|v|] == t[0];
    assert SpanUnquotedValue(u) == |v|;
  }

  lemma AssignmentStart(a: seq<char>, b: seq<char>, r: seq<char>)
    requires forall i | 0 <= i < |a| :: IsSpace(a[i])
    ensures var u := a + ("=" + (b + r));
      u != [] && !IsAsciiLetter(u[0])
  {
    var u := a + ("=" + (b + r));
    assert u[0] == if a == [] then '=' else a[0];
  }

  lemma VmlSpelled(c: char, letters: seq<char>, a: seq<char>, b: seq<char>, w: seq<char>, t: seq<char>)
    ensures [c] + "v:" + letters + a + "=" + b + w + t == [c] + ("v:" + letters) + a + "=" + b + w + t
  {
    assert [c] + "v:" + letters == [c] + ("v:" + letters);
  }

  /** White space, the name `n`, an assignment of the written value `w`:
      all of it is removed and the scan goes on with `t`. */
  lemma AttributeStripped(attr: Attribute, c: char, n: seq<char>, a: seq<char>, b: seq<char>, w: seq<char>, t: seq<char>)
    requires IsSpace(c) && w != [] && !IsSpace(w[0])
    requires AttributeValueLength(w + t).Some? && AttributeValueLength(w + t).value == |w|
    requires forall i | 0 <= i < |a| :: IsSpace(a[i])
    requires forall i | 0 <= i < |b| :: IsSpace(b[i])
    requires var r := AttributeNameLength(attr, n + (a + ("=" + (b + (w + t)))));
      r.Some? && r.value == |n|
    ensures var rule := StripAttribute(attr);
      ReplaceAll(rule, [c] + n + a + "=" + b + w + t) == ReplaceAll(rule, t)
  {
    var s := [c] + n + a + "=" + b + w + t;
    AttributeMatchSpans(attr, c, n, a, b, w, t);
    StripAttributeAt(attr, s);
    ReplaceAllAtStart(StripAttribute(attr), [c] + n + a + "=" + b + w, t, []);
  }

  lemma StripAttributeAt(attr: Attribute, s: seq<char>)
    ensures MatchAt(StripAttribute(attr), s) == AttributeMatch(attr, s)
  {
  }

  lemma AttributeMatchSpans(attr: Attribute, c: char, n: seq<char>, a: seq<char>, b: seq<char>, w: seq<char>, t: seq<char>)
    requires IsSpace(c) && w != [] && !IsSpace(w[0])
    requires AttributeValueLength(w + t).Some? && AttributeValueLength(w + t).value == |w|
    requires forall i | 0 <= i < |a| :: IsSpace(a[i])
    requires forall i | 0 <= i < |b| :: IsSpace(b[i])
    requires var r := AttributeNameLength(attr, n + (a + ("=" + (b + (w + t)))));
      r.Some? && r.value == |n|
    ensures var r := AttributeMatch(attr, [c] + n + a + "=" + b + w + t);
      r.Some? && r.value.len == |[c] + n + a + "=" + b + w| && r.value.replacement == []
  {
    AttributeSpelled(c, n, a, b, w, t);
    AssignmentSpans(a, b, w, t);
    AttributeMatchOf(attr, [c] + n + a + "=" + b + w + t, |n|, |a| + 1 + |b| + |w|);
  }

  lemma AttributeSpelled(c: char, n: seq<char>, a: seq<char>, b: seq<char>, w: seq<char>, t: seq<char>)
    ensures var s := [c] + n + a + "=" + b + w + t;
      var u := a + ("=" + (b + (w + t)));
      s[0] == c && s[1..] == n + u && s[1 + |n|..] == u &&
      |[c] + n + a + "=" + b + w| == 1 + |n| + |a| + 1 + |b| + |w|
  {
    var u := a + ("=" + (b + (w + t)));
    var s := [c] + n + a + "=" + b + w + t;
    assert s == [c] + (n + u);
  }

  lemma AttributeMatchOf(attr: Attribute, s: seq<char>, n: nat, m: nat)
    requires s != [] && IsSpace(s[0])
    requires AttributeNameLength(attr, s[1..]).Some? && AttributeNameLength(attr, s[1..]).value == n
    requires AssignmentLength(s[1 + n..]).Some? && AssignmentLength(s[1 + n..]).value == m
    ensures var r := AttributeMatch(attr, s);
      r.Some? && r.value.len == 1 + n + m && r.value.replacement == []
  {
  }

  /** White space, `=`, white space and a value read whole. */
  lemma AssignmentSpans(a: seq<char>, b: seq<char>, w: seq<char>, t: seq<char>)
    requires w != [] && !IsSpace(w[0])
    requires AttributeValueLength(w + t).Some? && AttributeValueLength(w + t).value == |w|
    requires forall i | 0 <= i < |a| :: IsSpace(a[i])
    requires forall i | 0 <= i < |b| :: IsSpace(b[i])
    ensures var r := AssignmentLength(a + ("=" + (b + (w + t))));
      r.Some? && r.value == |a| + 1 + |b| + |w|
  {
    var r1 := "=" + (b + (w + t));
    AssignmentSpelled(a, b, w + t);
    SpanSpacesOver(a, r1);
    SpacedValueSpans(b, w, t, |a| + 1);
    AssignmentFromOf(a + r1, |a|, |b| + |w|);
    AssignmentOf(a + r1, |a|, |b| + |w|);
  }

  lemma AssignmentSpelled(a: seq<char>, b: seq<char>, r: seq<char>)
    ensures var r1 := "=" + (b + r);
      var u := a + r1;
      r1[0] == '=' && u[|a|] == '=' && u[|a| + 1..] == b + r
  {
    var r1 := "=" + (b + r);
    assert (a + r1)[|a| + 1..] == b + r;
  }

  lemma AssignmentOf(u: seq<char>, i: nat, w: nat)
    requires i == SpanSpaces(u)
    requires AssignmentFrom(u, i).Some? && AssignmentFrom(u, i).value == i + 1 + w
    ensures AssignmentLength(u).Some? && AssignmentLength(u).value == i + 1 + w
  {
  }

  lemma AssignmentFromOf(u: seq<char>, i: nat, w: nat)
    requires i < |u| && u[i] == '='
    requires SpacedValueLength(u[i + 1..], i + 1).Some? && SpacedValueLength(u[i + 1..], i + 1).value == i + 1 + w
    ensures AssignmentFrom(u, i).Some? && AssignmentFrom(u, i).value == i + 1 + w
  {
  }

  /** White space then a value read whole. */
  lemma SpacedValueSpans(b: seq<char>, w: seq<char>, t: seq<char>, offset: nat)
    requires w != [] && !IsSpace(w[0])
    requires AttributeValueLength(w + t).Some? && AttributeValueLength(w + t).value == |w|
    requires forall i | 0 <= i < |b| :: IsSpace(b[i])
    ensures var r := SpacedValueLength(b + (w + t), offset);
      r.Some? && r.value == offset + |b| + |w|
  {
    var r := w + t;
    assert r[0] == w[0];
    assert (b + r)[|b|..] == r;
    SpanSpacesOver(b, r);
    SpacedValueOf(b + r, offset, |b|, |w|);
  }

  lemma SpacedValueOf(w: seq<char>, offset: nat, k: nat, v: nat)
    requires k == SpanSpaces(w)
    requires AttributeValueLength(w[k..]).Some? && AttributeValueLength(w[k..]).value == v
    ensures SpacedValueLength(w, offset).Some? && SpacedValueLength(w, offset).value == offset + k + v
  {
  }

  /** A run of white space stops at the first character that is not white space. */
  lemma SpanSpacesOver(a: seq<char>, r: seq<char>)
    requires forall i | 0 <= i < |a| :: IsSpace(a[i])
    requires r != [] && !IsSpace(r[0])
    ensures SpanSpaces(a + r) == |a|
  {
    assert (a + r)[|a|] == r[0];
    assert forall i | 0 <= i < |a| :: (a + r)[i] == a[i];
    SpanSpacesUnique(a + r, |a|);
  }

  lemma PlainNameLength(attr: Attribute, r: seq<char>)
    requires !attr.VmlAttribute?
    ensures var n := AttributeNameLength(attr, AttributeName(attr) + r);
      n.Some? && n.value == |AttributeName(attr)|
  {
    StartsWithItself(AttributeName(attr), r);
  }

  lemma VmlNameLength(letters: seq<char>, r: seq<char>)
    requires letters != [] && forall i | 0 <= i < |letters| :: IsAsciiLetter(letters[i])
    requires r == [] || !IsAsciiLetter(r[0])
    ensures var n := AttributeNameLength(VmlAttribute, "v:" + letters + r);
      n.Some? && n.value == |"v:" + letters|
  {
    var s := "v:" + letters + r;
    StartsWithItself("v:", letters + r);
    assert s == "v:" + (letters + r);
    assert s[2..] == letters + r;
    SpanLettersOver(letters, r);
  }

  lemma SpanLettersOver(a: seq<char>, r: seq<char>)
    requires forall i | 0 <= i < |a| :: IsAsciiLetter(a[i])
    requires r == [] || !IsAsciiLetter(r[0])
    ensures SpanLetters(a + r) == |a|
  {
    var s := a + r;
    assert forall i | 0 <= i < |a| :: s[i] == a[i];
    assert |a| < |s| ==> s[|a|] == r[0];
  }

  // -----------------------------------------------------------------------
  // Rewrites: the legacy width and the bold tags
  // -----------------------------------------------------------------------

  /** A quote the 468 rewrite may take on either side of the number: none,
      a double quote or a single quote. */
  predicate OptionalQuote(q: seq<char>) {
    q == [] || q == "\"" || q == "'"
  }

  /** A width of 468, unquoted or with either quote on either side, becomes
      `width="600"`. A closing quote is taken with it; without one, the
      number must not be followed by white space or a quote (which the
      pattern's trailing `\s*["']?` would also take). */
  lemma LegacyWidthRewritten(open: seq<char>, close: seq<char>, t: seq<char>)
    requires OptionalQuote(open) && OptionalQuote(close)
    requires close == [] && t != [] ==> !IsSpace(t[0]) && !IsQuote(t[0])
    ensures ReplaceAll(LegacyWidth, "width=" + open + "468" + close + t) ==
      "width=\"600\"" + ReplaceAll(LegacyWidth, t)
  {
    var u := open + ("468" + (close + t));
    LegacySpelled(open, close, t);
    WidthValueStartOfWritten(u);
    LegacyNumberOf(open, close, t, 6);
    LegacyWidthMatchOf("width=" + u, |open| + 3 + |close|);
    ReplaceAllAtStart(LegacyWidth, "width=" + open + "468" + close, t, "width=\"600\"");
  }

  lemma LegacySpelled(open: seq<char>, close: seq<char>, t: seq<char>)
    requires OptionalQuote(open)
    ensures var u := open + ("468" + (close + t));
      "width=" + open + "468" + close + t == "width=" + u && u != [] && !IsSpace(u[0]) &&
      |"width=" + open + "468" + close| == 6 + |open| + 3 + |close|
  {
    var u := open + ("468" + (close + t));
    assert u[0] == if open == [] then '4' else open[0];
  }

  lemma LegacyWidthMatchOf(s: seq<char>, n: nat)
    requires WidthValueStart(s) == Some(6)
    requires LegacyNumber(s[6..], 6).Some? && LegacyNumber(s[6..], 6).value.len == 6 + n
    ensures var r := MatchAt(LegacyWidth, s);
      r.Some? && r.value.len == 6 + n && r.value.replacement == "width=\"600\""
  {
  }

  /** After `width=`: the optional opening quote, `468`, the optional closing quote. */
  lemma LegacyNumberOf(open: seq<char>, close: seq<char>, t: seq<char>, offset: nat)
    requires OptionalQuote(open) && OptionalQuote(close)
    requires close == [] && t != [] ==> !IsSpace(t[0]) && !IsQuote(t[0])
    ensures var r := LegacyNumber(open + ("468" + (close + t)), offset);
      r.Some? && r.value.len == offset + |open| + 3 + |close|
  {
    var u := open + ("468" + (close + t));
    LegacyNumberSpelled(open, close + t);
    LegacyCloseOf(close, t, offset + |open| + 3);
    LegacyNumberFrom(u, offset, |open|);
  }

  lemma LegacyNumberSpelled(open: seq<char>, r: seq<char>)
    requires OptionalQuote(open)
    ensures var u := open + ("468" + r);
      var o := |open|;
      o == (if u != [] && IsQuote(u[0]) then 1 else 0) && o < |u| &&
      !IsSpace(u[o..][0]) && StartsWithCI(u[o..], "468") && u[o + 3..] == r
  {
    var u := open + ("468" + r);
    var o := |open|;
    assert u[0] == if open == [] then '4' else open[0];
    assert u[o..] == "468" + r;
    StartsWithItself("468", r);
  }

  lemma LegacyNumberFrom(u: seq<char>, offset: nat, o: nat)
    requires o == (if u != [] && IsQuote(u[0]) then 1 else 0)
    requires o < |u| && !IsSpace(u[o..][0]) && StartsWithCI(u[o..], "468")
    ensures var r := LegacyNumber(u, offset);
      r.Some? && r.value.len == LegacyClose(u[o + 3..], offset + o + 3).len
  {
  }

  lemma LegacyCloseOf(close: seq<char>, t: seq<char>, offset: nat)
    requires OptionalQuote(close)
    requires close == [] && t != [] ==> !IsSpace(t[0]) && !IsQuote(t[0])
    ensures LegacyClose(close + t, offset).len == offset + |close|
  {
    var v := close + t;
    if close != [] {
      assert v[0] == close[0];
    } else {
      assert v == t;
    }
  }

  /** `<b>`, in either letter case and with any white space before `>`,
      becomes `<strong>`. */
  lemma BoldOpenRewritten(ob: seq<char>, sp: seq<char>, t: seq<char>)
    requires |ob| == 2 && StartsWithCI(ob, "<b")
    requires forall i | 0 <= i < |sp| :: IsSpace(sp[i])
    ensures ReplaceAll(BoldOpen, ob + sp + ">" + t) == "<strong>" + ReplaceAll(BoldOpen, t)
  {
    BoldOpenSpelled(ob, sp, t);
    SpanSpacesOver(sp, ">" + t);
    BoldOpenMatchOf(ob + sp + ">" + t, |sp|);
    ReplaceAllAtStart(BoldOpen, ob + sp + ">", t, "<strong>");
  }

  lemma BoldOpenSpelled(ob: seq<char>, sp: seq<char>, t: seq<char>)
    requires |ob| == 2 && StartsWithCI(ob, "<b")
    ensures var s := ob + sp + ">" + t;
      StartsWithCI(s, "<b") && s[2..] == sp + (">" + t) && s[2 + |sp|] == '>' &&
      |ob + sp + ">"| == 2 + |sp| + 1
  {
    var s := ob + sp + ">" + t;
    assert s == ob + (sp + (">" + t));
    StartsWithCIAppend(ob, sp + (">" + t), "<b");
  }

  lemma BoldOpenMatchOf(s: seq<char>, n: nat)
    requires StartsWithCI(s, "<b") && |s| >= 2 && SpanSpaces(s[2..]) == n
    requires 2 + n < |s| && s[2 + n] == '>'
    ensures var r := MatchAt(BoldOpen, s);
      r.Some? && r.value.len == 2 + n + 1 && r.value.replacement == "<strong>"
  {
  }

  /** `</b>`, in either letter case, becomes `</strong>`. */
  lemma BoldCloseRewritten(c: seq<char>, t: seq<char>)
    requires |c| == 4 && StartsWithCI(c, "</b>")
    ensures ReplaceAll(BoldClose, c + t) == "</strong>" + ReplaceAll(BoldClose, t)
  {
    StartsWithCIAppend(c, t, "</b>");
    ReplaceAllAtStart(BoldClose, c, t, "</strong>");
  }

  /** An empty paragraph, in any of the spellings the pattern accepts, is
      removed and the scan goes on after it. */
  lemma EmptyParagraphRemoved(sp: ParagraphSpelling, t: seq<char>)
    requires sp.WellFormed()
    ensures ReplaceAll(EmptyParagraph, sp.Written() + t) == ReplaceAll(EmptyParagraph, t)
  {
    EmptyParagraphSpelled(sp, t);
    var m := EmptyParagraphMatch(sp.Written() + t).value;
    EmptyParagraphMatchAt(sp.Written() + t, m);
    ReplaceAllAtStart(EmptyParagraph, sp.Written(), t, []);
  }
}
