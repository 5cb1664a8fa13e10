/**
 * The HTML clean-up helpers of the hosted editor: the empty-paragraph strip,
 * the width normaliser and the URL sanitiser (hosted_editor/editor.js).
 */
module Sanitizers {
  import opened Wrappers
  import opened JsText
  import opened Patterns

  /** Removes every empty paragraph (white space and at most one `&nbsp;`
      inside), wherever it stands: despite the name, not only a leading one.
      Everything else is kept, in order. */
  function RemoveLeadingEmptyParagraph(html: seq<char>): seq<char> {
    ReplaceAll(EmptyParagraph, html)
  }

  /** The strip only deletes: what remains is the input with characters left
      out, in their order, and it is the input itself exactly when the input
      holds no empty paragraph. */
  lemma RemoveLeadingEmptyParagraphDeletes(html: seq<char>)
    ensures var r := RemoveLeadingEmptyParagraph(html);
      |r| <= |html| && IsSubsequence(r, html) && (r == html <==> !Occurs(EmptyParagraph, html))
  {
    ReplaceAllShortens(EmptyParagraph, html);
    ReplaceAllFixedIff(EmptyParagraph, html);
    ReplaceAllKeepsOrder(EmptyParagraph, html);
  }

  /** The strip goes on after a match: text without `<` before an empty
      paragraph, in any spelling the pattern accepts (`<p></p>`,
      `<P> &nbsp; </P>`, …), is kept, the paragraph is removed, and the rest
      is stripped in turn, so every empty paragraph goes, not only the first. */
  lemma RemoveEmptyParagraphContinues(p: seq<char>, sp: ParagraphSpelling, t: seq<char>)
    requires '<' !in p
    requires sp.WellFormed()
    ensures RemoveLeadingEmptyParagraph(p + sp.Written() + t) == p + RemoveLeadingEmptyParagraph(t)
  {
    EmptyParagraphSpelled(sp, t);
    RemoveMatchedParagraphContinues(p, sp.Written(), t);
  }

  lemma RemoveMatchedParagraphContinues(p: seq<char>, e: seq<char>, t: seq<char>)
    requires '<' !in p
    requires EmptyParagraphMatch(e + t).Some?
    requires EmptyParagraphMatch(e + t).value.len == |e| && EmptyParagraphMatch(e + t).value.replacement == []
    ensures RemoveLeadingEmptyParagraph(p + e + t) == p + RemoveLeadingEmptyParagraph(t)
  {
    NoEmptyParagraphWithoutAngle(p, e + t);
    EmptyParagraphMatchAt(e + t, Match(|e|, []));
    ReplaceAllDeletesAfterUnmatched(EmptyParagraph, p, e, t);
  }

  lemma NoEmptyParagraphWithoutAngle(p: seq<char>, s: seq<char>)
    requires '<' !in p
    ensures forall i | 0 <= i < |p| :: MatchAt(EmptyParagraph, p[i..] + s).None?
  {
    forall i | 0 <= i < |p| ensures MatchAt(EmptyParagraph, p[i..] + s).None? {
      assert (p[i..] + s)[0] == p[i];
      NotAtAngle(p[i..] + s);
    }
  }

  /** Rewrites every numeric width attribute to lower-case `width=`, keeping
      its quote, with the value clamped to 600; text without one is unchanged. */
  function NormalizeWidths(html: seq<char>): (r: seq<char>)
    ensures Normalized(r)
    ensures !Occurs(Width, html) ==> r == html
  {
    ReplaceAllWidthNormalizes(html);
    if !Occurs(Width, html) then ReplaceAllWithoutOccurrence(Width, html); ReplaceAll(Width, html)
    else ReplaceAll(Width, html)
  }

  /** Normalising twice is normalising once. */
  lemma NormalizeWidthsIdempotent(html: seq<char>)
    ensures NormalizeWidths(NormalizeWidths(html)) == NormalizeWidths(html)
  {
    NormalizedIsFixed(NormalizeWidths(html));
  }

  /** Each width attribute is rewritten where it stands: text before it
      with no `w` of either case is kept; the attribute becomes lower-case
      `width=`, its own quote, its value in decimal, or 600 when the value is
      over 600, and the quote again; and the rest is normalised in turn. */
  lemma NormalizeWidthsRewrites(p: seq<char>, s: seq<char>, w: WidthAttr)
    requires forall i | 0 <= i < |p| :: !IsW(p[i])
    requires ParseWidth(s) == Some(w)
    ensures var v := DigitsValue(w.digits);
      NormalizeWidths(p + s) ==
        p + "width=" + w.quote + NatToString(if v > 600 then 600 else v) + w.quote +
        NormalizeWidths(s[w.len..])
  {
    var n := NatToString(ClampedWidth(w.digits));
    NoWidthInStretch(p, s);
    WidthMatchAt(s, w);
    ReplaceAllAfterUnmatched(Width, p, s, Match(w.len, "width=" + w.quote + n + w.quote));
    Regroup(p, "width=", w.quote, n, w.quote, ReplaceAll(Width, s[w.len..]));
  }

  /** Every spelling of a width attribute is written back the same way:
      `WIDTH = "700"` becomes `width="600"`, `Width='300'` becomes
      `width='300'`, and normalising goes on after the closing quote. */
  lemma NormalizeWidthsSpelled(p: seq<char>, sp: WidthSpelling, z: seq<char>)
    requires forall i | 0 <= i < |p| :: !IsW(p[i])
    requires sp.FitsBefore(z)
    ensures var v := DigitsValue(sp.digits);
      NormalizeWidths(p + (sp.Written() + z)) ==
        p + "width=" + sp.quote + NatToString(if v > 600 then 600 else v) + sp.quote + NormalizeWidths(z)
  {
    ParseWidthSpelled(sp, z);
    SpelledTail(sp.Written(), z);
    NormalizeWidthsRewritesTail(p, sp.Written() + z, ParseWidth(sp.Written() + z).value, z);
  }

  lemma NormalizeWidthsRewritesTail(p: seq<char>, s: seq<char>, w: WidthAttr, z: seq<char>)
    requires forall i | 0 <= i < |p| :: !IsW(p[i])
    requires ParseWidth(s) == Some(w) && s[w.len..] == z
    ensures var v := DigitsValue(w.digits);
      NormalizeWidths(p + s) ==
        p + "width=" + w.quote + NatToString(if v > 600 then 600 else v) + w.quote + NormalizeWidths(z)
  {
    NormalizeWidthsRewrites(p, s, w);
  }

  lemma SpelledTail(h: seq<char>, z: seq<char>)
    ensures (h + z)[|h|..] == z
  {
  }

  /** A quoted value that is not digits closed by the same quote (a quoted
      percentage, a mismatched quote, a quoted word) is left as it is, and
      normalising goes on after its digits. */
  lemma NormalizeWidthsKeepsUnclosedQuote(q: char, d: seq<char>, c: char, t: seq<char>)
    requires IsQuote(q) && AllDigits(d) && !IsDigit(c) && c != q
    ensures NormalizeWidths("width=" + ([q] + d + [c] + t)) ==
      "width=" + [q] + d + NormalizeWidths([c] + t)
  {
    QuotedValueRejected(q, d, c, t);
    UnclosedQuoteSpelled(q, d, c, t);
    NormalizeWidthsSkips("width=" + [q] + d, [c] + t);
  }

  lemma UnclosedQuoteSpelled(q: char, d: seq<char>, c: char, t: seq<char>)
    requires IsQuote(q) && AllDigits(d)
    ensures var p := "width=" + [q] + d;
      "width=" + ([q] + d + [c] + t) == p + ([c] + t) && forall i | 1 <= i < |p| :: !IsW(p[i])
  {
    var p := "width=" + [q] + d;
    assert "width=" + ([q] + d + [c] + t) == p + ([c] + t);
    forall i | 1 <= i < |p| ensures !IsW(p[i]) {
      if i < 7 { assert p[i] == ("width=" + [q])[i]; } else { assert p[i] == d[i - 7]; }
    }
  }

  /** An unquoted value that does not start with a digit is left as it is. */
  lemma NormalizeWidthsKeepsNonNumeric(c: char, t: seq<char>)
    requires !IsSpace(c) && !IsQuote(c) && !IsDigit(c)
    ensures NormalizeWidths("width=" + ([c] + t)) == "width=" + NormalizeWidths([c] + t)
  {
    NonNumericRejected(c, t);
    NormalizeWidthsSkips("width=", [c] + t);
  }

  /** Text at whose start no width matches, with no `w` after its first
      character, is copied and normalising goes on after it. */
  lemma NormalizeWidthsSkips(p: seq<char>, s: seq<char>)
    requires p != [] && ParseWidth(p + s).None?
    requires forall i | 1 <= i < |p| :: !IsW(p[i])
    ensures NormalizeWidths(p + s) == p + NormalizeWidths(s)
  {
    NoWidthInStretch(p[1..], s);
    forall i | 0 <= i < |p| ensures MatchAt(Width, p[i..] + s).None? {
      if i > 0 { assert p[i..] == p[1..][i - 1..]; }
    }
    ReplaceAllCopiesUnmatched(Width, p, s);
  }

  // -----------------------------------------------------------------------
  // Width normaliser: every width it leaves is already normal
  // -----------------------------------------------------------------------

  /** At the start of `x`, either no width attribute matches, or the one that
      matches is written as the normaliser writes it: lower-case `width=`,
      its quote on both sides, a value of at most 600 without leading zeros. */
  predicate NormalizedAt(x: seq<char>) {
    match ParseWidth(x)
    case None => true
    case Some(w) =>
      DigitsValue(w.digits) <= 600 && w.digits == NatToString(DigitsValue(w.digits)) &&
      x[..w.len] == "width=" + w.quote + w.digits + w.quote
  }

  /** Every width attribute in `t`, wherever a match could start, is normal. */
  predicate Normalized(t: seq<char>) {
    forall i | 0 <= i < |t| :: NormalizedAt(t[i..])
  }

  lemma NormalizedSuffix(t: seq<char>, k: nat)
    requires Normalized(t) && k <= |t|
    ensures Normalized(t[k..])
  {
    forall i | 0 <= i < |t| - k ensures NormalizedAt(t[k..][i..]) {
      assert t[k..][i..] == t[k + i..];
    }
  }

  lemma NormalizedAppend(p: seq<char>, x: seq<char>)
    requires Normalized(x)
    requires forall i :: 0 <= i < |p| ==> NormalizedAt((p + x)[i..])
    ensures Normalized(p + x)
  {
    forall i | |p| <= i < |p + x| ensures NormalizedAt((p + x)[i..]) {
      assert (p + x)[i..] == x[i - |p|..];
    }
  }

  /** Text that is already normal is left exactly as it is. */
  lemma {:induction false} NormalizedIsFixed(t: seq<char>)
    requires Normalized(t)
    ensures ReplaceAll(Width, t) == t
    decreases |t|
  {
    if t != [] {
      NormalizedHead(t);
      match ParseWidth(t)
      case None =>
        NormalizedSuffix(t, 1);
        NormalizedIsFixed(t[1..]);
        KeptCharFixed(t);
      case Some(w) =>
        NormalizedSuffix(t, w.len);
        NormalizedIsFixed(t[w.len..]);
        NormalWidthRewritesToItself(t, w);
        ReplaceAllOfIdentityMatch(Width, t, w.len);
    }
  }

  lemma KeptCharFixed(t: seq<char>)
    requires t != [] && ParseWidth(t).None? && ReplaceAll(Width, t[1..]) == t[1..]
    ensures ReplaceAll(Width, t) == t
  {
    ReplaceAllKeepsFirst(Width, t);
    assert t == [t[0]] + t[1..];
  }

  lemma NormalizedHead(t: seq<char>)
    requires Normalized(t) && t != []
    ensures NormalizedAt(t)
  {
    assert t[0..] == t;
  }

  /** A width attribute that is already normal is replaced by its own text. */
  lemma NormalWidthRewritesToItself(t: seq<char>, w: WidthAttr)
    requires NormalizedAt(t) && ParseWidth(t) == Some(w)
    ensures MatchAt(Width, t) == Some(Match(w.len, t[..w.len]))
  {
    NatToStringRoundTrip(DigitsValue(w.digits));
    assert ClampedWidth(w.digits) == DigitsValue(w.digits);
  }

  /** The text the normaliser writes for one attribute. */
  function WrittenWidth(q: seq<char>, d: seq<char>): (x: seq<char>)
    ensures |x| == 6 + 2 * |q| + |d| && x[0] == 'w'
  {
    "width=" + q + d + q
  }

  /** The text the normaliser writes for one attribute has its only `w` at the front. */
  lemma WrittenWidthHasOneW(q: seq<char>, d: seq<char>)
    requires |q| <= 1 && (q == [] || IsQuote(q[0])) && AllDigits(d)
    ensures var x := WrittenWidth(q, d);
      forall i :: 1 <= i < |x| ==> !IsW(x[i])
  {
    var x := WrittenWidth(q, d);
    forall i | 1 <= i < |x| ensures !IsW(x[i]) {
      if i < 6 { assert x[i] == "width="[i]; }
      else if i < 6 + |q| { assert x[i] == q[0]; }
      else if i < 6 + |q| + |d| { assert x[i] == d[i - 6 - |q|]; }
      else { assert x[i] == q[0]; }
    }
  }

  /** No match starts at a character other than a `w`. */
  lemma NoWidthWithoutW(x: seq<char>)
    requires x != [] && !IsW(x[0])
    ensures ParseWidth(x).None?
  {
    assert Lower(x[0]) != Lower("width"[0]);
    assert !StartsWithCI(x, "width");
  }

  /** Every width the scan leaves is normal, and up to the first `w` the
      result is the input itself. */
  lemma {:induction false} ReplaceAllWidthNormalizes(s: seq<char>)
    ensures Normalized(ReplaceAll(Width, s))
    ensures SameUpTo(ReplaceAll(Width, s), s, FirstW(s))
    decreases |s|
  {
    if s != [] {
      match ParseWidth(s)
      case None =>
        ReplaceAllWidthNormalizes(s[1..]);
        UnmatchedCharNormalizes(s);
      case Some(w) =>
        ReplaceAllWidthNormalizes(s[w.len..]);
        MatchedWidthNormalizes(s, w);
    }
  }

  lemma UnmatchedCharNormalizes(s: seq<char>)
    requires s != [] && ParseWidth(s).None?
    requires Normalized(ReplaceAll(Width, s[1..]))
    requires SameUpTo(ReplaceAll(Width, s[1..]), s[1..], FirstW(s[1..]))
    ensures Normalized(ReplaceAll(Width, s))
    ensures SameUpTo(ReplaceAll(Width, s), s, FirstW(s))
  {
    ReplaceAllKeepsFirst(Width, s);
    UnmatchedCharKeepsPrefix(s, ReplaceAll(Width, s[1..]));
    UnmatchedCharKeepsNormal(s, ReplaceAll(Width, s[1..]));
  }

  /** Putting the same character in front keeps two texts alike up to the next `w`. */
  lemma UnmatchedCharKeepsPrefix(s: seq<char>, r: seq<char>)
    requires s != [] && SameUpTo(r, s[1..], FirstW(s[1..]))
    ensures SameUpTo([s[0]] + r, s, FirstW(s))
  {
    assert [s[0]] + s[1..] == s;
    SameUpToCons(s[0], r, s[1..], FirstW(s[1..]));
    if IsW(s[0]) {
      assert FirstW(s) == 0;
      assert ([s[0]] + r)[0] == s[0];
    } else {
      assert FirstW(s) == FirstW(s[1..]) + 1;
    }
  }

  /** An unmatched character in front of a normal text leaves it normal. */
  lemma UnmatchedCharKeepsNormal(s: seq<char>, r: seq<char>)
    requires s != [] && ParseWidth(s).None?
    requires Normalized(r) && SameUpTo(r, s[1..], FirstW(s[1..]))
    ensures Normalized([s[0]] + r)
  {
    var x := [s[0]] + r;
    SameUpToCons(s[0], r, s[1..], FirstW(s[1..]));
    assert [s[0]] + s[1..] == s;
    ParseWidthSame(x, s, FirstW(s[1..]) + 1);
    assert x[0..] == x;
    NormalizedAppend([s[0]], r);
  }

  lemma MatchedWidthNormalizes(s: seq<char>, w: WidthAttr)
    requires ParseWidth(s) == Some(w)
    requires Normalized(ReplaceAll(Width, s[w.len..]))
    requires SameUpTo(ReplaceAll(Width, s[w.len..]), s[w.len..], FirstW(s[w.len..]))
    ensures Normalized(ReplaceAll(Width, s))
    ensures SameUpTo(ReplaceAll(Width, s), s, FirstW(s))
  {
    var r' := ReplaceAll(Width, s[w.len..]);
    var d := NatToString(ClampedWidth(w.digits));
    WidthRewriteStep(s, w);
    MatchStartsWithW(s);
    NoDigitAfterUnquoted(s, w, r');
    WrittenWidthNormal(w.quote, d, r', ClampedWidth(w.digits));
    assert (WrittenWidth(w.quote, d) + r')[0] == 'w';
  }

  /** One step of the scan at a width match: the attribute is written back. */
  lemma WidthRewriteStep(s: seq<char>, w: WidthAttr)
    requires ParseWidth(s) == Some(w)
    ensures ReplaceAll(Width, s) ==
      WrittenWidth(w.quote, NatToString(ClampedWidth(w.digits))) + ReplaceAll(Width, s[w.len..])
  {
    var m := Match(w.len, "width=" + w.quote + NatToString(ClampedWidth(w.digits)) + w.quote);
    assert MatchAt(Width, s) == Some(m);
    ReplaceAllReplacesFirst(Width, s, m);
  }

  lemma MatchStartsWithW(s: seq<char>)
    requires ParseWidth(s).Some?
    ensures IsW(s[0]) && FirstW(s) == 0
  {
    assert Lower(s[0]) == Lower("width"[0]);
  }

  /** After an unquoted value the scan of the rest does not start with a
      digit: the value took every digit, and the rest begins unchanged. */
  lemma NoDigitAfterUnquoted(s: seq<char>, w: WidthAttr, r: seq<char>)
    requires ParseWidth(s) == Some(w)
    requires SameUpTo(r, s[w.len..], FirstW(s[w.len..]))
    ensures w.quote == [] ==> r == [] || !IsDigit(r[0])
  {
    if w.quote == [] && r != [] {
      var n := FirstW(s[w.len..]);
      if n > 0 {
        SameAt(r, s[w.len..], n, 0);
        assert s[w.len..][0] == s[w.len];
      } else {
        WIsNoDelimiter(r[0]);
      }
    }
  }

  /** A written-back attribute in front of a normal text gives a normal
      text, which starts with a `w`. */
  lemma WrittenWidthNormal(q: seq<char>, d: seq<char>, r: seq<char>, v: nat)
    requires |q| <= 1 && (q == [] || IsQuote(q[0]))
    requires v <= 600 && d == NatToString(v)
    requires q == [] ==> r == [] || !IsDigit(r[0])
    requires Normalized(r)
    ensures Normalized(WrittenWidth(q, d) + r)
  {
    var x := WrittenWidth(q, d);
    NatToStringRoundTrip(v);
    WrittenWidthNormalAtHead(q, d, r, v);
    WrittenWidthNormalInside(q, d, r);
    NormalizedAppend(x, r);
  }

  lemma WrittenWidthNormalAtHead(q: seq<char>, d: seq<char>, r: seq<char>, v: nat)
    requires |q| <= 1 && (q == [] || IsQuote(q[0]))
    requires v <= 600 && d == NatToString(v) && DigitsValue(d) == v
    requires q == [] ==> r == [] || !IsDigit(r[0])
    ensures NormalizedAt(WrittenWidth(q, d) + r)
  {
    var x := WrittenWidth(q, d);
    ConcatWritten(q, d, r);
    ParseWidthRematch(q, d, r);
    assert (x + r)[..|x|] == x;
  }

  lemma ConcatWritten(q: seq<char>, d: seq<char>, r: seq<char>)
    ensures WrittenWidth(q, d) + r == "width=" + (q + d + q + r)
  {
  }

  lemma WrittenWidthNormalInside(q: seq<char>, d: seq<char>, r: seq<char>)
    requires |q| <= 1 && (q == [] || IsQuote(q[0])) && AllDigits(d)
    ensures forall i :: 1 <= i < |WrittenWidth(q, d)| ==> NormalizedAt((WrittenWidth(q, d) + r)[i..])
  {
    var x := WrittenWidth(q, d);
    WrittenWidthHasOneW(q, d);
    forall i | 1 <= i < |x| ensures NormalizedAt((x + r)[i..]) {
      assert (x + r)[i..][0] == x[i];
      NoWidthWithoutW((x + r)[i..]);
    }
  }

  /** A bare `<p></p>` matches, whatever follows it. */
  lemma BareEmptyParagraphMatches(t: seq<char>)
    ensures EmptyParagraphMatch("<p></p>" + t) == Some(Match(7, []))
  {
    var s := "<p></p>" + t;
    assert StartsWithCI(s, "<p>");
    assert SpanSpaces(s[3..]) == 0 by { assert !IsSpace(s[3..][0]); }
    assert !StartsWithCI(s[3..], "&nbsp;") by { assert Lower(s[3..][0]) != Lower("&nbsp;"[0]); }
    assert StartsWithCI(s[3..], "</p>");
  }

  /** One pass of the empty-paragraph strip can create a new empty paragraph,
      so a second pass may remove more: the strip is not idempotent. */
  lemma RemoveEmptyParagraphNotIdempotent(s: seq<char>)
    requires s == "<p><p></p></p>"
    ensures RemoveLeadingEmptyParagraph(s) == "<p></p>"
    ensures RemoveLeadingEmptyParagraph(RemoveLeadingEmptyParagraph(s)) == []
  {
    var inner := "<p></p></p>";
    ParagraphTexts();
    OpeningTagKept(inner);
    InnerParagraphStrips("</p>");
    assert ReplaceAll(EmptyParagraph, s) == "<p>" + "</p>";
    BareEmptyParagraphStrips([]);
    assert "<p></p>" + [] == "<p></p>";
  }

  /** The texts of the example above, split where the scan splits them. */
  lemma ParagraphTexts()
    ensures "<p><p></p></p>" == "<p>" + "<p></p></p>"
    ensures "<p></p></p>" == "<p></p>" + "</p>"
    ensures "<p>" + "</p>" == "<p></p>"
  {
  }

  /** An opening `<p>` followed by another tag is no empty paragraph and is kept. */
  lemma OpeningTagKept(t: seq<char>)
    requires |t| >= 2 && t[0] == '<' && t[1] == 'p'
    ensures ReplaceAll(EmptyParagraph, "<p>" + t) == "<p>" + ReplaceAll(EmptyParagraph, t)
  {
    var s := "<p>" + t;
    OpeningTagTails(t);
    OpeningParagraphUnmatched(t);
    NotAtAngle(s[1..]);
    NotAtAngle(s[2..]);
    ReplaceAllKeepsFirst(EmptyParagraph, s);
    ReplaceAllKeepsFirst(EmptyParagraph, s[1..]);
    ReplaceAllKeepsFirst(EmptyParagraph, s[2..]);
    OpeningTagSpelled(ReplaceAll(EmptyParagraph, t));
  }

  lemma OpeningTagTails(t: seq<char>)
    ensures var s := "<p>" + t;
      s[0] == '<' && s[1..][0] == 'p' && s[2..][0] == '>' &&
      s[1..][1..] == s[2..] && s[2..][1..] == t
  {
  }

  lemma OpeningTagSpelled(x: seq<char>)
    ensures ['<'] + (['p'] + (['>'] + x)) == "<p>" + x
  {
  }

  lemma OpeningParagraphUnmatched(t: seq<char>)
    requires |t| >= 2 && t[0] == '<' && t[1] == 'p'
    ensures MatchAt(EmptyParagraph, "<p>" + t).None?
  {
    var s := "<p>" + t;
    assert s[3..] == t;
    assert SpanSpaces(t) == 0 by { assert !IsSpace(t[0]); }
    assert !StartsWithCI(t, "&nbsp;") by { assert Lower(t[0]) != Lower("&nbsp;"[0]); }
    assert !StartsWithCI(t, "</p>") by { assert Lower(t[1]) != Lower("</p>"[1]); }
  }

  /** An empty paragraph can only start at a `<`. */
  lemma NotAtAngle(s: seq<char>)
    requires s != [] && s[0] != '<'
    ensures MatchAt(EmptyParagraph, s).None?
  {
    assert !StartsWithCI(s, "<p>") by { assert Lower(s[0]) != Lower("<p>"[0]); }
  }

  lemma InnerParagraphStrips(rest: seq<char>)
    requires rest == "</p>"
    ensures ReplaceAll(EmptyParagraph, "<p></p>" + rest) == rest
  {
    BareEmptyParagraphStrips(rest);
    ClosingTagUnmatched(rest);
    ReplaceAllWithoutOccurrence(EmptyParagraph, rest);
  }

  /** Stripping a bare `<p></p>` at the front leaves the strip of what follows. */
  lemma BareEmptyParagraphStrips(t: seq<char>)
    ensures ReplaceAll(EmptyParagraph, "<p></p>" + t) == ReplaceAll(EmptyParagraph, t)
  {
    var s := "<p></p>" + t;
    BareEmptyParagraphMatches(t);
    assert s[7..] == t;
  }

  lemma ClosingTagUnmatched(rest: seq<char>)
    requires rest == "</p>"
    ensures !Occurs(EmptyParagraph, rest)
  {
    forall i | 0 <= i < |rest| ensures EmptyParagraphMatch(rest[i..]).None? {
      if i == 0 { assert Lower(rest[1]) != Lower("<p>"[1]); }
      else { assert rest[i..][0] != '<'; }
    }
  }

  // -----------------------------------------------------------------------
  // URL sanitiser
  // -----------------------------------------------------------------------

  /** The trimmed URL, or the empty text when the URL is empty or, once
      trimmed, starts with `javascript:` in any letter case. */
  function SanitizeUrl(url: seq<char>): (r: seq<char>)
    ensures r == [] <==> Trim(url) == [] || StartsWithCI(Trim(url), "javascript:")
    ensures r != [] ==> r == Trim(url)
  {
    if url == [] then []
    else
      var trimmed := Trim(url);
      if StartsWithCI(trimmed, "javascript:") then [] else trimmed
  }

  /** A sanitised URL has no surrounding white space and sanitising it again
      changes nothing. */
  lemma {:induction false} SanitizeUrlIdempotent(url: seq<char>)
    ensures var r := SanitizeUrl(url); r == [] || (!IsSpace(r[0]) && !IsSpace(r[|r| - 1]))
    ensures SanitizeUrl(SanitizeUrl(url)) == SanitizeUrl(url)
  {
    TrimShape(url);
    TrimIdempotent(url);
  }
}
