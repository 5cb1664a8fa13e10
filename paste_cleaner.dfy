/**
 * The paste clean-up of the hosted editor (the `paste_preprocess` hook in
 * hosted_editor/editor.js): a fixed sequence of global regular-expression
 * replaces over the pasted HTML, finished by the width normaliser.
 */
module PasteCleaner {
  import opened Wrappers
  import opened JsText
  import opened Patterns
  import opened Sanitizers
  import opened RuleEffects

  /** The removals that come first: Office `o:p` tags, comments (the source
      runs the same comment pattern twice), MSO conditional fragments, style
      blocks, then the class, style, alt, `v:*` and height attributes. */
  const StripRules: seq<Rule> := [
    OfficeTag, Comment, Comment, MsoFragment, StyleBlock,
    StripAttribute(Class), StripAttribute(Style), StripAttribute(Alt),
    StripAttribute(VmlAttribute), StripAttribute(Height)
  ]

  /** Then the rewrites: a width of 468 becomes `width="600"`, `<b>` becomes
      `<strong>`, `</b>` becomes `</strong>`; and the last removals: span
      tags and empty paragraphs. */
  const RewriteRules: seq<Rule> := [LegacyWidth, BoldOpen, BoldClose, SpanTag, EmptyParagraph]

  /** Applies the rules in order, each as one global replace over the result
      of the one before. */
  function ApplyRules(rules: seq<Rule>, html: seq<char>): seq<char>
    decreases |rules|
  {
    if rules == [] then html else ApplyRules(rules[1..], ReplaceAll(rules[0], html))
  }

  /** The pasted HTML as the editor inserts it: every width attribute left
      in it is normal, so normalising it again changes nothing. */
  function PasteClean(html: seq<char>): (r: seq<char>)
    ensures Normalized(r)
    ensures NormalizeWidths(r) == r
  {
    var r := NormalizeWidths(ApplyRules(StripRules + RewriteRules, html));
    NormalizeWidthsIdempotent(ApplyRules(StripRules + RewriteRules, html));
    r
  }

  // -----------------------------------------------------------------------
  // Properties of the chain
  // -----------------------------------------------------------------------

  /** Applying a list of rules one after another is applying its two halves
      one after another. */
  lemma {:induction false} ApplyRulesAppend(a: seq<Rule>, b: seq<Rule>, html: seq<char>)
    ensures ApplyRules(a + b, html) == ApplyRules(b, ApplyRules(a, html))
    decreases |a|
  {
    if a != [] {
      assert (a + b)[1..] == a[1..] + b;
      ApplyRulesAppend(a[1..], b, ReplaceAll(a[0], html));
    } else {
      assert a + b == b;
    }
  }

  /** Text in which none of the patterns occurs passes through every rule unchanged. */
  lemma {:induction false} ApplyRulesWithoutOccurrence(rules: seq<Rule>, html: seq<char>)
    requires forall i :: 0 <= i < |rules| ==> !Occurs(rules[i], html)
    ensures ApplyRules(rules, html) == html
    decreases |rules|
  {
    if rules != [] {
      ReplaceAllWithoutOccurrence(rules[0], html);
      ApplyRulesWithoutOccurrence(rules[1..], html);
    }
  }

  /** Rules that only delete keep every character they do not delete, in order. */
  lemma {:induction false} ApplyDeletingRulesKeepsOrder(rules: seq<Rule>, html: seq<char>)
    requires forall i :: 0 <= i < |rules| ==> rules[i].Deletes()
    ensures IsSubsequence(ApplyRules(rules, html), html)
    ensures |ApplyRules(rules, html)| <= |html|
    decreases |rules|
  {
    if rules == [] {
      SubsequenceReflexive(html);
    } else {
      var once := ReplaceAll(rules[0], html);
      ReplaceAllKeepsOrder(rules[0], html);
      ReplaceAllShortens(rules[0], html);
      ApplyDeletingRulesKeepsOrder(rules[1..], once);
      SubsequenceTransitive(ApplyRules(rules[1..], once), once, html);
    }
  }

  /** The first stage of the paste clean-up only deletes: what is left of
      the pasted HTML is the pasted HTML with pieces taken out. */
  lemma StripStageKeepsOrder(html: seq<char>)
    ensures IsSubsequence(ApplyRules(StripRules, html), html)
    ensures |ApplyRules(StripRules, html)| <= |html|
  {
    StripRulesDelete();
    ApplyDeletingRulesKeepsOrder(StripRules, html);
  }

  lemma StripRulesDelete()
    ensures forall i :: 0 <= i < |StripRules| ==> StripRules[i].Deletes()
  {
  }

  /** Text without markup, without white space and without a `w` of either
      case is pasted exactly as it is. */
  lemma PasteCleanKeepsPlainText(html: seq<char>)
    requires forall i :: 0 <= i < |html| ==> html[i] != '<' && !IsSpace(html[i]) && !IsW(html[i])
    ensures PasteClean(html) == html
  {
    var rules := StripRules + RewriteRules;
    forall k, rule | 0 <= k < |rules| && rule == rules[k] ensures !Occurs(rule, html) {
      NoOccurrenceInPlainText(rule, html);
    }
    ApplyRulesWithoutOccurrence(rules, html);
    NoOccurrenceInPlainText(Width, html);
    ReplaceAllWithoutOccurrence(Width, html);
  }

  /** `<br>` and `<BR>` are not bold tags: the bold rewrite leaves them alone. */
  lemma BoldOpenSkipsBreak(t: seq<char>)
    requires |t| >= 1 && (t[0] == 'r' || t[0] == 'R')
    ensures MatchAt(BoldOpen, "<b" + t).None? && MatchAt(BoldOpen, "<B" + t).None?
  {
    var s := "<b" + t;
    var s' := "<B" + t;
    assert s[2..] == t && s'[2..] == t;
    assert SpanSpaces(t) == 0 by { assert !IsSpace(t[0]); }
  }

  /** The 468 rewrite does not require the number to end after `468`: a
      width of 4680 (or any number starting with 468) loses its leading
      `468` and keeps the rest of its digits after the new closing quote. */
  lemma LegacyWidthKeepsTrailingDigits(d: seq<char>)
    requires d != [] && AllDigits(d)
    ensures ReplaceAll(LegacyWidth, "width=\"468" + d + "\"") == "width=\"600\"" + d + "\""
  {
    TrailingDigitsSpelled(d);
    LegacyWidthRewritten("\"", [], d + "\"");
    DigitsThenQuoteUnmatched(d);
  }

  lemma TrailingDigitsSpelled(d: seq<char>)
    requires d != [] && AllDigits(d)
    ensures "width=\"468" + d + "\"" == "width=" + "\"" + "468" + [] + (d + "\"")
    ensures (d + "\"")[0] == d[0] && !IsSpace(d[0]) && !IsQuote(d[0])
  {
    assert IsDigit(d[0]);
  }

  /** Digits and a closing quote hold no match of the 468 rewrite. */
  lemma DigitsThenQuoteUnmatched(d: seq<char>)
    requires AllDigits(d)
    ensures ReplaceAll(LegacyWidth, d + "\"") == d + "\""
  {
    var rest := d + "\"";
    forall i | 0 <= i < |rest| ensures rest[i] != '<' && !IsSpace(rest[i]) && !IsW(rest[i]) {
      if i < |d| { assert rest[i] == d[i]; } else { assert rest[i] == '"'; }
    }
    NoOccurrenceInPlainText(LegacyWidth, rest);
    ReplaceAllWithoutOccurrence(LegacyWidth, rest);
  }
}
