/**
 * The link rewrite the hosted editor applies to every anchor when the host
 * asks for the final content (`rewriteLinksOnSave` in hosted_editor/editor.js),
 * and the marker strip of the call-to-action dialog.
 */
module Links {
  import opened Wrappers
  import opened JsText

  /** The prefix that marks a link as already rewritten. */
  const Marker: seq<char> := "HTTPGetWrap|"

  /** The browser's URL parser (`new URL(...)` and its `href`): the
      normalised URL, or `None` where the constructor throws. */
  type UrlParser = seq<char> -> Option<seq<char>>

  /** Links the rewrite leaves alone: `about:`, `blob:`, `mailto:`, `tel:`,
      `javascript:` and in-page `#` links, in any letter case. */
  predicate IsExempt(href: seq<char>) {
    StartsWithCI(href, "about:") || StartsWithCI(href, "blob:") || StartsWithCI(href, "mailto:") ||
    StartsWithCI(href, "tel:") || StartsWithCI(href, "javascript:") || StartsWithCI(href, "#")
  }

  /** `http://` or `https://` at the start, in any letter case. */
  predicate HasHttpScheme(href: seq<char>) {
    StartsWithCI(href, "http://") || StartsWithCI(href, "https://")
  }

  predicate IsDomainChar(c: char) {
    IsAsciiLetter(c) || IsDigit(c) || c == '.' || c == '-'
  }

  /** A bare domain such as `example.org`: domain characters, a dot, and a
      final run of at least two letters. */
  predicate IsBareDomain(href: seq<char>) {
    exists k | 0 < k < |href| - 2 ::
      href[k] == '.' &&
      (forall j | 0 <= j < k :: IsDomainChar(href[j])) &&
      (forall j | k < j < |href| :: IsAsciiLetter(href[j]))
  }

  /** The scheme completion of the source: a bare domain without a scheme
      gets `https://`; so does anything else without a scheme. */
  function WithScheme(href: seq<char>): (r: seq<char>)
    ensures HasHttpScheme(href) ==> r == href
    ensures !HasHttpScheme(href) ==> r == "https://" + href
  {
    if IsBareDomain(href) && !HasHttpScheme(href) then "https://" + href
    else if !HasHttpScheme(href) then "https://" + href
    else href
  }

  /** The new value of one anchor's `href`. */
  function RewriteHref(href: seq<char>, parse: UrlParser): seq<char>
  {
    if href == [] then href
    else
      var trimmed := Trim(href);
      if trimmed == [] then href
      else if Marker <= trimmed then href
      else if IsExempt(trimmed) then href
      else
        match parse(WithScheme(trimmed))
        case None => href
        case Some(url) => Marker + url
  }

  /** Links that are blank once trimmed, already carry the marker (exact
      case) or are exempt keep their value exactly, untrimmed. */
  lemma RewriteHrefKeepsSkipped(href: seq<char>, parse: UrlParser)
    requires Trim(href) == [] || Marker <= Trim(href) || IsExempt(Trim(href))
    ensures RewriteHref(href, parse) == href
  {
  }

  /** Any other link is trimmed and given `https://` unless it has an http(s)
      scheme; if the parser accepts the result, the link becomes the marker
      followed by the parsed URL, and otherwise it keeps its value. */
  lemma RewriteHrefWraps(href: seq<char>, parse: UrlParser)
    requires !(Trim(href) == [] || Marker <= Trim(href) || IsExempt(Trim(href)))
    ensures var t := Trim(href);
      var candidate := if HasHttpScheme(t) then t else "https://" + t;
      RewriteHref(href, parse) == match parse(candidate)
        case None => href
        case Some(url) => Marker + url
  {
  }

  /** A rewritten link is left alone by the next save: rewriting is idempotent. */
  lemma RewriteHrefIdempotent(href: seq<char>, parse: UrlParser)
    ensures RewriteHref(RewriteHref(href, parse), parse) == RewriteHref(href, parse)
  {
    var r := RewriteHref(href, parse);
    if r != href {
      var url := parse(WithScheme(Trim(href))).value;
      assert r == Marker + url;
      TrimKeepsPrefix(Marker, url);
      assert Marker <= Trim(r);
      RewriteHrefKeepsSkipped(r, parse);
    }
  }

  /** The call-to-action dialog shows a link without the marker: a leading
      `HTTPGetWrap|` (exact case) is removed, anything else is kept. */
  function StripMarker(href: seq<char>): (r: seq<char>)
    ensures Marker <= href ==> Marker + r == href
    ensures !(Marker <= href) ==> r == href
  {
    if Marker <= href then href[|Marker|..] else href
  }

  /** Stripping the marker from a rewritten link gives back the parsed URL. */
  lemma StripMarkerRecoversUrl(href: seq<char>, parse: UrlParser)
    requires RewriteHref(href, parse) != href
    ensures parse(WithScheme(Trim(href))).Some?
    ensures StripMarker(RewriteHref(href, parse)) == parse(WithScheme(Trim(href))).value
  {
    var url := parse(WithScheme(Trim(href))).value;
    assert RewriteHref(href, parse) == Marker + url;
    assert (Marker + url)[|Marker|..] == url;
  }

  /** `f` applied to every element, in order. */
  function MapEach(f: seq<char> -> seq<char>, xs: seq<seq<char>>): (r: seq<seq<char>>)
    ensures |r| == |xs|
  {
    if xs == [] then [] else MapEach(f, xs[..|xs| - 1]) + [f(xs[|xs| - 1])]
  }

  /** Element `i` of the mapped list is `f` of element `i`. */
  lemma {:induction false} MapEachAt(f: seq<char> -> seq<char>, xs: seq<seq<char>>, i: nat)
    requires i < |xs|
    ensures MapEach(f, xs)[i] == f(xs[i])
  {
    var init := xs[..|xs| - 1];
    if i < |init| {
      MapEachAt(f, init, i);
      assert xs[i] == init[i];
    }
  }

  /** Mapping a list with one more element at the end appends `f` of it. */
  lemma MapEachSnoc(f: seq<char> -> seq<char>, xs: seq<seq<char>>, x: seq<char>)
    ensures MapEach(f, xs + [x]) == MapEach(f, xs) + [f(x)]
  {
    assert (xs + [x])[..|xs|] == xs;
  }

  /** The rewrite of one anchor's `href`, as a function value. */
  function Rewriter(parse: UrlParser): seq<char> -> seq<char> {
    href => RewriteHref(href, parse)
  }

  /** The rewrite of every anchor's `href`, in document order. */
  function RewriteEach(hrefs: seq<seq<char>>, parse: UrlParser): (r: seq<seq<char>>)
    ensures |r| == |hrefs|
  {
    MapEach(Rewriter(parse), hrefs)
  }

  /** Each anchor is rewritten on its own: the rewrite puts anchor `i`'s
      rewrite in place `i`. */
  lemma RewriteEachAt(hrefs: seq<seq<char>>, i: nat, parse: UrlParser)
    requires i < |hrefs|
    ensures RewriteEach(hrefs, parse)[i] == RewriteHref(hrefs[i], parse)
  {
    MapEachAt(Rewriter(parse), hrefs, i);
  }

  /** A second save changes no anchor. */
  lemma {:induction false} RewriteEachIdempotent(hrefs: seq<seq<char>>, parse: UrlParser)
    ensures RewriteEach(RewriteEach(hrefs, parse), parse) == RewriteEach(hrefs, parse)
  {
    if hrefs != [] {
      var f := Rewriter(parse);
      var init := hrefs[..|hrefs| - 1];
      var last := hrefs[|hrefs| - 1];
      RewriteEachIdempotent(init, parse);
      RewriteHrefIdempotent(last, parse);
      MapEachSnoc(f, MapEach(f, init), f(last));
    }
  }

  /** The rewrite over all anchors of the document, in document order; the
      array holds their `href` values. */
  method RewriteLinksOnSave(hrefs: array<seq<char>>, parse: UrlParser)
    modifies hrefs
    ensures hrefs[..] == RewriteEach(old(hrefs[..]), parse)
  {
    ghost var after := RewriteEach(hrefs[..], parse);
    var n := 0;
    while n < hrefs.Length
      invariant 0 <= n <= hrefs.Length
      invariant hrefs[..] == after[..n] + old(hrefs[..])[n..]
    {
      RewriteEachAt(old(hrefs[..]), n, parse);
      SaveStep(hrefs[..], after, old(hrefs[..]), n);
      RewriteAnchor(hrefs, n, parse);
      n := n + 1;
    }
    assert after[..n] == after;
  }

  /** Rewrites anchor `n` in place and touches no other anchor. */
  method RewriteAnchor(hrefs: array<seq<char>>, n: nat, parse: UrlParser)
    requires n < hrefs.Length
    modifies hrefs
    ensures hrefs[..] == old(hrefs[..])[n := RewriteHref(old(hrefs[n]), parse)]
  {
    hrefs[n] := RewriteHref(hrefs[n], parse);
  }

  /** One step of the in-place rewrite: with the first `n` anchors done,
      overwriting anchor `n` with its rewrite leaves `n + 1` done. */
  lemma SaveStep(cur: seq<seq<char>>, after: seq<seq<char>>, before: seq<seq<char>>, n: nat)
    requires n < |after| == |before| && cur == after[..n] + before[n..]
    ensures cur[n] == before[n]
    ensures cur[n := after[n]] == after[..n + 1] + before[n + 1..]
  {
    assert cur[n] == before[n..][0];
  }
}
