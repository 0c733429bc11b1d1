/**
 * The parsed page, reduced to what the two scrapers look at. A page is its list of elements in
 * document order (an element comes before its descendants, which come before its next sibling).
 * Each element records its tag name (lower case, as both HTML parsers report it), its own text,
 * its full text as the parsing library renders it, its `href` attribute, and the position of its
 * parent element (-1 for a top-level element). Selector engines, rendering and whitespace
 * normalisation are not modelled; the text fields hold whatever the library returns.
 */
module Markup {
  import opened Options
  import opened Text

  datatype Element = Element(tag: string, ownText: string, text: string, href: Option<string>, parent: int)

  type Document = seq<Element>

  /** `i` is the first position at or after `from` whose element satisfies `p`. */
  predicate IsFirstFrom(doc: Document, from: nat, i: nat, p: Element -> bool) {
    from <= i < |doc| && p(doc[i]) && forall k :: from <= k < i ==> !p(doc[k])
  }

  /** The first element at or after `from` satisfying `p`, in document order: Jsoup's
      `selectFirst`, BeautifulSoup's `find` (from 0) and `find_next` (from just after a tag). */
  function FirstMatch(doc: Document, from: nat, p: Element -> bool): (r: Option<nat>)
    ensures r.Some? ==> IsFirstFrom(doc, from, r.value, p)
    ensures r.None? <==> forall k :: from <= k < |doc| ==> !p(doc[k])
    decreases |doc| - from
  {
    if from >= |doc| then None
    else if p(doc[from]) then Some(from)
    else FirstMatch(doc, from + 1, p)
  }

  /** There is only one first match. */
  lemma FirstUnique(doc: Document, from: nat, i: nat, j: nat, p: Element -> bool)
    requires IsFirstFrom(doc, from, i, p) && IsFirstFrom(doc, from, j, p)
    ensures i == j
  {
  }

  /** `doc[s]` is the next sibling of `doc[i]`: it has the same parent, and every element between
      the two (a descendant of `doc[i]`) has another parent. */
  predicate IsNextSibling(doc: Document, i: nat, s: nat)
    requires i < |doc|
  {
    i < s < |doc| && doc[s].parent == doc[i].parent
    && forall k :: i < k < s ==> doc[k].parent != doc[i].parent
  }

  /** No later element shares `doc[i]`'s parent. */
  predicate IsLastSibling(doc: Document, i: nat)
    requires i < |doc|
  {
    forall k :: i < k < |doc| ==> doc[k].parent != doc[i].parent
  }

  /** Jsoup's `nextElementSibling`. */
  function NextSibling(doc: Document, i: nat): (r: Option<nat>)
    requires i < |doc|
    ensures r.Some? ==> IsNextSibling(doc, i, r.value)
    ensures r.None? <==> IsLastSibling(doc, i)
  {
    FirstMatch(doc, i + 1, (e: Element) => e.parent == doc[i].parent)
  }

  /** Every element satisfying `p`, in document order: Jsoup's and BeautifulSoup's `select`. */
  function Select(doc: Document, p: Element -> bool): (r: seq<Element>)
    ensures |r| <= |doc|
    ensures forall i :: 0 <= i < |r| ==> p(r[i])
    ensures forall e :: e in r <==> e in doc && p(e)
  {
    if doc == [] then []
    else
      var front := Select(doc[..|doc| - 1], p);
      assert doc == doc[..|doc| - 1] + [doc[|doc| - 1]];
      if p(doc[|doc| - 1]) then front + [doc[|doc| - 1]] else front
  }

  /** The order `Select` keeps: selecting from a page that grows at the end only appends. */
  lemma {:induction false} SelectAppend(doc: Document, e: Element, p: Element -> bool)
    ensures Select(doc + [e], p) == Select(doc, p) + (if p(e) then [e] else [])
  {
    assert (doc + [e])[..|doc + [e]| - 1] == doc;
  }

  /** Jsoup's `attr("href")`: the attribute's value, or "" when it is absent. */
  function Href(e: Element): string {
    e.href.GetOr("")
  }

  /** Jsoup's `[href$=suffix]`, `[href*=part]` and `[href^=prefix]` on an `a` element compare the
      lower-cased value with the lower-cased operand. */
  predicate JsoupHrefEndsWith(e: Element, suffix: string) {
    e.tag == "a" && e.href.Some? && EndsWith(Lower(e.href.value), Lower(suffix))
  }

  predicate JsoupHrefContains(e: Element, part: string) {
    e.tag == "a" && e.href.Some? && Contains(Lower(e.href.value), Lower(part))
  }

  predicate JsoupHrefStartsWith(e: Element, prefix: string) {
    e.tag == "a" && e.href.Some? && Lower(prefix) <= Lower(e.href.value)
  }

  /** A link whose href is literally `prefix + suffix` matches `[href$=suffix]`. */
  lemma HrefEndsWithSuffix(e: Element, prefix: string, suffix: string)
    requires e.tag == "a" && e.href == Some(prefix + suffix)
    ensures JsoupHrefEndsWith(e, suffix)
  {
    LowerAppend(prefix, suffix);
  }

  /** A link whose href is literally `prefix + part` matches `[href*=part]`. */
  lemma HrefContainsSuffix(e: Element, prefix: string, part: string)
    requires e.tag == "a" && e.href == Some(prefix + part)
    ensures JsoupHrefContains(e, part)
  {
    LowerAppend(prefix, part);
    ContainsSuffix(Lower(prefix), Lower(part));
  }
}
