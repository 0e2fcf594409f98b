/**
 * The parts of an ElementTree document that the documentation mapper reads and
 * writes: elements with a tag, an attribute dictionary, an optional text and an
 * ordered list of subelements, and the `find`, `findall` and `findtext` queries.
 */
module Xml {
  import opened Wrappers

  /**
   * An element. An attribute value may be None: ElementTree lets a program store
   * None in `attrib` and only fails when the document is written out.
   */
  datatype Element = Element(
    tag: string,
    attrib: map<string, Option<string>>,
    text: Option<string>,
    children: seq<Element>)

  /** The exceptions the mapper and the combiner can raise. */
  datatype Error =
    | NotIterable(tag: string)                  // iterating over the None that `find(tag)` returned
    | NoneOperand(field: string)                // concatenating a string with a None field
    | RootTagMismatch(tag1: string, tag2: string)

  /** A new element with a tag and no attributes, text or subelements. */
  function Leaf(tag: string, text: Option<string>): (e: Element)
    ensures e.tag == tag && e.text == text && e.attrib == map[] && e.children == []
  {
    Element(tag, map[], text, [])
  }

  /** The elements of `es` whose tag is `tag`, in document order (`findall`). */
  function WithTag(es: seq<Element>, tag: string): (r: seq<Element>)
    ensures |r| <= |es|
    ensures forall e :: e in r <==> e in es && e.tag == tag
  {
    if es == [] then []
    else if es[0].tag == tag then [es[0]] + WithTag(es[1..], tag)
    else WithTag(es[1..], tag)
  }

  /** Filtering a concatenation filters each part, so `findall` keeps document order. */
  lemma {:induction false} WithTagAppend(a: seq<Element>, b: seq<Element>, tag: string)
    ensures WithTag(a + b, tag) == WithTag(a, tag) + WithTag(b, tag)
  {
    if a != [] {
      assert (a + b)[1..] == a[1..] + b;
      WithTagAppend(a[1..], b, tag);
    } else {
      assert a + b == b;
    }
  }

  /** The first element of `es` whose tag is `tag`, or None. */
  function First(es: seq<Element>, tag: string): Option<Element>
  {
    var found := WithTag(es, tag);
    if found == [] then None else Some(found[0])
  }

  /** `findall(tag)`: every subelement with that tag. */
  function FindAll(e: Element, tag: string): seq<Element>
  {
    WithTag(e.children, tag)
  }

  /** `find(tag)`: the first subelement with that tag, or None. */
  function Find(e: Element, tag: string): Option<Element>
  {
    First(e.children, tag)
  }

  /** The text ElementTree reports for a found element: its text, or "" when it has none. */
  function TextOrEmpty(e: Element): string
  {
    if e.text.Some? then e.text.value else ""
  }

  /** `findtext(tag)`: None when no subelement has the tag, else the first one's text or "". */
  function FindText(e: Element, tag: string): (r: Option<string>)
    ensures r.None? <==> forall c :: c in e.children ==> c.tag != tag
  {
    match Find(e, tag)
    case None => None
    case Some(c) => Some(TextOrEmpty(c))
  }

  /** The subelements of every element of `es`, one after the other. */
  function ChildrenOf(es: seq<Element>): (r: seq<Element>)
    ensures forall c :: c in r <==> exists p :: p in es && c in p.children
  {
    if es == [] then [] else es[0].children + ChildrenOf(es[1..])
  }

  /**
   * `find("outer/inner")`: the first `inner` element among the subelements of all
   * `outer` subelements of `e`, in document order.
   */
  function FindPath(e: Element, outer: string, inner: string): Option<Element>
  {
    First(ChildrenOf(FindAll(e, outer)), inner)
  }

  /** `findtext("outer/inner")`. */
  function FindPathText(e: Element, outer: string, inner: string): Option<string>
  {
    match FindPath(e, outer, inner)
    case None => None
    case Some(c) => Some(TextOrEmpty(c))
  }

  /** `[x.text for x in es]`. */
  function Texts(es: seq<Element>): (r: seq<Option<string>>)
    ensures |r| == |es| && forall i :: 0 <= i < |es| ==> r[i] == es[i].text
  {
    seq(|es|, i requires 0 <= i < |es| => es[i].text)
  }

  /** `find` returns the first subelement with the tag, and None only when there is none. */
  lemma {:induction false} FirstIsFirst(es: seq<Element>, tag: string)
    ensures First(es, tag).None? <==> forall j :: 0 <= j < |es| ==> es[j].tag != tag
    ensures First(es, tag).Some? ==>
      exists i :: 0 <= i < |es| && es[i] == First(es, tag).value && es[i].tag == tag &&
        forall j :: 0 <= j < i ==> es[j].tag != tag
  {
    if es != [] {
      FirstIsFirst(es[1..], tag);
      if es[0].tag != tag && First(es[1..], tag).Some? {
        var i :| 0 <= i < |es[1..]| && es[1..][i] == First(es[1..], tag).value && es[1..][i].tag == tag &&
          forall j :: 0 <= j < i ==> es[1..][j].tag != tag;
        assert es[i + 1] == First(es, tag).value;
        assert forall j :: 0 < j < i + 1 ==> es[j] == es[1..][j - 1];
      }
      if es[0].tag != tag && First(es[1..], tag).None? {
        assert forall j :: 0 < j < |es| ==> es[j] == es[1..][j - 1];
      }
    }
  }
}
