/**
 * The cross-document combiner: `combine` joins the document just produced for an
 * entity with the one already written for it.
 */
module Documents {
  import opened Wrappers
  import opened Xml
  import opened Entities
  import opened Interfaces

  /** `[x for x in es if len(x) > 0]`: the elements that have subelements of their own, in order. */
  function Structured(es: seq<Element>): (r: seq<Element>)
    ensures |r| <= |es|
  {
    if es == [] then []
    else if |es[0].children| > 0 then [es[0]] + Structured(es[1..])
    else Structured(es[1..])
  }

  /** The filter keeps exactly the elements that have subelements. */
  lemma {:induction false} StructuredMembers(es: seq<Element>)
    ensures forall e :: e in Structured(es) <==> e in es && |e.children| > 0
  {
    if es != [] {
      StructuredMembers(es[1..]);
    }
  }

  /** Filtering a list whose elements all have subelements changes nothing. */
  lemma {:induction false} StructuredKeepsAll(es: seq<Element>)
    requires forall i :: 0 <= i < |es| ==> |es[i].children| > 0
    ensures Structured(es) == es
  {
    if es != [] {
      StructuredKeepsAll(es[1..]);
    }
  }

  /** Filtering a concatenation filters each part. */
  lemma {:induction false} StructuredAppend(a: seq<Element>, b: seq<Element>)
    ensures Structured(a + b) == Structured(a) + Structured(b)
  {
    if a != [] {
      assert (a + b)[1..] == a[1..] + b;
      StructuredAppend(a[1..], b);
    } else {
      assert a + b == b;
    }
  }

  /** The root `combine` builds from two roots. */
  function Joined(root1: Element, root2: Element): Element
  {
    Element(root1.tag, root1.attrib + root2.attrib, None, Structured(root1.children) + Structured(root2.children))
  }

  /**
   * `combine(xml1, xml2)`: either document when the other is None; an error when
   * the root tags differ; otherwise a new root with xml1's tag, the attributes of
   * both (xml2's value winning on a shared key), no text, and the subelements of
   * xml1 that have subelements followed by those of xml2.
   */
  function Combine(xml1: Option<Element>, xml2: Option<Element>): (r: Result<Option<Element>, Error>)
    ensures xml2.None? ==> r == Success(xml1)
    ensures xml1.None? ==> r == Success(xml2)
    ensures xml1.Some? && xml2.Some? ==>
      var root1, root2 := xml1.value, xml2.value;
      && (r.Failure? <==> root1.tag != root2.tag)
      && (r.Failure? ==> r.error == RootTagMismatch(root1.tag, root2.tag))
      && (r.Success? ==>
            && r.value.Some? && r.value.value.tag == root1.tag && r.value.value.text == None
            && r.value.value.attrib.Keys == root1.attrib.Keys + root2.attrib.Keys
            && (forall k :: k in root2.attrib ==> r.value.value.attrib[k] == root2.attrib[k])
            && (forall k :: k in root1.attrib && k !in root2.attrib ==> r.value.value.attrib[k] == root1.attrib[k])
            && r.value.value.children == Structured(root1.children) + Structured(root2.children))
  {
    if xml2.None? then Success(xml1)
    else if xml1.None? then Success(xml2)
    else
      var root1, root2 := xml1.value, xml2.value;
      if root1.tag != root2.tag then Failure(RootTagMismatch(root1.tag, root2.tag))
      else Success(Some(Joined(root1, root2)))
  }

  /**
   * A combined document keeps exactly the subelements of either document that
   * have subelements: every one of them, and no leaf.
   */
  lemma CombinedChildren(root1: Element, root2: Element)
    requires root1.tag == root2.tag
    ensures var r := Combine(Some(root1), Some(root2)).value.value;
      && (forall c :: c in r.children ==> |c.children| > 0)
      && (forall c :: (c in root1.children || c in root2.children) && |c.children| > 0 ==> c in r.children)
  {
    StructuredMembers(root1.children);
    StructuredMembers(root2.children);
  }

  /** The children of a joined root all have children, so filtering them again keeps them all. */
  lemma StructuredJoined(a: seq<Element>, b: seq<Element>)
    ensures Structured(Structured(a) + Structured(b)) == Structured(a) + Structured(b)
  {
    StructuredMembers(a);
    StructuredMembers(b);
    var s := Structured(a) + Structured(b);
    assert forall i :: 0 <= i < |s| ==> s[i] in Structured(a) || s[i] in Structured(b);
    StructuredKeepsAll(s);
  }

  lemma UnionAssociative(a: map<string, Option<string>>, b: map<string, Option<string>>, c: map<string, Option<string>>)
    ensures (a + b) + c == a + (b + c)
  {
  }

  /** Joining roots is associative. */
  lemma JoinedAssociative(x: Element, y: Element, z: Element)
    ensures Joined(Joined(x, y), z) == Joined(x, Joined(y, z))
  {
    var left, right := Joined(Joined(x, y), z), Joined(x, Joined(y, z));
    assert left.children == right.children by {
      var sx, sy, sz := Structured(x.children), Structured(y.children), Structured(z.children);
      StructuredJoined(x.children, y.children);
      StructuredJoined(y.children, z.children);
      assert (sx + sy) + sz == sx + (sy + sz);
    }
    assert left.attrib == right.attrib by {
      UnionAssociative(x.attrib, y.attrib, z.attrib);
    }
  }

  /**
   * Combining is associative: documents for the same entity can be grouped in any
   * way, as long as their order is kept.
   */
  lemma CombineAssociative(x: Element, y: Element, z: Element)
    requires x.tag == y.tag == z.tag
    ensures var xy := Combine(Some(x), Some(y)).value;
      var yz := Combine(Some(y), Some(z)).value;
      Combine(xy, Some(z)) == Combine(Some(x), yz)
  {
    JoinedAssociative(x, y, z);
    assert Combine(Some(x), Some(y)) == Success(Some(Joined(x, y)));
    assert Combine(Some(y), Some(z)) == Success(Some(Joined(y, z)));
  }

  /** Combining depends on the order of the documents: it is not commutative. */
  lemma CombineNotCommutative()
    ensures exists x: Element, y: Element :: Combine(Some(x), Some(y)) != Combine(Some(y), Some(x))
  {
    var x := Element("typedef", map["name" := Some("A")], None, []);
    var y := Element("typedef", map["name" := Some("B")], None, []);
    assert Combine(Some(x), Some(y)).value.value.attrib["name"] == Some("B");
    assert Combine(Some(y), Some(x)).value.value.attrib["name"] == Some("A");
  }

  /**
   * Combining a document with itself is not idempotent: each subelement that has
   * subelements appears twice, and the leaves are gone.
   */
  lemma CombineSelfDuplicates(d: Element)
    requires exists c :: c in d.children && |c.children| > 0
    ensures var r := Combine(Some(d), Some(d)).value.value;
      && r.children == Structured(d.children) + Structured(d.children)
      && |r.children| == 2 * |Structured(d.children)|
      && r != d
  {
    var c :| c in d.children && |c.children| > 0;
    StructuredMembers(d.children);
    assert c in Structured(d.children);
    var r := Combine(Some(d), Some(d)).value.value;
    var s := Structured(d.children);
    if r.children == d.children {
      assert forall i :: 0 <= i < |d.children| ==> d.children[i] in s;
      StructuredKeepsAll(d.children);
    }
  }

  /**
   * The document just written is combined with the one already on disk as
   * `combine(new, existing)`, so an attribute present in both keeps the existing
   * document's value.
   */
  lemma ExistingAttributesWin(current: Element, existing: Element, k: string)
    requires current.tag == existing.tag && k in existing.attrib
    ensures var r := Combine(Some(current), Some(existing)).value.value;
      k in r.attrib && r.attrib[k] == existing.attrib[k]
  {
  }

  /**
   * Combining two written interfaces drops both descriptions (a description is a
   * leaf) and keeps each non-empty `members` list, the new one first.
   */
  lemma CombineInterfaces(current: Interface, existing: Interface)
    requires current.Valid() && existing.Valid()
    ensures var r := Combine(Some(current.ToXml()), Some(existing.ToXml())).value.value;
      && (forall c :: c in r.children ==> c.tag == "members")
      && |r.children| == (if |current.order| > 0 then 1 else 0) + (if |existing.order| > 0 then 1 else 0)
      && (|current.order| > 0 ==> r.children[0] == current.ToXml().children[1])
      && (|existing.order| > 0 ==> r.children[|r.children| - 1] == existing.ToXml().children[1])
  {
    var a, b := current.ToXml(), existing.ToXml();
    assert a.children[1..][1..] == [] && b.children[1..][1..] == [];
    assert Structured(a.children) == Structured(a.children[1..]);
    assert Structured(b.children) == Structured(b.children[1..]);
  }

  /** An interface document and a typedef document are never combined: `combine` raises. */
  lemma InterfaceWithTypedefFails(itf: Interface, t: Typedef)
    requires itf.Valid()
    ensures Combine(Some(itf.ToXml()), Some(TypedefToXml(t))).Failure?
    ensures Combine(Some(TypedefToXml(t)), Some(itf.ToXml())).Failure?
  {
    assert "interface"[0] != "typedef"[0];
  }
}
