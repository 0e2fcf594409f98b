/**
 * The documentation entities read off one parse-tree node without any loop:
 * enum constants, enum typedefs and function parameters, and the elements they
 * write back out.
 */
module Entities {
  import opened Wrappers
  import opened Xml

  /** The version every documentation entity is stamped with. */
  const Version: string := "2011"

  /** `str(n)` for a natural number: its decimal digits, with no leading zero. */
  function Decimal(n: nat): (s: string)
    ensures |s| > 0 && forall i :: 0 <= i < |s| ==> '0' <= s[i] <= '9'
    ensures n == 0 ==> s == "0"
    ensures n > 0 ==> s[0] != '0'
  {
    if n < 10 then [Digit(n)] else Decimal(n / 10) + [Digit(n % 10)]
  }

  function Digit(d: nat): char
    requires d < 10
  {
    "0123456789"[d]
  }

  /** The number a string of decimal digits denotes (the reading of `str(n)`). */
  function DecimalValue(s: string): nat
    requires forall i :: 0 <= i < |s| ==> '0' <= s[i] <= '9'
  {
    if s == [] then 0 else 10 * DecimalValue(s[..|s| - 1]) + (s[|s| - 1] - '0') as nat
  }

  /** Reading back the digits of `str(n)` gives `n`. */
  lemma {:induction false} DecimalRoundTrip(n: nat)
    ensures DecimalValue(Decimal(n)) == n
  {
    if n >= 10 {
      DecimalRoundTrip(n / 10);
      var s := Decimal(n);
      assert s[..|s| - 1] == Decimal(n / 10);
    }
  }

  /** An enum constant's value: the text written after `=`, or its position among its siblings. */
  datatype ConstValue = Explicit(text: string) | Position(index: nat)

  function ValueText(v: ConstValue): string
  {
    match v
    case Explicit(t) => t
    case Position(i) => Decimal(i)
  }

  datatype Constant = Constant(name: Option<string>, description: Option<string>, value: ConstValue)

  /**
   * `Constant(xml, value)`: name from `name`, description from `helpstring`, value
   * from `value`, or `fallback` when the node has no `value` subelement.
   */
  function NewConstant(xml: Element, fallback: ConstValue): (c: Constant)
    ensures c.name == FindText(xml, "name") && c.description == FindText(xml, "helpstring")
    ensures (forall e :: e in xml.children ==> e.tag != "value") ==> c.value == fallback
    ensures Find(xml, "value").Some? ==> c.value == Explicit(TextOrEmpty(Find(xml, "value").value))
  {
    var value := FindText(xml, "value");
    Constant(FindText(xml, "name"), FindText(xml, "helpstring"),
             if value.None? then fallback else Explicit(value.value))
  }

  /**
   * `Constant.toXML`: a `constant` element with `name`, `value` and `description`
   * subelements in that order; the value is written as text, a position in decimal.
   */
  function ConstantToXml(c: Constant): (e: Element)
    ensures e.tag == "constant" && |e.children| == 3
    ensures e.children[0].tag == "name" && e.children[0].text == c.name
    ensures e.children[1].tag == "value" && e.children[1].text == Some(ValueText(c.value))
    ensures e.children[2].tag == "description" && e.children[2].text == c.description
  {
    Element("constant", map[], None,
      [Leaf("name", c.name), Leaf("value", Some(ValueText(c.value))), Leaf("description", c.description)])
  }

  /**
   * Writing a constant out and reading the element back keeps its name, turns its
   * value into the text that was written, and loses its description: it is written
   * under `description` but read from `helpstring`.
   */
  lemma ConstantRoundTrip(c: Constant, fallback: ConstValue)
    requires c.name.Some?
    ensures NewConstant(ConstantToXml(c), fallback) == c.(value := Explicit(ValueText(c.value)), description := None)
  {
    var e := ConstantToXml(c);
    var cs := e.children;
    assert cs[1..][1..][1..] == [];
    assert WithTag(cs, "name") == [cs[0]] + WithTag(cs[1..], "name");
    assert WithTag(cs, "value") == WithTag(cs[1..], "value") == [cs[1]] + WithTag(cs[1..][1..], "value");
    assert WithTag(cs, "helpstring") == WithTag(cs[1..][1..], "helpstring") == WithTag(cs[1..][1..][1..], "helpstring") == [];
    assert FindText(e, "name") == c.name;
    assert FindText(e, "value") == Some(ValueText(c.value));
  }

  datatype Typedef = Typedef(name: Option<string>, version: string, constants: seq<Constant>)

  /** `[Constant(x, i) for i, x in enumerate(es)]`. */
  function ConstantsOf(es: seq<Element>): (cs: seq<Constant>)
    ensures |cs| == |es|
  {
    seq(|es|, i requires 0 <= i < |es| => NewConstant(es[i], Position(i)))
  }

  /**
   * `Typedef(xml)`: raises when the node has no `constants` subelement; otherwise
   * one constant per subelement of it, in order, each defaulting to its position.
   */
  function NewTypedef(xml: Element): (r: Result<Typedef, Error>)
    ensures r.Failure? <==> forall e :: e in xml.children ==> e.tag != "constants"
    ensures r.Failure? ==> r.error == NotIterable("constants")
    ensures r.Success? ==> r.value.name == FindText(xml, "name") && r.value.version == Version
  {
    match Find(xml, "constants")
    case None => Failure(NotIterable("constants"))
    case Some(cs) => Success(Typedef(FindText(xml, "name"), Version, ConstantsOf(cs.children)))
  }

  /**
   * Each constant of a typedef comes from the subelement at the same position, and
   * a constant without a `value` subelement is numbered by that position.
   */
  lemma TypedefConstants(xml: Element, i: nat)
    requires NewTypedef(xml).Success?
    requires i < |Find(xml, "constants").value.children|
    ensures var c := Find(xml, "constants").value.children[i];
      && |NewTypedef(xml).value.constants| == |Find(xml, "constants").value.children|
      && NewTypedef(xml).value.constants[i].name == FindText(c, "name")
      && NewTypedef(xml).value.constants[i].description == FindText(c, "helpstring")
      && ((forall e :: e in c.children ==> e.tag != "value") ==> NewTypedef(xml).value.constants[i].value == Position(i))
      && (Find(c, "value").Some? ==>
            NewTypedef(xml).value.constants[i].value == Explicit(TextOrEmpty(Find(c, "value").value)))
  {
  }

  /**
   * `Typedef.toXML`: a `typedef` element named by the typedef, with its version and
   * one `constants` subelement holding each constant's element, in order.
   */
  function TypedefToXml(t: Typedef): (e: Element)
    ensures e.tag == "typedef" && e.attrib.Keys == {"name", "version"}
    ensures e.attrib["name"] == t.name && e.attrib["version"] == Some(t.version)
    ensures |e.children| == 1 && e.children[0].tag == "constants"
    ensures |e.children[0].children| == |t.constants|
    ensures forall i :: 0 <= i < |t.constants| ==> e.children[0].children[i] == ConstantToXml(t.constants[i])
  {
    Element("typedef", map["name" := t.name, "version" := Some(t.version)], None,
      [Element("constants", map[], None, seq(|t.constants|, i requires 0 <= i < |t.constants| => ConstantToXml(t.constants[i])))])
  }

  /**
   * In the written typedef, the value element of the constant at position i of an
   * enum whose constants have no explicit value reads back as i.
   */
  lemma TypedefValuesArePositions(xml: Element, i: nat)
    requires NewTypedef(xml).Success?
    requires i < |Find(xml, "constants").value.children|
    requires forall e :: e in Find(xml, "constants").value.children[i].children ==> e.tag != "value"
    ensures var doc := TypedefToXml(NewTypedef(xml).value);
      var value := doc.children[0].children[i].children[1];
      value.tag == "value" && value.text.Some? && DecimalValue(value.text.value) == i
  {
    TypedefConstants(xml, i);
    DecimalRoundTrip(i);
  }

  datatype Parameter = Parameter(
    typ: Option<string>,
    name: Option<string>,
    attributes: seq<Option<string>>,
    default: Option<string>,
    retval: bool,
    optional: bool)

  /**
   * `Parameter(xml)`: raises when the node has no `attributes` subelement. The
   * parameter is the return value when an attribute reads `out`, and optional when
   * one reads `optional` or an `attributes/defaultvalue` element is present.
   */
  function NewParameter(xml: Element): (r: Result<Parameter, Error>)
    ensures r.Failure? <==> Find(xml, "attributes").None?
    ensures r.Failure? ==> r.error == NotIterable("attributes")
    ensures r.Success? ==>
      var attrs := Find(xml, "attributes").value.children;
      && r.value.typ == FindText(xml, "type") && r.value.name == FindText(xml, "name")
      && r.value.default == FindPathText(xml, "attributes", "defaultvalue")
      && (r.value.retval <==> exists a :: a in attrs && a.text == Some("out"))
      && (r.value.optional <==>
            (exists a :: a in attrs && a.text == Some("optional")) ||
            FindPath(xml, "attributes", "defaultvalue").Some?)
  {
    match Find(xml, "attributes")
    case None => Failure(NotIterable("attributes"))
    case Some(attrs) =>
      var attributes := Texts(attrs.children);
      var default := FindPathText(xml, "attributes", "defaultvalue");
      assert Some("out") in attributes <==> exists a :: a in attrs.children && a.text == Some("out");
      assert Some("optional") in attributes <==> exists a :: a in attrs.children && a.text == Some("optional");
      Success(Parameter(FindText(xml, "type"), FindText(xml, "name"), attributes, default,
                        Some("out") in attributes,
                        Some("optional") in attributes || default.Some?))
  }

  /** `Parameter.toXML`: `optional="True"` only for optional parameters. */
  function ParameterToXml(p: Parameter): (e: Element)
    ensures e.tag == "parameter"
    ensures "optional" in e.attrib <==> p.optional
    ensures "optional" in e.attrib ==> e.attrib["optional"] == Some("True")
    ensures e.children == [Leaf("default", p.default), Leaf("name", p.name), Leaf("type", p.typ)]
  {
    Element("parameter", if p.optional then map["optional" := Some("True")] else map[], None,
      [Leaf("default", p.default), Leaf("name", p.name), Leaf("type", p.typ)])
  }
}
