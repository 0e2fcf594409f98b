/**
 * What the model yields for concrete parse trees, proved: for an enum without
 * explicit values, for a function with an `out` parameter, and for a
 * property declared by a getter and a setter.
 */
module Scenarios {
  import opened Wrappers
  import opened Xml
  import opened Entities
  import opened Members
  import opened Interfaces

  function Node(tag: string, children: seq<Element>): Element
  {
    Element(tag, map[], None, children)
  }

  function Text(tag: string, text: string): Element
  {
    Leaf(tag, Some(text))
  }

  /** A parameter node: its attribute block, type and name. */
  function ParamNode(attrs: seq<string>, typ: string, name: string): Element
  {
    Node("parameter", [Node("attributes", seq(|attrs|, i requires 0 <= i < |attrs| => Text("attribute", attrs[i]))),
                       Text("type", typ), Text("name", name)])
  }

  /** An enum with constants A, B and C and no explicit values numbers them 0, 1 and 2. */
  lemma EnumPositions()
    ensures var xml := Node("typedef", [Text("name", "Letters"),
                                        Node("constants", [Node("constant", [Text("name", "A")]),
                                                           Node("constant", [Text("name", "B")]),
                                                           Node("constant", [Text("name", "C")])])]);
      && NewTypedef(xml).Success?
      && |NewTypedef(xml).value.constants| == 3
      && NewTypedef(xml).value.constants[0] == Constant(Some("A"), None, Position(0))
      && NewTypedef(xml).value.constants[1] == Constant(Some("B"), None, Position(1))
      && NewTypedef(xml).value.constants[2] == Constant(Some("C"), None, Position(2))
  {
    var cs := [Node("constant", [Text("name", "A")]), Node("constant", [Text("name", "B")]),
               Node("constant", [Text("name", "C")])];
    var xml := Node("typedef", [Text("name", "Letters"), Node("constants", cs)]);
    assert xml.children[1..][1..] == [];
    assert Find(xml, "constants") == Some(Node("constants", cs));
    forall i | 0 <= i < 3
      ensures NewConstant(cs[i], Position(i)).value == Position(i)
      ensures NewConstant(cs[i], Position(i)).description == None
    {
      assert cs[i].children[1..] == [];
    }
  }

  /**
   * `HRESULT Get([out, retval] long* value, [in] long n)`, whose pointer star the
   * parser drops: the `out` parameter gives the member its type and is hidden;
   * `n` is the only visible parameter.
   */
  lemma OutParameterIsReturnValue()
    ensures var ps := [Parameter(Some("long"), Some("value"), [Some("out"), Some("retval")], None, true, false),
                       Parameter(Some("long"), Some("n"), [Some("in")], None, false, false)];
      var m := BuildMember(Some("Get"), None, ps, []);
      && m.Success?
      && m.value.typ == Some("long")
      && m.value.parameters == [ps[1]]
      && m.value.syntax == ["long Get(\n    long n\n);"]
  {
    var ps := [Parameter(Some("long"), Some("value"), [Some("out"), Some("retval")], None, true, false),
               Parameter(Some("long"), Some("n"), [Some("in")], None, false, false)];
    assert ps[1..][1..] == [];
    assert Visible(ps) == [ps[1]];
    assert ps[..1] == [ps[0]];
    assert ReturnType(ps) == ReturnType(ps[..1]) == Some("long");
    assert !IsAccessor([]);
    SingleParameterSignature(Some("long"), "Get", ps[1]);
    assert ParamText(ps[1]) == "long n";
    assert TypeText(Some("long")) == "long";
    var line := SyntaxLine(Some("long"), "Get", [ps[1]], false);
    assert line == "long" + " " + "Get" + "(\n    " + "long n" + "\n);";
    assert line == "long Get(\n    long n\n);";
  }

  /** The signature of a method with a single visible parameter. */
  lemma SingleParameterSignature(typ: Option<string>, name: string, p: Parameter)
    ensures SyntaxLine(typ, name, [p], false) == TypeText(typ) + " " + name + "(\n    " + ParamText(p) + "\n);"
  {
    assert ParamTexts([p]) == [ParamText(p)];
  }

  /**
   * The node of `[out, retval] long* value` reads as an `out` parameter: the mapper
   * keys on the attribute `out`.
   */
  lemma OutAttributeMarksReturnValue()
    ensures var p := NewParameter(ParamNode(["out", "retval"], "long", "value"));
      p.Success? && p.value.retval && !p.value.optional && p.value.typ == Some("long")
  {
    var xml := ParamNode(["out", "retval"], "long", "value");
    var attrs := xml.children[0];
    assert Find(xml, "attributes") == Some(attrs);
    assert attrs.children[0].text == Some("out");
    assert xml.children[1..][1..][1..] == [];
    assert Find(xml, "type") == Some(xml.children[1]);
    assert attrs.children[1..][1..] == [];
    assert ChildrenOf(FindAll(xml, "attributes")) == attrs.children;
    assert FindPath(xml, "attributes", "defaultvalue") == None;
  }

  /**
   * `[propget] long Count();` followed by `[propput] void Count([in] long val);`
   * collapse into one property named Count. Its type stays None ("void"), because
   * no parameter is marked `out` and the declared return type is never read. The
   * setter's single parameter is dropped as the accessor value.
   */
  lemma GetterAndSetterCollapse()
    ensures var val := Parameter(Some("long"), Some("val"), [Some("in")], None, false, false);
      var getter := BuildMember(Some("Count"), None, [], [Some("propget")]);
      var setter := BuildMember(Some("Count"), None, [val], [Some("propput")]);
      && getter.Success? && setter.Success?
      && var t1 := Stored(Table(map[], []), getter.value);
      && t1.Success?
      && var t2 := Stored(t1.value, setter.value);
      && t2.Success?
      && t2.value.order == ["Count"]
      && t2.value.members.Keys == {"Count"}
      && var m := t2.value.members["Count"];
      && m.isProperty && m.typ == None && m.parameters == [] && m.syntax == ["void Count;"]
  {
    var val := Parameter(Some("long"), Some("val"), [Some("in")], None, false, false);
    assert Visible([val]) == [val];
    var getter := BuildMember(Some("Count"), None, [], [Some("propget")]).value;
    var setter := BuildMember(Some("Count"), None, [val], [Some("propput")]).value;
    assert IsAccessor([Some("propget")]) && IsAccessor([Some("propput")]);
    assert SyntaxLine(None, "Count", [], true) == "void" + " " + "Count" + "" + ";";
    var line := SyntaxLine(None, "Count", [], true);
    assert line == "void Count;";
    assert getter.syntax == ["void Count;"] && setter.syntax == ["void Count;"];
    assert setter == getter.(attributes := [Some("propput")]);
    MergeFields(setter, getter);
  }
}
