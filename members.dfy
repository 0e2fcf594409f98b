/**
 * Interface members: how a `function` parse-tree node becomes a documented method
 * or property (return-value extraction, accessor parameter, signature text), how
 * two members with the same name are merged, and the element a member is written as.
 */
module Members {
  import opened Wrappers
  import opened Xml
  import opened Entities

  datatype Member = Member(
    name: string,
    description: Option<string>,
    parameters: seq<Parameter>,
    version: string,
    typ: Option<string>,
    attributes: seq<Option<string>>,
    isProperty: bool,
    syntax: seq<string>)

  /**
   * `[Parameter(x) for x in es]`: raises as soon as a node has no `attributes`
   * (every such node raises the same error).
   */
  function ParametersOf(es: seq<Element>): (r: Result<seq<Parameter>, Error>)
    ensures r.Success? <==> forall i :: 0 <= i < |es| ==> Find(es[i], "attributes").Some?
    ensures r.Success? ==> |r.value| == |es| && forall i :: 0 <= i < |es| ==> Success(r.value[i]) == NewParameter(es[i])
    ensures r.Failure? ==> r.error == NotIterable("attributes")
  {
    if forall i :: 0 <= i < |es| ==> NewParameter(es[i]).Success? then
      Success(seq(|es|, i requires 0 <= i < |es| => NewParameter(es[i]).value))
    else
      Failure(NotIterable("attributes"))
  }

  /**
   * The member's type after `for x in parameters: if x.retval: type = x.type`:
   * the type of the last return-value parameter, None when there is none.
   */
  function ReturnType(ps: seq<Parameter>): Option<string>
  {
    if ps == [] then None
    else if ps[|ps| - 1].retval then ps[|ps| - 1].typ
    else ReturnType(ps[..|ps| - 1])
  }

  /** With a return-value parameter at k and none after it, the member's type is k's type. */
  lemma {:induction false} ReturnTypeIsLastReturnValue(ps: seq<Parameter>, k: nat)
    requires k < |ps| && ps[k].retval
    requires forall j :: k < j < |ps| ==> !ps[j].retval
    ensures ReturnType(ps) == ps[k].typ
  {
    if k < |ps| - 1 {
      ReturnTypeIsLastReturnValue(ps[..|ps| - 1], k);
    }
  }

  /** Without a return-value parameter the member's type stays None (written as "void"). */
  lemma {:induction false} ReturnTypeWithoutReturnValue(ps: seq<Parameter>)
    requires forall j :: 0 <= j < |ps| ==> !ps[j].retval
    ensures ReturnType(ps) == None
  {
    if ps != [] {
      ReturnTypeWithoutReturnValue(ps[..|ps| - 1]);
    }
  }

  /** `[x for x in ps if x.retval is False]`: the parameters a reader sees, in order. */
  function Visible(ps: seq<Parameter>): (r: seq<Parameter>)
    ensures forall p :: p in r <==> p in ps && !p.retval
    ensures |r| <= |ps|
    ensures (forall p :: p in ps ==> !p.retval) ==> r == ps
  {
    if ps == [] then []
    else if ps[0].retval then Visible(ps[1..])
    else [ps[0]] + Visible(ps[1..])
  }

  /** Filtering a concatenation filters each part, so the filter keeps the parameters' order. */
  lemma {:induction false} VisibleAppend(a: seq<Parameter>, b: seq<Parameter>)
    ensures Visible(a + b) == Visible(a) + Visible(b)
  {
    if a != [] {
      assert (a + b)[1..] == a[1..] + b;
      VisibleAppend(a[1..], b);
    } else {
      assert a + b == b;
    }
  }

  /** A type as written in a signature: the type, or "void" when it is None. */
  function TypeText(t: Option<string>): string
  {
    if t.Some? then t.value else "void"
  }

  /** A parameter name as `"{0}".format` writes it: the name, or "None". */
  function NameText(n: Option<string>): string
  {
    if n.Some? then n.value else "None"
  }

  function ParamText(p: Parameter): string
  {
    TypeText(p.typ) + " " + NameText(p.name)
  }

  function ParamTexts(ps: seq<Parameter>): (r: seq<string>)
    ensures |r| == |ps|
  {
    seq(|ps|, i requires 0 <= i < |ps| => ParamText(ps[i]))
  }

  /** `sep.join(xs)`. */
  function Join(sep: string, xs: seq<string>): string
  {
    if xs == [] then "" else if |xs| == 1 then xs[0] else xs[0] + sep + Join(sep, xs[1..])
  }

  const ParamSeparator: string := ",\n    "

  /** The signature a member is documented with. */
  function SyntaxLine(typ: Option<string>, name: string, params: seq<Parameter>, isProperty: bool): string
  {
    var head := TypeText(typ) + " " + name;
    var args :=
      if |params| > 0 then "(\n    " + Join(ParamSeparator, ParamTexts(params)) + "\n)"
      else if !isProperty then "()"
      else "";
    head + args + ";"
  }

  /**
   * The signature starts with "<type or void> <name>" and ends with ";"; between
   * them come the parameters in parentheses, one per line, when there are any,
   * "()" for a method without parameters, and nothing for a property without them.
   */
  lemma SyntaxShape(typ: Option<string>, name: string, params: seq<Parameter>, isProperty: bool)
    ensures var head := TypeText(typ) + " " + name;
      var s := SyntaxLine(typ, name, params, isProperty);
      && |s| > |head| && s[..|head|] == head && s[|s| - 1] == ';'
      && (params == [] && isProperty ==> s == head + ";")
      && (params == [] && !isProperty ==> s == head + "();")
      && (params != [] ==> s[|head|..|head| + 6] == "(\n    " && s[|s| - 3..] == "\n);")
  {
  }

  /** Whether the attribute texts mark a property accessor. */
  predicate IsAccessor(attributes: seq<Option<string>>)
  {
    Some("propput") in attributes || Some("propget") in attributes
  }

  /**
   * The member made of the parts read off a node: the type of the last
   * return-value parameter, the visible parameters (none for a property left with
   * one) and the signature. It raises when the node has no name.
   */
  function BuildMember(name: Option<string>, description: Option<string>, all: seq<Parameter>,
                       attributes: seq<Option<string>>): Result<Member, Error>
  {
    var isProperty := IsAccessor(attributes);
    var typ := ReturnType(all);
    var params := if isProperty && |Visible(all)| == 1 then [] else Visible(all);
    if name.None? then Failure(NoneOperand("name"))
    else Success(Member(name.value, description, params, Version, typ, attributes, isProperty,
                        [SyntaxLine(typ, name.value, params, isProperty)]))
  }

  /**
   * `Member(xml)`. It raises when the node has no `parameters`, when a parameter
   * has no `attributes`, when the node has no `attributes`, or when it has no
   * `name` (the name is concatenated into the signature).
   */
  function MemberSpec(xml: Element): Result<Member, Error>
  {
    match Find(xml, "parameters")
    case None => Failure(NotIterable("parameters"))
    case Some(paramsNode) =>
      match ParametersOf(paramsNode.children)
      case Failure(e) => Failure(e)
      case Success(all) =>
        match Find(xml, "attributes")
        case None => Failure(NotIterable("attributes"))
        case Some(attrsNode) =>
          BuildMember(FindText(xml, "name"), FindPathText(xml, "attributes", "helpstring"),
                      all, Texts(attrsNode.children))
  }

  /** The signature built by successive `+=`, as `Member.__init__` does. */
  method RenderSyntax(typ: Option<string>, name: string, params: seq<Parameter>, isProperty: bool)
    returns (syntax: string)
    ensures syntax == SyntaxLine(typ, name, params, isProperty)
  {
    syntax := if typ.Some? then typ.value else "void";
    syntax := syntax + " " + name;
    ghost var head := syntax;
    ghost var args: string := "";
    if |params| > 0 {
      syntax := syntax + "(\n    ";
      syntax := syntax + Join(ParamSeparator, ParamTexts(params));
      syntax := syntax + "\n)";
      args := "(\n    " + Join(ParamSeparator, ParamTexts(params)) + "\n)";
    } else if !isProperty {
      syntax := syntax + "()";
      args := "()";
    }
    assert syntax == head + args;
    syntax := syntax + ";";
  }

  /** `for x in parameters: if x.retval == True: type = x.type`, starting from None. */
  method LastReturnType(parameters: seq<Parameter>) returns (typ: Option<string>)
    ensures typ == ReturnType(parameters)
  {
    typ := None;
    for i := 0 to |parameters|
      invariant typ == ReturnType(parameters[..i])
    {
      assert parameters[..i + 1][..i] == parameters[..i];
      if parameters[i].retval {
        typ := parameters[i].typ;
      }
    }
    assert parameters[..|parameters|] == parameters;
  }

  /** `Member.__init__`, step by step. */
  method NewMember(xml: Element) returns (r: Result<Member, Error>)
    ensures r == MemberSpec(xml)
  {
    var name := FindText(xml, "name");
    var description := FindPathText(xml, "attributes", "helpstring");
    var paramsNode := Find(xml, "parameters");
    if paramsNode.None? {
      return Failure(NotIterable("parameters"));
    }
    var all := ParametersOf(paramsNode.value.children);
    if all.Failure? {
      return Failure(all.error);
    }
    var attrsNode := Find(xml, "attributes");
    if attrsNode.None? {
      return Failure(NotIterable("attributes"));
    }
    var attributes := Texts(attrsNode.value.children);
    var isProperty := Some("propput") in attributes || Some("propget") in attributes;

    var parameters := all.value;
    var typ := LastReturnType(parameters);
    parameters := Visible(parameters);
    if isProperty && |parameters| == 1 {
      parameters := [];
    }

    if name.None? {
      return Failure(NoneOperand("name"));
    }
    var syntax := RenderSyntax(typ, name.value, parameters, isProperty);
    r := Success(Member(name.value, description, parameters, Version, typ, attributes, isProperty, [syntax]));
    assert r == BuildMember(name, description, all.value, attributes);
  }

  /**
   * A member hides every return-value parameter, is a property exactly when an
   * attribute reads `propget` or `propput`, keeps the visible parameters of a
   * method unchanged, drops the single visible parameter of a property, and
   * carries one signature. It is built exactly when the node has a name.
   */
  lemma MemberParameters(name: Option<string>, description: Option<string>, all: seq<Parameter>,
                         attributes: seq<Option<string>>)
    ensures BuildMember(name, description, all, attributes).Success? <==> name.Some?
    ensures name.Some? ==>
      var m := BuildMember(name, description, all, attributes).value;
      && (forall p :: p in m.parameters ==> !p.retval)
      && (m.isProperty <==> exists i :: 0 <= i < |attributes| && attributes[i] in {Some("propget"), Some("propput")})
      && (!m.isProperty ==> m.parameters == Visible(all))
      && (m.isProperty && |Visible(all)| == 1 ==> m.parameters == [])
      && (m.isProperty && |Visible(all)| != 1 ==> m.parameters == Visible(all))
      && m.syntax == [SyntaxLine(m.typ, m.name, m.parameters, m.isProperty)]
      && m.name == name.value && m.description == description && m.version == Version
  {
  }

  /**
   * A member's type is the type of its last parameter whose attributes read
   * `out`, or None when no parameter is marked so.
   */
  lemma MemberType(name: Option<string>, description: Option<string>, all: seq<Parameter>,
                   attributes: seq<Option<string>>)
    requires name.Some?
    ensures var m := BuildMember(name, description, all, attributes).value;
      && ((forall j :: 0 <= j < |all| ==> !all[j].retval) ==> m.typ == None)
      && (forall k :: 0 <= k < |all| && all[k].retval && (forall j :: k < j < |all| ==> !all[j].retval) ==>
            m.typ == all[k].typ)
  {
    if forall j :: 0 <= j < |all| ==> !all[j].retval {
      ReturnTypeWithoutReturnValue(all);
    }
    forall k | 0 <= k < |all| && all[k].retval && (forall j :: k < j < |all| ==> !all[j].retval)
      ensures ReturnType(all) == all[k].typ
    {
      ReturnTypeIsLastReturnValue(all, k);
    }
  }

  /**
   * `combine_members(m1, m2)` where m1 is the member just read and m2 the one
   * already stored: m1's fields are overwritten and m1 is returned. Concatenating
   * two different descriptions raises when either of them is None.
   */
  function MergedMember(m1: Member, m2: Member): (r: Result<Member, Error>)
    ensures r.Failure? <==> m1.description != m2.description && (m1.description.None? || m2.description.None?)
    ensures r.Success? ==> r.value.name == m1.name && r.value.isProperty == m1.isProperty
  {
    var typ := if m1.typ.None? && m2.typ.Some? then m2.typ else m1.typ;
    if m1.description != m2.description && (m1.description.None? || m2.description.None?) then
      Failure(NoneOperand("description"))
    else
      var description :=
        if m1.description != m2.description then Some(m1.description.value + "\n" + m2.description.value)
        else m1.description;
      var parameters := if |m1.parameters| > |m2.parameters| then m1.parameters else m2.parameters;
      var syntax := if m1.syntax != m2.syntax then m1.syntax + m2.syntax else m1.syntax;
      Success(m1.(typ := typ, description := description, parameters := parameters, syntax := syntax))
  }

  /** `Interface.combine_members`: `temp` aliases m1, whose fields are reassigned in turn. */
  method CombineMembers(m1: Member, m2: Member) returns (r: Result<Member, Error>)
    ensures r == MergedMember(m1, m2)
  {
    var temp := m1;
    if m1.typ.None? && m2.typ.Some? {
      temp := temp.(typ := m2.typ);
    }
    if m2.typ.None? && m1.typ.Some? {
      temp := temp.(typ := m1.typ);
    }
    if m1.description != m2.description {
      if m1.description.None? || m2.description.None? {
        return Failure(NoneOperand("description"));
      }
      temp := temp.(description := Some(m1.description.value + "\n" + m2.description.value));
    }
    if |m1.parameters| > |m2.parameters| {
      temp := temp.(parameters := m1.parameters);
    } else {
      temp := temp.(parameters := m2.parameters);
    }
    if m1.syntax != m2.syntax {
      temp := temp.(syntax := m1.syntax + m2.syntax);
    }
    r := Success(temp);
  }

  /**
   * What a merge keeps: the new member's type when it has one, else the stored
   * one's; both descriptions, new first, when they differ; the strictly longer
   * parameter list, the stored one on a tie; both signature lists, new first,
   * when they differ; and the new member's name, version, attributes and kind.
   */
  lemma MergeFields(m1: Member, m2: Member)
    requires MergedMember(m1, m2).Success?
    ensures var r := MergedMember(m1, m2).value;
      && (r.typ.Some? <==> m1.typ.Some? || m2.typ.Some?)
      && (m1.typ.Some? ==> r.typ == m1.typ)
      && (m1.typ.None? ==> r.typ == m2.typ)
      && (m1.description == m2.description ==> r.description == m1.description)
      && (m1.description != m2.description ==>
            r.description == Some(m1.description.value + "\n" + m2.description.value))
      && |r.parameters| == (if |m1.parameters| > |m2.parameters| then |m1.parameters| else |m2.parameters|)
      && (|m1.parameters| > |m2.parameters| ==> r.parameters == m1.parameters)
      && (|m1.parameters| <= |m2.parameters| ==> r.parameters == m2.parameters)
      && r.syntax == (if m1.syntax != m2.syntax then m1.syntax + m2.syntax else m1.syntax)
      && r.name == m1.name && r.version == m1.version && r.attributes == m1.attributes
      && r.isProperty == m1.isProperty
  {
  }

  /** Merging a member with an equal one changes nothing. */
  lemma MergeIdentical(m: Member)
    ensures MergedMember(m, m) == Success(m)
  {
  }

  /**
   * When the parameter lists differ in length the longer one is kept whichever
   * side it comes from; on a tie the stored member's list is kept.
   */
  lemma MergeParametersLonger(m1: Member, m2: Member)
    requires MergedMember(m1, m2).Success? && MergedMember(m2, m1).Success?
    ensures |m1.parameters| != |m2.parameters| ==>
      MergedMember(m1, m2).value.parameters == MergedMember(m2, m1).value.parameters
    ensures |m1.parameters| == |m2.parameters| ==> MergedMember(m1, m2).value.parameters == m2.parameters
  {
  }

  /** The merge depends on which member is the new one: it is not commutative. */
  lemma MergeNotCommutative()
    ensures exists m1: Member, m2: Member :: MergedMember(m1, m2) != MergedMember(m2, m1)
  {
    var m1 := Member("Count", Some("a"), [], Version, None, [], true, ["void Count;"]);
    var m2 := m1.(description := Some("b"));
    assert "a" != "b";
    assert MergedMember(m1, m2).Success? && MergedMember(m2, m1).Success?;
    assert MergedMember(m1, m2).value.description.value[0] == 'a';
    assert MergedMember(m2, m1).value.description.value[0] == 'b';
  }

  /**
   * Merging is not stable under repetition: merging the result with the same
   * stored member again appends the stored description a second time.
   */
  lemma MergeAgainRepeatsDescription()
    ensures exists m1: Member, m2: Member ::
      && MergedMember(m1, m2).Success?
      && MergedMember(MergedMember(m1, m2).value, m2) != MergedMember(m1, m2)
  {
    var m1 := Member("Count", Some("a"), [], Version, None, [], true, ["void Count;"]);
    var m2 := m1.(description := Some("b"));
    assert "a" != "b";
    MergeFields(m1, m2);
    var once := MergedMember(m1, m2).value;
    assert |once.description.value| == 3;
    MergeFields(once, m2);
    var twice := MergedMember(once, m2).value;
    assert |twice.description.value| == 5;
  }

  /** `Member.toXML`. */
  function MemberToXml(m: Member): (e: Element)
    ensures e.tag == "member" && |e.children| == 3 + |m.syntax|
    ensures "type" in e.attrib && e.attrib["type"] == Some(if m.isProperty then "property" else "method")
    ensures "name" in e.attrib && e.attrib["name"] == Some(m.name)
    ensures "version" in e.attrib && e.attrib["version"] == Some(m.version)
    ensures e.children[0].tag == "returns" && e.children[0].children == [Leaf("type", Some(TypeText(m.typ)))]
    ensures e.children[1] == Leaf("description", m.description)
    ensures var ps := e.children[|e.children| - 1];
      && ps.tag == "parameters" && |ps.children| == |Visible(m.parameters)|
      && forall i :: 0 <= i < |Visible(m.parameters)| ==> ps.children[i] == ParameterToXml(Visible(m.parameters)[i])
    ensures forall i :: 0 <= i < |m.syntax| ==> e.children[2 + i] == Leaf("syntax", Some(m.syntax[i]))
  {
    var visible := Visible(m.parameters);
    var kind := Some(if m.isProperty then "property" else "method");
    var result := Element("returns", map[], None, [Leaf("type", Some(TypeText(m.typ)))]);
    var syntax := seq(|m.syntax|, i requires 0 <= i < |m.syntax| => Leaf("syntax", Some(m.syntax[i])));
    var params := Element("parameters", map[], None,
      seq(|visible|, i requires 0 <= i < |visible| => ParameterToXml(visible[i])));
    var attrib := map["name" := Some(m.name), "version" := Some(m.version), "type" := kind];
    assert "type" in attrib && attrib["type"] == kind;
    Element("member", attrib, None, [result, Leaf("description", m.description)] + syntax + [params])
  }

  /**
   * The written member lists every parameter the member kept, in order: its
   * return-value parameters were removed when it was built, so the second filter
   * in `toXML` removes nothing.
   */
  lemma WrittenParameters(name: Option<string>, description: Option<string>, all: seq<Parameter>,
                          attributes: seq<Option<string>>)
    requires name.Some?
    ensures var m := BuildMember(name, description, all, attributes).value;
      var ps := MemberToXml(m).children[|MemberToXml(m).children| - 1];
      && ps.tag == "parameters" && |ps.children| == |m.parameters|
      && forall i :: 0 <= i < |m.parameters| ==> ps.children[i] == ParameterToXml(m.parameters[i])
  {
    MemberParameters(name, description, all, attributes);
  }
}
