/**
 * Interfaces: the members dictionary that `addMember` fills in place, merging a
 * member into the one already stored under its name, and the element an
 * interface is written as. Python dictionaries keep their keys in first-insertion
 * order, and `toXML` writes the members in that order, so the dictionary is
 * modelled as a map together with the sequence of its keys.
 */
module Interfaces {
  import opened Wrappers
  import opened Xml
  import opened Entities
  import opened Members

  /** The members of an interface: the dictionary and the order its keys were first inserted in. */
  datatype Table = Table(members: map<string, Member>, order: seq<string>)

  /** Every key is listed once, and every member is stored under its own name. */
  ghost predicate TableValid(t: Table)
  {
    && (forall k :: k in t.members <==> k in t.order)
    && (forall i, j :: 0 <= i < j < |t.order| ==> t.order[i] != t.order[j])
    && (forall k :: k in t.members ==> t.members[k].name == k)
  }

  /**
   * The dictionary update of `addMember` once the member is built: a new name is
   * inserted at the end; a known name gets `combine_members(new, stored)`, which
   * may raise, in its place.
   */
  function Stored(t: Table, m: Member): (r: Result<Table, Error>)
    ensures r.Failure? <==> m.name in t.members && MergedMember(m, t.members[m.name]).Failure?
    ensures r.Success? ==>
      && r.value.members.Keys == t.members.Keys + {m.name}
      && (forall k :: k in t.members && k != m.name ==> r.value.members[k] == t.members[k])
      && (m.name !in t.members ==> r.value.members[m.name] == m && r.value.order == t.order + [m.name])
      && (m.name in t.members ==>
            r.value.members[m.name] == MergedMember(m, t.members[m.name]).value && r.value.order == t.order)
  {
    if m.name in t.members then
      match MergedMember(m, t.members[m.name])
      case Failure(e) => Failure(e)
      case Success(c) => Success(Table(t.members[m.name := c], t.order))
    else
      Success(Table(t.members[m.name := m], t.order + [m.name]))
  }

  /** Storing a member keeps the table consistent. */
  lemma StoredKeepsValid(t: Table, m: Member)
    requires TableValid(t) && Stored(t, m).Success?
    ensures TableValid(Stored(t, m).value)
  {
    var r := Stored(t, m).value;
    if m.name in t.members {
      assert r.order == t.order && r.members.Keys == t.members.Keys;
      assert r.members[m.name].name == m.name;
    } else {
      assert r.order == t.order + [m.name];
      forall i, j | 0 <= i < j < |r.order| ensures r.order[i] != r.order[j] {
        if j == |t.order| {
          assert t.order[i] in t.members;
        }
      }
    }
  }

  /** Storing a member adds one entry exactly when its name is new. */
  lemma StoredCount(t: Table, m: Member)
    requires Stored(t, m).Success?
    ensures |Stored(t, m).value.members| == |t.members| + (if m.name in t.members then 0 else 1)
  {
    var r := Stored(t, m).value;
    if m.name in t.members {
      assert r.members.Keys == t.members.Keys;
    } else {
      assert r.members.Keys == t.members.Keys + {m.name};
      assert |r.members.Keys| == |t.members.Keys| + 1;
    }
  }

  /**
   * `addMember(xml, is_property)`: build the member, force it to be a property
   * when it comes from a `properties` section, and store it.
   */
  function Added(t: Table, xml: Element, isProperty: bool): Result<Table, Error>
  {
    match MemberSpec(xml)
    case Failure(e) => Failure(e)
    case Success(m) => Stored(t, if isProperty then m.(isProperty := true) else m)
  }

  /** Adding the nodes of `xs` one after the other, stopping at the first that raises. */
  function AddedAll(t: Table, xs: seq<Element>, isProperty: bool): Result<Table, Error>
  {
    if xs == [] then Success(t)
    else
      match AddedAll(t, xs[..|xs| - 1], isProperty)
      case Failure(e) => Failure(e)
      case Success(t') => Added(t', xs[|xs| - 1], isProperty)
  }

  /** Once adding a prefix of the nodes raises, adding all of them raises the same error. */
  lemma {:induction false} AddedAllStopsAtFailure(t: Table, xs: seq<Element>, isProperty: bool, i: nat)
    requires i <= |xs| && AddedAll(t, xs[..i], isProperty).Failure?
    ensures AddedAll(t, xs, isProperty) == AddedAll(t, xs[..i], isProperty)
  {
    if i < |xs| {
      assert xs[..|xs| - 1][..i] == xs[..i];
      AddedAllStopsAtFailure(t, xs[..|xs| - 1], isProperty, i);
    } else {
      assert xs[..i] == xs;
    }
  }

  /**
   * Adding members keeps the table consistent, leaves the names already listed
   * where they were (a merged member keeps its place), and lists at most one new
   * name per node.
   */
  lemma {:induction false} AddedAllKeepsOrder(t: Table, xs: seq<Element>, isProperty: bool)
    requires TableValid(t) && AddedAll(t, xs, isProperty).Success?
    ensures var r := AddedAll(t, xs, isProperty).value;
      && TableValid(r)
      && |t.order| <= |r.order| <= |t.order| + |xs|
      && r.order[..|t.order|] == t.order
  {
    if xs != [] {
      var xs' := xs[..|xs| - 1];
      AddedAllKeepsOrder(t, xs', isProperty);
      var t' := AddedAll(t, xs', isProperty).value;
      var m := MemberSpec(xs[|xs| - 1]).value;
      var m' := if isProperty then m.(isProperty := true) else m;
      StoredKeepsValid(t', m');
      var r := Stored(t', m').value;
      assert r.order[..|t'.order|] == t'.order;
      assert r.order[..|t.order|] == t'.order[..|t.order|];
    }
  }

  /**
   * A member from a `properties` section, forced to be a property, is stored as a
   * property, whether it is new or merged into a stored one.
   */
  lemma StoredPropertyIsProperty(t: Table, m: Member)
    requires Stored(t, m.(isProperty := true)).Success?
    ensures var r := Stored(t, m.(isProperty := true)).value;
      m.name in r.members && r.members[m.name].isProperty
  {
    var m' := m.(isProperty := true);
    if m.name in t.members {
      MergeFields(m', t.members[m.name]);
    }
  }

  /** Storing a new member twice in a row stores it once, unchanged. */
  lemma StoredNewTwice(t: Table, m: Member)
    requires m.name !in t.members
    ensures Stored(t, m).Success?
    ensures Stored(Stored(t, m).value, m) == Stored(t, m)
  {
    var t1 := Stored(t, m).value;
    assert t1.members[m.name] == m;
    MergeIdentical(m);
    assert t1.members[m.name := m] == t1.members;
  }

  /** The sections of an interface node whose members are added, in the order `__init__` adds them. */
  function Functions(xml: Element): seq<Element>
  {
    match Find(xml, "definitions")
    case None => []
    case Some(d) => FindAll(d, "function")
  }

  function SectionItems(xml: Element, tag: string): seq<Element>
  {
    match Find(xml, tag)
    case None => []
    case Some(s) => s.children
  }

  /**
   * The members `Interface(xml)` ends with: the `function` nodes of `definitions`,
   * then every node of `methods`, then every node of `properties` as properties.
   */
  function InterfaceTable(xml: Element): Result<Table, Error>
  {
    match AddedAll(Table(map[], []), Functions(xml), false)
    case Failure(e) => Failure(e)
    case Success(t1) =>
      match AddedAll(t1, SectionItems(xml, "methods"), false)
      case Failure(e) => Failure(e)
      case Success(t2) => AddedAll(t2, SectionItems(xml, "properties"), true)
  }

  /**
   * A built interface's table is consistent and lists at most one member per
   * function node of its sections.
   */
  lemma InterfaceTableValid(xml: Element)
    requires InterfaceTable(xml).Success?
    ensures TableValid(InterfaceTable(xml).value)
    ensures |InterfaceTable(xml).value.order| <=
      |Functions(xml)| + |SectionItems(xml, "methods")| + |SectionItems(xml, "properties")|
  {
    var t0 := Table(map[], []);
    AddedAllKeepsOrder(t0, Functions(xml), false);
    var t1 := AddedAll(t0, Functions(xml), false).value;
    AddedAllKeepsOrder(t1, SectionItems(xml, "methods"), false);
    var t2 := AddedAll(t1, SectionItems(xml, "methods"), false).value;
    AddedAllKeepsOrder(t2, SectionItems(xml, "properties"), true);
  }

  class Interface {
    var name: Option<string>
    var description: Option<string>
    var version: string
    var members: map<string, Member>
    /** The keys of `members` in first-insertion order. */
    var order: seq<string>

    ghost predicate Valid()
      reads this
    {
      TableValid(State())
    }

    function State(): Table
      reads this
    {
      Table(members, order)
    }

    /** The fields `__init__` sets before it adds any member. */
    constructor Empty(name: Option<string>, description: Option<string>)
      ensures Valid() && State() == Table(map[], [])
      ensures this.name == name && this.description == description && version == Version
    {
      this.name := name;
      this.description := description;
      version := Version;
      members := map[];
      order := [];
    }

    /** `addMember(xml, is_property)`. On an error the dictionary is left as it was. */
    method AddMember(xml: Element, isProperty: bool) returns (err: Option<Error>)
      requires Valid()
      modifies this
      ensures Valid()
      ensures name == old(name) && description == old(description) && version == old(version)
      ensures match Added(old(State()), xml, isProperty)
        case Success(t) => err == None && State() == t
        case Failure(e) => err == Some(e) && State() == old(State())
    {
      var r := NewMember(xml);
      if r.Failure? {
        return Some(r.error);
      }
      var member := r.value;
      if isProperty {
        member := member.(isProperty := true);
      }
      assert Added(old(State()), xml, isProperty) == Stored(old(State()), member);
      if member.name in members {
        var combined := CombineMembers(member, members[member.name]);
        if combined.Failure? {
          return Some(combined.error);
        }
        members := members[member.name := combined.value];
      } else {
        members := members[member.name := member];
        order := order + [member.name];
      }
      StoredKeepsValid(old(State()), member);
      err := None;
    }

    /** `for x in xs: self.addMember(x, is_property)`, stopping at the first error. */
    method AddMembers(xs: seq<Element>, isProperty: bool) returns (err: Option<Error>)
      requires Valid()
      modifies this
      ensures Valid()
      ensures name == old(name) && description == old(description) && version == old(version)
      ensures match AddedAll(old(State()), xs, isProperty)
        case Success(t) => err == None && State() == t
        case Failure(e) => err == Some(e)
    {
      for i := 0 to |xs|
        invariant Valid()
        invariant name == old(name) && description == old(description) && version == old(version)
        invariant AddedAll(old(State()), xs[..i], isProperty) == Success(State())
      {
        assert xs[..i + 1][..i] == xs[..i];
        err := AddMember(xs[i], isProperty);
        if err.Some? {
          AddedAllStopsAtFailure(old(State()), xs, isProperty, i + 1);
          return;
        }
      }
      assert xs[..|xs|] == xs;
      err := None;
    }

    /** `Interface.toXML`: the members are written in first-insertion order. */
    function ToXml(): (e: Element)
      reads this
      requires Valid()
      ensures e.tag == "interface" && |e.children| == 2
      ensures e.children[0] == Leaf("description", description)
      ensures e.children[1].tag == "members" && |e.children[1].children| == |order|
      ensures e.attrib == map["name" := name, "version" := Some(version)]
      ensures forall i :: 0 <= i < |order| ==> e.children[1].children[i] == MemberToXml(members[order[i]])
      ensures forall i :: 0 <= i < |order| ==>
        "name" in e.children[1].children[i].attrib && e.children[1].children[i].attrib["name"] == Some(order[i])
    {
      var written := seq(|order|, i requires 0 <= i < |order| reads this requires Valid() => MemberToXml(members[order[i]]));
      Element("interface", map["name" := name, "version" := Some(version)], None,
        [Leaf("description", description), Element("members", map[], None, written)])
    }
  }

  /**
   * `Interface(xml)`: the name and description, then the members of each section
   * in turn. An error raised by any member leaves no interface.
   */
  method NewInterface(xml: Element) returns (r: Result<Interface, Error>)
    ensures r.Failure? <==> InterfaceTable(xml).Failure?
    ensures r.Failure? ==> r.error == InterfaceTable(xml).error
    ensures r.Success? ==>
      && fresh(r.value) && r.value.Valid() && r.value.State() == InterfaceTable(xml).value
      && r.value.name == FindText(xml, "name") && r.value.version == Version
      && r.value.description == FindPathText(xml, "attributes", "helpstring")
  {
    var itf := new Interface.Empty(FindText(xml, "name"), FindPathText(xml, "attributes", "helpstring"));
    var err := itf.AddMembers(Functions(xml), false);
    if err.Some? {
      return Failure(err.value);
    }
    err := itf.AddMembers(SectionItems(xml, "methods"), false);
    if err.Some? {
      return Failure(err.value);
    }
    err := itf.AddMembers(SectionItems(xml, "properties"), true);
    if err.Some? {
      return Failure(err.value);
    }
    r := Success(itf);
  }
}
