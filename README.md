# midl-to-xml documentation mapper and combiner, in Dafny

This project models the second stage of midl-to-xml (`transform_xml.py`). That
stage reads the parse tree produced for a MIDL file and builds documentation
entities from it: interfaces with their members and parameters, and enum typedefs
with their constants. It writes each entity as an XML document. When a document
for the same entity was written before, it combines the new document with the old
one.

- `wrappers.dfy` (`Wrappers`): `Option` for Python's None, and `Result` for a
  computation that may raise.
- `xml.dfy` (`Xml`): ElementTree elements and the queries the mapper uses. `find`
  returns the first subelement with a tag. `findall` returns all of them in order.
  `findtext` returns None when no subelement matches, and "" for a match with no
  text. A path `a/b` searches the subelements of every `a` subelement in document
  order. `Error` lists the exceptions the code can raise.
- `entities.dfy` (`Entities`): `Constant`, `Typedef` and `Parameter` and their
  `toXML`. It also renders a constant's position with `str()`, proved to read back
  to the same number.
- `members.dfy` (`Members`): `Member.__init__` is a method (`NewMember`). It is
  proved against the specification function `MemberSpec`. The return-type loop
  and the `+=` signature building are separate methods (`LastReturnType`,
  `RenderSyntax`). `combine_members` is a method (`CombineMembers`) proved against
  `MergedMember`. `Member.toXML` is also here.
- `interfaces.dfy` (`Interfaces`): the class `Interface`. Its `members` dictionary
  is a `map` plus `order`, the keys in first-insertion order, because Python
  dictionaries keep that order and `toXML` writes members in it. `AddMember`
  updates the dictionary in place. `NewInterface` runs `__init__`'s three loops.
  The pure functions `Stored`, `Added`, `AddedAll` and `InterfaceTable` specify
  these methods.
- `documents.dfy` (`Documents`): `combine` and what it does and does not
  guarantee.
- `scenarios.dfy` (`Scenarios`): what the model yields for concrete inputs, proved.

The code's behaviour differs from what its names suggest in these ways:

- The return value is the parameter whose attributes contain `out`, not `retval`.
  When several are marked, the last one gives the type. The function's declared
  return type is never read. So `[propget] long Count();` followed by
  `[propput] void Count([in] long val);` gives one property `Count` of type None
  (written "void") with no parameters (`Scenarios.GetterAndSetterCollapse`). It
  does not give type `long` with parameter `val`.
- Merging members is not commutative, and it is not stable under repetition:
  merging the result with the same stored member again turns description
  "a\nb" into "a\nb\nb" (`Members.MergeAgainRepeatsDescription`). A merged
  description is new + "\n" + old. A tie on parameter count keeps the stored list. Signature lists
  are joined new first. Merging a member with an equal one changes nothing.
- `combine` is associative but neither commutative nor idempotent. It drops every
  leaf subelement, so a combined interface document loses its `description`. It
  keeps the structured subelements of both documents, so every re-run adds another
  `members` list.
- The signature is rendered before `addMember` forces a `properties`-section
  member to be a property. Such a member keeps the "()" and the single parameter
  that a `propget`/`propput` member would lose.

## Model

| member | source | states |
|---|---|---|
| `Xml.WithTag` | transform_xml.py:136 | `findall` returns exactly the subelements with the tag, no more than there are |
| `Xml.WithTagAppend` | transform_xml.py:136 | `findall` over a concatenation is the concatenation of the results, so it keeps document order |
| `Xml.FirstIsFirst` | transform_xml.py:133 | `find` returns the first subelement with the tag, and None only when none has it |
| `Xml.FindText` | transform_xml.py:10-12 | `findtext` is None exactly when no subelement has the tag |
| `Entities.Decimal` | transform_xml.py:21 | `str()` of a position is a non-empty string of decimal digits with no leading zero: "0" for 0, a first digit other than '0' otherwise |
| `Entities.DecimalRoundTrip` | transform_xml.py:21 | reading back the digits written for a position gives that position |
| `Entities.NewConstant` | transform_xml.py:9-16 | name from `name`, description from `helpstring`; the value is the `value` text, or the fallback when there is no `value` subelement |
| `Entities.ConstantRoundTrip` | transform_xml.py:9-23 | re-reading a written constant keeps its name, turns its value into the written text, and loses its description (written as `description`, read from `helpstring`) |
| `Entities.NewTypedef` | transform_xml.py:26-29 | raises exactly when there is no `constants` subelement; otherwise name from `name` and version "2011" |
| `Entities.ConstantToXml` | transform_xml.py:18-23 | written as `constant` with `name`, `value` and `description` subelements in that order; the value as text, a position in decimal |
| `Entities.TypedefConstants` | transform_xml.py:12-29 | one constant per subelement of `constants`, in order, with that subelement's name and description; one with `value` keeps that text unchanged, one without gets its zero-based position |
| `Entities.TypedefToXml` | transform_xml.py:31-37 | written as `typedef` named by the typedef, with its version, and one `constants` subelement holding each constant's element in order |
| `Entities.TypedefValuesArePositions` | transform_xml.py:18-37 | in the written typedef, the value of the i-th constant without an explicit value reads back as i |
| `Entities.NewParameter` | transform_xml.py:40-47 | raises exactly when there is no `attributes` subelement; type and name from `type` and `name`; default from `attributes/defaultvalue`; return value iff an attribute text is `out`; optional iff one is `optional` or `attributes/defaultvalue` exists |
| `Entities.ParameterToXml` | transform_xml.py:49-56 | written as `parameter` with `default`, `name` and `type` subelements in that order; the `optional` attribute, valued "True", is written iff the parameter is optional |
| `Members.ParametersOf` | transform_xml.py:62 | raises iff some parameter node has no `attributes`; otherwise one parameter per node, in order |
| `Members.ReturnTypeIsLastReturnValue` | transform_xml.py:70-72 | the member type is the type of the last parameter marked `out` |
| `Members.ReturnTypeWithoutReturnValue` | transform_xml.py:64-72 | with no parameter marked `out` the member type stays None |
| `Members.Visible` | transform_xml.py:74 | the kept parameters are exactly those not marked `out`; with none marked, the list is unchanged |
| `Members.VisibleAppend` | transform_xml.py:74 | filtering a concatenation filters each part, so the kept parameters stay in their order |
| `Members.LastReturnType` | transform_xml.py:64-73 | the loop over the parameters leaves the type of the last `out` parameter, or None |
| `Members.RenderSyntax` | transform_xml.py:79-94 | the signature built by successive `+=` is the documented signature |
| `Members.SyntaxShape` | transform_xml.py:79-98 | the signature starts with "<type or void> <name>" and ends with ";"; "(\n    " … "\n)" when parameters remain, "()" for a method without them, nothing for a property without them |
| `Members.NewMember` | transform_xml.py:59-98 | the constructor, step by step, yields the member (or the exception) `MemberSpec` describes |
| `Members.MemberParameters` | transform_xml.py:66-98 | no kept parameter is a return value; property iff `propget`/`propput`; a method keeps its visible parameters; a property with exactly one visible parameter drops it; one signature; built iff the node has a name |
| `Members.MemberType` | transform_xml.py:64-74 | the member type is the last `out` parameter's type, or None when there is none |
| `Members.MergedMember` | transform_xml.py:163-184 | the merge raises exactly when the descriptions differ and one is None; the result keeps the new member's name and kind |
| `Members.CombineMembers` | transform_xml.py:163-184 | overwriting the fields of the aliased new member yields `MergedMember` |
| `Members.MergeFields` | transform_xml.py:166-182 | type: new if set, else stored; description: unchanged if equal, else new + "\n" + stored; parameters: new only if strictly longer; signatures: exactly new ++ stored when they differ, new otherwise |
| `Members.MergeIdentical` | transform_xml.py:163-184 | merging a member with an equal one returns it unchanged |
| `Members.MergeParametersLonger` | transform_xml.py:174-177 | the longer parameter list wins in either order; on a tie the stored list is kept |
| `Members.MergeNotCommutative` | transform_xml.py:171-172 | two members whose merge depends on which one is new |
| `Members.MergeAgainRepeatsDescription` | transform_xml.py:171-172 | two members where merging the result with the stored member again changes it: the stored description is appended a second time |
| `Members.MemberToXml` | transform_xml.py:101-123 | written as `member` with its name, version and `type` "property" or "method"; a `returns/type` of the type or "void"; its description; one `syntax` element per signature; and last a `parameters` element holding each parameter not marked `out`, in order |
| `Members.WrittenParameters` | transform_xml.py:122 | the written `parameters` element lists every kept parameter, in order |
| `Interfaces.Stored` | transform_xml.py:155-161 | a new name is inserted and appended to the key order; a known name gets `combine_members(new, stored)` in place, and the order is unchanged; no other entry changes; it raises only when that merge raises |
| `Interfaces.StoredKeepsValid` | transform_xml.py:155-161 | storing keeps every key listed once and every member stored under its own name |
| `Interfaces.StoredCount` | transform_xml.py:155-161 | the member count grows by one exactly when the name is new |
| `Interfaces.AddedAllStopsAtFailure` | transform_xml.py:136-147 | once a member raises, building the interface raises that error |
| `Interfaces.AddedAllKeepsOrder` | transform_xml.py:136-161 | adding members keeps the table consistent, keeps the names already listed in place, and adds at most one name per node |
| `Interfaces.StoredPropertyIsProperty` | transform_xml.py:149-161 | a member from a `properties` section, once forced to be a property, is stored as a property, whether it is new or merged |
| `Interfaces.StoredNewTwice` | transform_xml.py:155-184 | storing a new member always succeeds, and storing it again right after changes nothing |
| `Interfaces.InterfaceTableValid` | transform_xml.py:126-147 | a built interface's table is consistent, with at most one member per node of its sections |
| `Interfaces.Interface.Empty` | transform_xml.py:127-131 | name, description and version set; no members |
| `Interfaces.Interface.AddMember` | transform_xml.py:149-161 | the dictionary becomes what `Added` says, and is left unchanged when the member raises |
| `Interfaces.Interface.AddMembers` | transform_xml.py:136-147 | adding a section's nodes in turn gives `AddedAll`, stopping at the first error |
| `Interfaces.Interface.ToXml` | transform_xml.py:186-193 | written as `interface` with its name and version, its description, and a `members` element holding each stored member's own element, one per key in first-insertion order |
| `Interfaces.NewInterface` | transform_xml.py:126-147 | name, description and version "2011" set; `definitions/function`, then `methods`, then `properties` (as properties) are added; any error leaves no interface |
| `Documents.Structured` | transform_xml.py:215 | filtering keeps no more subelements than there are |
| `Documents.StructuredMembers` | transform_xml.py:215 | the filter keeps exactly the subelements that have subelements |
| `Documents.StructuredAppend` | transform_xml.py:214-215 | filtering two lists one after the other equals filtering their concatenation |
| `Documents.StructuredKeepsAll` | transform_xml.py:215 | a list whose elements all have subelements passes the filter unchanged |
| `Documents.Combine` | transform_xml.py:195-217 | either document when the other is None; raises iff the root tags differ; otherwise root1's tag, the union of the attribute keys with root2's value winning, and root1's then root2's structured subelements |
| `Documents.CombinedChildren` | transform_xml.py:214-215 | the combined document has every structured subelement of either document and no leaf |
| `Documents.JoinedAssociative` | transform_xml.py:208-215 | building the combined root is associative |
| `Documents.CombineAssociative` | transform_xml.py:195-217 | combining three documents with the same tag gives the same result however they are grouped |
| `Documents.CombineNotCommutative` | transform_xml.py:209-212 | two documents whose combination depends on their order |
| `Documents.CombineSelfDuplicates` | transform_xml.py:214-215 | combining a document that has a structured subelement with itself lists each structured subelement twice and is not that document |
| `Documents.ExistingAttributesWin` | transform_xml.py:227-230 | since the code calls `combine(new, existing)`, an attribute of the existing document keeps its value |
| `Documents.CombineInterfaces` | transform_xml.py:186-217 | combining two written interfaces keeps only their non-empty `members` lists, the new one first and the existing one last, and drops both descriptions |
| `Documents.InterfaceWithTypedefFails` | transform_xml.py:205-206 | an interface document and a typedef document cannot be combined, in either order |
| `Scenarios.EnumPositions` | transform_xml.py:26-29 | an enum with constants A, B, C and no values yields values 0, 1, 2 |
| `Scenarios.OutParameterIsReturnValue` | transform_xml.py:70-98 | an `out` parameter gives the type and is hidden; the other parameter is listed in the signature |
| `Scenarios.SingleParameterSignature` | transform_xml.py:79-94 | a method with one visible parameter has the signature "<type or void> <name>(\n    <parameter type> <parameter name>\n);" |
| `Scenarios.OutAttributeMarksReturnValue` | transform_xml.py:40-47 | a parameter node with attributes `out, retval` is a return value and not optional |
| `Scenarios.GetterAndSetterCollapse` | transform_xml.py:149-184 | a getter and a setter named Count collapse into one property with type None and no parameters |

## Left out

- `scan_idl.py` (`parseIDL`, `listFiles`, `main`) is not part of this model. Its grammar is a pyparsing combinator graph whose matching rules (alternation, backtracking, whitespace and comment skipping) live in that library. The model starts from an already-parsed tree.
- `make_interface`, `make_typedef`, `parse_definitions`, `parse_xml`, `main`: they check paths, read, write and print files, and create directories. Only their call `combine(new, existing)` is kept, in `Documents.ExistingAttributesWin`.
- ElementTree's parsing and writing. A None attribute value (an entity without a name) is stored as None. The model does not show that writing it out fails.
- `Interface(None)`, which builds an object with no fields at all. Every call in the source passes a node.
- The output directory (`OUTPUT`) is left out. `VERSION` is the constant "2011" (`Entities.Version`).
- `Members.CombineMembers`: `combine_members` mutates the member it returns. The model returns a new value. The mutated member is the one `addMember` just built and nothing else refers to it, so no aliasing is lost.
- `Members.MergedMember`: the `is not None` tests on the signature lists are always true, because every member's signature is a list, so they are not modelled.
- `Members.ParametersOf`: the comprehension raises at the first parameter node without `attributes`. Every such node raises the same error, so the model does not track which node it was.
- The exception message of `combine` is modelled as `RootTagMismatch` carrying the two tags, not as formatted text.
