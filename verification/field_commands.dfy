/** The element builders of `PopulateSolrSchemaHelper`: one add command per
    field definition, one add-or-replace command per field type, and the
    delete commands that tear the live schema down. */
module FieldCommands {
  import opened Wrappers
  import opened Elements
  import opened Snapshot

  /** The arguments of `CreateField`: a field or dynamic-field definition.
      A `null` default value is written "" (the source treats both alike). */
  datatype FieldSpec = FieldSpec(
    name: string,
    fieldType: string,
    required: bool,
    indexed: bool,
    stored: bool,
    multiValued: bool,
    omitNorms: bool,
    termVectors: bool,
    termPositions: bool,
    termOffsets: bool,
    defaultValue: string,
    isDynamic: bool)

  /** A field type to add or replace: name, implementation class, and the
      extra properties in the order the dictionary lists them. */
  datatype FieldTypeSpec = FieldTypeSpec(
    name: string,
    typeClass: string,
    properties: seq<(string, string)>)

  /** `bool.ToString().ToLowerInvariant()`, and the text of an XElement built
      from a bool. */
  function BoolText(b: bool): string {
    if b then "true" else "false"
  }

  // ---------------------------------------------------------------------
  // add-field / add-dynamic-field
  // ---------------------------------------------------------------------

  /** The position of a child tag in the order `CreateField` writes them;
      11 for any tag it never writes. */
  function Rank(tag: string): nat {
    if tag == "name" then 0
    else if tag == "type" then 1
    else if tag == "indexed" then 2
    else if tag == "stored" then 3
    else if tag == "required" then 4
    else if tag == "multiValued" then 5
    else if tag == "omitNorms" then 6
    else if tag == "termVectors" then 7
    else if tag == "termPositions" then 8
    else if tag == "termOffsets" then 9
    else if tag == "default" then 10
    else 11
  }

  /** Children in strictly increasing `rank`: in order and no tag twice. The
      ranking is a parameter so that the general lemmas below never look
      inside `Rank`. */
  predicate OrderedBy(rank: string -> nat, children: seq<Element>) {
    forall i, j :: 0 <= i < j < |children| ==> rank(children[i].tag) < rank(children[j].tag)
  }

  /** Children in `CreateField`'s order, with no tag twice. */
  predicate InFieldOrder(children: seq<Element>) {
    OrderedBy(Rank, children)
  }

  /** The optional children `CreateField` may add, in the order it tests
      them, each with the condition under which it is added. */
  function OptionalChildren(f: FieldSpec): seq<(bool, Element)> {
    [(f.required, Leaf("required", "true")),
     (f.multiValued, Leaf("multiValued", "true")),
     (f.omitNorms, Leaf("omitNorms", "true")),
     (f.termVectors, Leaf("termVectors", "true")),
     (f.termPositions, Leaf("termPositions", "true")),
     (f.termOffsets, Leaf("termOffsets", "true")),
     (f.defaultValue != "", Leaf("default", f.defaultValue))]
  }

  /** The candidates whose condition holds, in order. */
  function Present(candidates: seq<(bool, Element)>): (r: seq<Element>)
    ensures forall x :: x in r <==> (true, x) in candidates
  {
    if |candidates| == 0 then []
    else
      assert candidates == [candidates[0]] + candidates[1..];
      (if candidates[0].0 then [candidates[0].1] else []) + Present(candidates[1..])
  }

  /** The children `CreateField` adds, in the order it adds them. */
  function FieldChildren(f: FieldSpec): seq<Element> {
    [Leaf("name", f.name), Leaf("type", f.fieldType),
     Leaf("indexed", BoolText(f.indexed)), Leaf("stored", BoolText(f.stored))]
    + Present(OptionalChildren(f))
  }

  lemma {:induction false} PresentOrderedBy(rank: string -> nat, candidates: seq<(bool, Element)>)
    requires forall i, j :: 0 <= i < j < |candidates| ==> rank(candidates[i].1.tag) < rank(candidates[j].1.tag)
    ensures OrderedBy(rank, Present(candidates))
  {
    if |candidates| > 0 {
      var rest := candidates[1..];
      assert forall i, j :: 0 <= i < j < |rest| ==> rank(rest[i].1.tag) < rank(rest[j].1.tag) by {
        forall i, j | 0 <= i < j < |rest| ensures rank(rest[i].1.tag) < rank(rest[j].1.tag) {
          assert rest[i] == candidates[i + 1] && rest[j] == candidates[j + 1];
        }
      }
      PresentOrderedBy(rank, rest);
      var tail := Present(rest);
      forall x | x in tail ensures rank(candidates[0].1.tag) < rank(x.tag) {
        var k :| 0 <= k < |rest| && rest[k] == (true, x);
        assert candidates[k + 1] == (true, x);
      }
      if candidates[0].0 {
        OrderedByAppend(rank, [candidates[0].1], tail, rank(candidates[0].1.tag) + 1);
      }
    }
  }

  lemma OrderedByAppend(rank: string -> nat, a: seq<Element>, b: seq<Element>, bound: nat)
    requires OrderedBy(rank, a) && OrderedBy(rank, b)
    requires forall x :: x in a ==> rank(x.tag) < bound
    requires forall x :: x in b ==> bound <= rank(x.tag)
    ensures OrderedBy(rank, a + b)
  {
    var r := a + b;
    forall i, j | 0 <= i < j < |r| ensures rank(r[i].tag) < rank(r[j].tag) {
      if j < |a| {
        assert r[i] == a[i] && r[j] == a[j];
      } else if i < |a| {
        assert r[i] in a && r[j] in b;
      } else {
        assert r[i] == b[i - |a|] && r[j] == b[j - |a|];
      }
    }
  }

  lemma RankValues()
    ensures Rank("name") == 0 && Rank("type") == 1 && Rank("indexed") == 2 && Rank("stored") == 3
    ensures Rank("required") == 4 && Rank("multiValued") == 5 && Rank("omitNorms") == 6
    ensures Rank("termVectors") == 7 && Rank("termPositions") == 8 && Rank("termOffsets") == 9
    ensures Rank("default") == 10
  {
  }

  /** The optional children come in rank order, one rank apart. */
  lemma OptionalRanks(f: FieldSpec)
    ensures forall i :: 0 <= i < |OptionalChildren(f)| ==> Rank(OptionalChildren(f)[i].1.tag) == 4 + i
  {
    RankValues();
  }

  /** No two optional children share a tag. */
  lemma OptionalTagsDistinct(f: FieldSpec)
    ensures var opts := OptionalChildren(f);
            forall i, j :: 0 <= i < j < |opts| ==> opts[i].1.tag != opts[j].1.tag
  {
    OptionalRanks(f);
  }

  /** The four children every field has come first, in rank order. */
  lemma HeadOrdered(head: seq<Element>)
    requires |head| == 4
    requires head[0].tag == "name" && head[1].tag == "type" && head[2].tag == "indexed" && head[3].tag == "stored"
    ensures OrderedBy(Rank, head) && forall x :: x in head ==> Rank(x.tag) < 4
  {
    RankValues();
    forall i | 0 <= i < 4 ensures Rank(head[i].tag) == i {
    }
  }

  lemma FieldChildrenInOrder(f: FieldSpec)
    ensures InFieldOrder(FieldChildren(f))
    ensures forall x :: x in FieldChildren(f) ==> Rank(x.tag) < 11
  {
    var head := [Leaf("name", f.name), Leaf("type", f.fieldType),
                 Leaf("indexed", BoolText(f.indexed)), Leaf("stored", BoolText(f.stored))];
    HeadOrdered(head);
    var opts := OptionalChildren(f);
    OptionalRanks(f);
    PresentOrderedBy(Rank, opts);
    var tail := Present(opts);
    forall x | x in tail ensures 4 <= Rank(x.tag) < 11 {
      var k :| 0 <= k < |opts| && opts[k] == (true, x);
    }
    OrderedByAppend(Rank, head, tail, 4);
  }

  /** `CreateField`: nothing when the field's type is not in the snapshot,
      otherwise an add command whose first four children are always there
      and whose optional children follow in a fixed order. */
  function CreateField(s: Schema, f: FieldSpec): (r: Option<Element>)
    ensures r.None? <==> !TypeExists(s, f.fieldType)
    ensures r.Some? ==> r.value.tag == (if f.isDynamic then AddDynamicField else AddField)
    ensures r.Some? ==> |r.value.children| >= 4
                        && r.value.children[..4] == [Leaf("name", f.name), Leaf("type", f.fieldType),
                                                     Leaf("indexed", BoolText(f.indexed)),
                                                     Leaf("stored", BoolText(f.stored))]
  {
    if !TypeExists(s, f.fieldType) then None
    else Some(Element(if f.isDynamic then AddDynamicField else AddField, "", FieldChildren(f)))
  }

  /** Reads a field definition back from an add command: the inverse of
      `CreateField`. A flag is set when its child reads "true"; an absent
      `default` child reads as "". */
  function DecodeField(e: Element): Option<FieldSpec> {
    var m := ChildTexts(e.children);
    if !IsFieldAddCommand(e) || "name" !in m || "type" !in m then None
    else Some(FieldSpec(
      name := m["name"],
      fieldType := m["type"],
      required := TextOf(m, "required") == "true",
      indexed := TextOf(m, "indexed") == "true",
      stored := TextOf(m, "stored") == "true",
      multiValued := TextOf(m, "multiValued") == "true",
      omitNorms := TextOf(m, "omitNorms") == "true",
      termVectors := TextOf(m, "termVectors") == "true",
      termPositions := TextOf(m, "termPositions") == "true",
      termOffsets := TextOf(m, "termOffsets") == "true",
      defaultValue := TextOf(m, "default"),
      isDynamic := e.tag == AddDynamicField))
  }

  /** Among candidates with pairwise different tags, a tag reads the text of
      its candidate when that one is present, and nothing otherwise. */
  lemma {:induction false} PresentTexts(candidates: seq<(bool, Element)>, k: nat)
    requires k < |candidates|
    requires forall i, j :: 0 <= i < j < |candidates| ==> candidates[i].1.tag != candidates[j].1.tag
    ensures candidates[k].1.tag in ChildTexts(Present(candidates)) <==> candidates[k].0
    ensures TextOf(ChildTexts(Present(candidates)), candidates[k].1.tag)
              == if candidates[k].0 then candidates[k].1.text else ""
  {
    var c := candidates[0];
    var rest := candidates[1..];
    var first: seq<Element> := if c.0 then [c.1] else [];
    assert Present(candidates) == first + Present(rest);
    ChildTextsAppend(first, Present(rest));
    assert ChildTexts(first) == if c.0 then map[c.1.tag := c.1.text] else map[] by {
      if c.0 {
        assert first[1..] == [];
      }
    }
    if k == 0 {
      if !c.0 {
        ChildTextsKeys(Present(rest), c.1.tag);
        forall x | x in Present(rest) ensures x.tag != c.1.tag {
          var i :| 0 <= i < |rest| && rest[i] == (true, x);
          assert candidates[i + 1] == rest[i];
        }
      }
    } else {
      assert rest[k - 1] == candidates[k];
      PresentTexts(rest, k - 1);
    }
  }

  /** What the tag of the `k`-th optional child reads once the absent ones are dropped. */
  lemma OptionalText(f: FieldSpec, k: nat)
    requires k < |OptionalChildren(f)|
    ensures var c := OptionalChildren(f)[k];
            var m := ChildTexts(Present(OptionalChildren(f)));
            (c.1.tag in m <==> c.0) && TextOf(m, c.1.tag) == (if c.0 then c.1.text else "")
  {
    OptionalTagsDistinct(f);
    PresentTexts(OptionalChildren(f), k);
  }

  /** What each optional tag reads among the optional children. */
  lemma OptionalTexts(f: FieldSpec)
    ensures var m := ChildTexts(Present(OptionalChildren(f)));
            && ("required" in m <==> f.required) && ("multiValued" in m <==> f.multiValued)
            && ("omitNorms" in m <==> f.omitNorms) && ("termVectors" in m <==> f.termVectors)
            && ("termPositions" in m <==> f.termPositions) && ("termOffsets" in m <==> f.termOffsets)
            && ("default" in m <==> f.defaultValue != "")
    ensures var m := ChildTexts(Present(OptionalChildren(f)));
            && (TextOf(m, "required") == "true" <==> f.required)
            && (TextOf(m, "multiValued") == "true" <==> f.multiValued)
            && (TextOf(m, "omitNorms") == "true" <==> f.omitNorms)
            && (TextOf(m, "termVectors") == "true" <==> f.termVectors)
            && (TextOf(m, "termPositions") == "true" <==> f.termPositions)
            && (TextOf(m, "termOffsets") == "true" <==> f.termOffsets)
            && TextOf(m, "default") == f.defaultValue
  {
    OptionalText(f, 0);
    OptionalText(f, 1);
    OptionalText(f, 2);
    OptionalText(f, 3);
    OptionalText(f, 4);
    OptionalText(f, 5);
    OptionalText(f, 6);
  }

  /** What each head tag reads among the four children every field has. */
  lemma HeadTexts(f: FieldSpec)
    ensures ChildTexts(FieldChildren(f)[..4])
              == map["stored" := BoolText(f.stored), "indexed" := BoolText(f.indexed),
                     "type" := f.fieldType, "name" := f.name]
  {
    var head := FieldChildren(f)[..4];
    assert ChildTexts(head) == ChildTexts(head[1..])["name" := f.name];
    assert ChildTexts(head[1..]) == ChildTexts(head[2..])["type" := f.fieldType];
    assert ChildTexts(head[2..]) == ChildTexts(head[3..])["indexed" := BoolText(f.indexed)];
    assert ChildTexts(head[3..]) == ChildTexts(head[4..])["stored" := BoolText(f.stored)];
    assert head[4..] == [];
  }

  /** The texts of the children `CreateField` writes: the optional
      children's, overridden by the four every field has. */
  lemma FieldChildrenTexts(f: FieldSpec)
    ensures ChildTexts(FieldChildren(f))
              == ChildTexts(Present(OptionalChildren(f)))
                 + map["stored" := BoolText(f.stored), "indexed" := BoolText(f.indexed),
                       "type" := f.fieldType, "name" := f.name]
  {
    var c := FieldChildren(f);
    assert c == c[..4] + Present(OptionalChildren(f));
    ChildTextsAppend(c[..4], Present(OptionalChildren(f)));
    HeadTexts(f);
  }

  /** What each of the four head tags reads. */
  lemma FieldHeadTexts(f: FieldSpec)
    ensures var m := ChildTexts(FieldChildren(f));
            && "name" in m && m["name"] == f.name
            && "type" in m && m["type"] == f.fieldType
            && TextOf(m, "indexed") == BoolText(f.indexed) && TextOf(m, "stored") == BoolText(f.stored)
  {
    FieldChildrenTexts(f);
  }

  /** A tag the right-hand map does not carry reads as in the left one. */
  lemma TextOfUnshadowed(left: map<string, string>, right: map<string, string>, tag: string)
    requires tag !in right
    ensures tag in left + right <==> tag in left
    ensures TextOf(left + right, tag) == TextOf(left, tag)
  { }

  /** A tag none of the four head children carries reads in all the
      children as it reads among the optional ones. */
  lemma OptionalTagRead(f: FieldSpec, tag: string)
    requires tag != "name" && tag != "type" && tag != "indexed" && tag != "stored"
    ensures var m := ChildTexts(FieldChildren(f));
            var opt := ChildTexts(Present(OptionalChildren(f)));
            (tag in m <==> tag in opt) && TextOf(m, tag) == TextOf(opt, tag)
  {
    var head := map["stored" := BoolText(f.stored), "indexed" := BoolText(f.indexed),
                     "type" := f.fieldType, "name" := f.name];
    FieldChildrenTexts(f);
    TextOfUnshadowed(ChildTexts(Present(OptionalChildren(f))), head, tag);
  }

  /** What each optional tag reads: the head does not carry it. */
  lemma FieldOptionalTexts(f: FieldSpec)
    ensures var m := ChildTexts(FieldChildren(f));
            && ("required" in m <==> f.required) && ("multiValued" in m <==> f.multiValued)
            && ("omitNorms" in m <==> f.omitNorms) && ("termVectors" in m <==> f.termVectors)
            && ("termPositions" in m <==> f.termPositions) && ("termOffsets" in m <==> f.termOffsets)
            && ("default" in m <==> f.defaultValue != "")
    ensures var m := ChildTexts(FieldChildren(f));
            && (TextOf(m, "required") == "true" <==> f.required)
            && (TextOf(m, "multiValued") == "true" <==> f.multiValued)
            && (TextOf(m, "omitNorms") == "true" <==> f.omitNorms)
            && (TextOf(m, "termVectors") == "true" <==> f.termVectors)
            && (TextOf(m, "termPositions") == "true" <==> f.termPositions)
            && (TextOf(m, "termOffsets") == "true" <==> f.termOffsets)
            && TextOf(m, "default") == f.defaultValue
  {
    OptionalTexts(f);
    OptionalTagRead(f, "required");
    OptionalTagRead(f, "multiValued");
    OptionalTagRead(f, "omitNorms");
    OptionalTagRead(f, "termVectors");
    OptionalTagRead(f, "termPositions");
    OptionalTagRead(f, "termOffsets");
    OptionalTagRead(f, "default");
  }

  /** What each tag reads in the children `CreateField` writes. */
  lemma FieldChildTexts(f: FieldSpec)
    ensures var m := ChildTexts(FieldChildren(f));
            && ("required" in m <==> f.required) && ("multiValued" in m <==> f.multiValued)
            && ("omitNorms" in m <==> f.omitNorms) && ("termVectors" in m <==> f.termVectors)
            && ("termPositions" in m <==> f.termPositions) && ("termOffsets" in m <==> f.termOffsets)
            && ("default" in m <==> f.defaultValue != "")
    ensures var m := ChildTexts(FieldChildren(f));
            && "name" in m && m["name"] == f.name
            && "type" in m && m["type"] == f.fieldType
            && TextOf(m, "indexed") == BoolText(f.indexed) && TextOf(m, "stored") == BoolText(f.stored)
            && (TextOf(m, "required") == "true" <==> f.required)
            && (TextOf(m, "multiValued") == "true" <==> f.multiValued)
            && (TextOf(m, "omitNorms") == "true" <==> f.omitNorms)
            && (TextOf(m, "termVectors") == "true" <==> f.termVectors)
            && (TextOf(m, "termPositions") == "true" <==> f.termPositions)
            && (TextOf(m, "termOffsets") == "true" <==> f.termOffsets)
            && TextOf(m, "default") == f.defaultValue
  {
    FieldHeadTexts(f);
    FieldOptionalTexts(f);
  }

  /** Children of tags `CreateField` never writes do not disturb what one of
      its tags reads. */
  lemma LookupPastUnknownTags(extra: seq<Element>, tag: string)
    requires Rank(tag) < 11
    requires forall x :: x in extra ==> Rank(x.tag) == 11
    ensures tag !in ChildTexts(extra)
  {
  }

  /** Decoding depends on the children only through what each tag reads. */
  lemma DecodeFromChildTexts(tag: string, c: seq<Element>, f: FieldSpec)
    requires tag == (if f.isDynamic then AddDynamicField else AddField)
    requires var m := ChildTexts(c);
             && "name" in m && m["name"] == f.name
             && "type" in m && m["type"] == f.fieldType
             && TextOf(m, "indexed") == BoolText(f.indexed) && TextOf(m, "stored") == BoolText(f.stored)
             && (TextOf(m, "required") == "true" <==> f.required)
             && (TextOf(m, "multiValued") == "true" <==> f.multiValued)
             && (TextOf(m, "omitNorms") == "true" <==> f.omitNorms)
             && (TextOf(m, "termVectors") == "true" <==> f.termVectors)
             && (TextOf(m, "termPositions") == "true" <==> f.termPositions)
             && (TextOf(m, "termOffsets") == "true" <==> f.termOffsets)
             && TextOf(m, "default") == f.defaultValue
    ensures DecodeField(Element(tag, "", c)) == Some(f)
  {
  }

  /** A decodable command carries the decoded name. */
  lemma DecodedName(e: Element)
    requires DecodeField(e).Some?
    ensures NameOf(e) == Some(DecodeField(e).value.name)
  {
  }

  /** Every field definition survives the trip through its add command, also
      when further children of other tags follow (as `_readaccess` appends
      `docValues`). */
  lemma CreateFieldRoundTrip(s: Schema, f: FieldSpec, extra: seq<Element>)
    requires TypeExists(s, f.fieldType)
    requires forall x :: x in extra ==> Rank(x.tag) == 11
    ensures var e := CreateField(s, f).value;
            DecodeField(Element(e.tag, e.text, e.children + extra)) == Some(f)
  {
    var c := FieldChildren(f);
    FieldChildTexts(f);
    ChildTextsAppend(c, extra);
    RankValues();
    LookupPastUnknownTags(extra, "name");
    LookupPastUnknownTags(extra, "type");
    LookupPastUnknownTags(extra, "indexed");
    LookupPastUnknownTags(extra, "stored");
    LookupPastUnknownTags(extra, "required");
    LookupPastUnknownTags(extra, "multiValued");
    LookupPastUnknownTags(extra, "omitNorms");
    LookupPastUnknownTags(extra, "termVectors");
    LookupPastUnknownTags(extra, "termPositions");
    LookupPastUnknownTags(extra, "termOffsets");
    LookupPastUnknownTags(extra, "default");
    DecodeFromChildTexts(if f.isDynamic then AddDynamicField else AddField, c + extra, f);
  }

  // ---------------------------------------------------------------------
  // add-field-type / replace-field-type
  // ---------------------------------------------------------------------

  /** One leaf per dictionary entry: `<key>value</key>`. */
  function PropertyLeaves(properties: seq<(string, string)>): (r: seq<Element>)
    ensures |r| == |properties|
    ensures forall i :: 0 <= i < |r| ==> r[i] == Leaf(properties[i].0, properties[i].1)
  {
    if |properties| == 0 then []
    else [Leaf(properties[0].0, properties[0].1)] + PropertyLeaves(properties[1..])
  }

  /** The (tag, text) pairs of a run of children: the inverse of
      `PropertyLeaves`. */
  function LeafPairs(children: seq<Element>): (r: seq<(string, string)>)
    ensures |r| == |children|
  {
    if |children| == 0 then []
    else [(children[0].tag, children[0].text)] + LeafPairs(children[1..])
  }

  lemma {:induction false} LeafPairsOfPropertyLeaves(properties: seq<(string, string)>)
    ensures LeafPairs(PropertyLeaves(properties)) == properties
  {
    if |properties| > 0 {
      LeafPairsOfPropertyLeaves(properties[1..]);
    }
  }

  /** `CreateFieldType`: a replace command when the snapshot already has a
      type of that name, an add command otherwise; children `name`, `class`,
      then the properties in order. */
  function CreateFieldType(s: Schema, t: FieldTypeSpec): (r: Element)
    ensures r.tag == (if TypeExists(s, t.name) then ReplaceFieldType else AddFieldType)
    ensures |r.children| == 2 + |t.properties|
    ensures r.children[0] == Leaf("name", t.name) && r.children[1] == Leaf("class", t.typeClass)
    ensures forall i :: 0 <= i < |t.properties| ==>
              r.children[2 + i] == Leaf(t.properties[i].0, t.properties[i].1)
  {
    Element(if TypeExists(s, t.name) then ReplaceFieldType else AddFieldType, "",
            [Leaf("name", t.name), Leaf("class", t.typeClass)] + PropertyLeaves(t.properties))
  }

  /** Reads a field type back from an add or replace command. */
  function DecodeFieldType(e: Element): Option<FieldTypeSpec> {
    var c := e.children;
    if (e.tag == AddFieldType || e.tag == ReplaceFieldType)
       && |c| >= 2 && c[0].tag == "name" && c[1].tag == "class"
    then Some(FieldTypeSpec(c[0].text, c[1].text, LeafPairs(c[2..])))
    else None
  }

  lemma CreateFieldTypeRoundTrip(s: Schema, t: FieldTypeSpec)
    ensures DecodeFieldType(CreateFieldType(s, t)) == Some(t)
  {
    var c := CreateFieldType(s, t).children;
    assert c[2..] == PropertyLeaves(t.properties);
    LeafPairsOfPropertyLeaves(t.properties);
  }

  // ---------------------------------------------------------------------
  // delete-copy-field / delete-dynamic-field / delete-field
  // ---------------------------------------------------------------------

  /** `GetRemoveField`. */
  function RemoveField(name: string, isDynamic: bool): Element {
    Element(if isDynamic then DeleteDynamicField else DeleteField, "", [Leaf("name", name)])
  }

  /** `GetRemoveCopyField`. */
  function RemoveCopyField(cf: CopyField): Element {
    Element(DeleteCopyField, "", [Leaf("source", cf.source), Leaf("dest", cf.dest)])
  }

  function RemoveCopyFields(copyFields: seq<CopyField>): (r: seq<Element>)
    ensures |r| == |copyFields|
    ensures forall i :: 0 <= i < |r| ==> r[i] == RemoveCopyField(copyFields[i])
  {
    if |copyFields| == 0 then []
    else [RemoveCopyField(copyFields[0])] + RemoveCopyFields(copyFields[1..])
  }

  function RemoveFields(names: seq<string>, isDynamic: bool): (r: seq<Element>)
    ensures |r| == |names|
    ensures forall i :: 0 <= i < |r| ==> r[i] == RemoveField(names[i], isDynamic)
  {
    if |names| == 0 then []
    else [RemoveField(names[0], isDynamic)] + RemoveFields(names[1..], isDynamic)
  }

  /** `GetRemoveFields`: one delete per copy-field, then per dynamic field,
      then per field, each group in the snapshot's order. */
  function GetRemoveFields(s: Schema): (r: seq<Element>)
    ensures |r| == |s.copyFields| + |s.dynamicFields| + |s.fields|
    ensures forall i :: 0 <= i < |r| ==> IsDeleteCommand(r[i])
    ensures forall i :: 0 <= i < |s.copyFields| ==>
              r[i].tag == DeleteCopyField
              && r[i].children == [Leaf("source", s.copyFields[i].source), Leaf("dest", s.copyFields[i].dest)]
    ensures forall i :: 0 <= i < |s.dynamicFields| ==>
              r[|s.copyFields| + i] == Element(DeleteDynamicField, "", [Leaf("name", s.dynamicFields[i])])
    ensures forall i :: 0 <= i < |s.fields| ==>
              r[|s.copyFields| + |s.dynamicFields| + i] == Element(DeleteField, "", [Leaf("name", s.fields[i])])
  {
    RemoveCopyFields(s.copyFields) + RemoveFields(s.dynamicFields, true) + RemoveFields(s.fields, false)
  }

  /** What a run of delete commands removes, read back as a schema without
      field types: the inverse of `GetRemoveFields`. Other commands are
      skipped. */
  function RemovedEntries(commands: seq<Element>): (r: Schema)
    ensures r.fieldTypes == []
  {
    if |commands| == 0 then Schema([], [], [], [])
    else
      var rest := RemovedEntries(commands[1..]);
      var c := commands[0];
      if c.tag == DeleteCopyField then
        var m := ChildTexts(c.children);
        rest.(copyFields := [CopyField(TextOf(m, "source"), TextOf(m, "dest"))] + rest.copyFields)
      else if c.tag == DeleteDynamicField then
        rest.(dynamicFields := [TextOf(ChildTexts(c.children), "name")] + rest.dynamicFields)
      else if c.tag == DeleteField then
        rest.(fields := [TextOf(ChildTexts(c.children), "name")] + rest.fields)
      else rest
  }

  lemma {:induction false} RemovedEntriesAppend(a: seq<Element>, b: seq<Element>)
    ensures var ra := RemovedEntries(a);
            var rb := RemovedEntries(b);
            RemovedEntries(a + b)
              == Schema(ra.copyFields + rb.copyFields, ra.dynamicFields + rb.dynamicFields,
                        ra.fields + rb.fields, [])
  {
    if |a| == 0 {
      assert a + b == b;
    } else {
      assert (a + b)[1..] == a[1..] + b;
      RemovedEntriesAppend(a[1..], b);
    }
  }

  lemma CopyFieldTexts(cf: CopyField)
    ensures ChildTexts(RemoveCopyField(cf).children) == map["dest" := cf.dest, "source" := cf.source]
  {
    var k := RemoveCopyField(cf).children;
    assert ChildTexts(k) == ChildTexts(k[1..])["source" := cf.source];
    assert ChildTexts(k[1..]) == ChildTexts(k[1..][1..])["dest" := cf.dest];
    assert k[1..][1..] == [];
  }

  lemma {:induction false} RemovedCopyFields(copyFields: seq<CopyField>)
    ensures RemovedEntries(RemoveCopyFields(copyFields)) == Schema(copyFields, [], [], [])
  {
    if |copyFields| > 0 {
      RemovedCopyFields(copyFields[1..]);
      var c := RemoveCopyFields(copyFields);
      assert c[1..] == RemoveCopyFields(copyFields[1..]);
      CopyFieldTexts(copyFields[0]);
      assert copyFields == [copyFields[0]] + copyFields[1..];
    }
  }

  /** Reading back one field delete in front of other commands. */
  lemma RemovedFieldHead(name: string, isDynamic: bool, rest: seq<Element>)
    ensures var r := RemovedEntries(rest);
            RemovedEntries([RemoveField(name, isDynamic)] + rest)
              == if isDynamic then r.(dynamicFields := [name] + r.dynamicFields)
                 else r.(fields := [name] + r.fields)
  {
    var c := [RemoveField(name, isDynamic)] + rest;
    assert c[1..] == rest;
    var k := RemoveField(name, isDynamic).children;
    assert ChildTexts(k) == ChildTexts(k[1..])["name" := name];
  }

  lemma {:induction false} RemovedFieldNames(names: seq<string>, isDynamic: bool)
    ensures RemovedEntries(RemoveFields(names, isDynamic))
              == if isDynamic then Schema([], names, [], []) else Schema([], [], names, [])
  {
    if |names| > 0 {
      var tail := RemoveFields(names[1..], isDynamic);
      assert RemoveFields(names, isDynamic) == [RemoveField(names[0], isDynamic)] + tail;
      RemovedFieldHead(names[0], isDynamic, tail);
      RemovedFieldNames(names[1..], isDynamic);
      assert names == [names[0]] + names[1..];
    }
  }

  /** Reading back the three runs of deletes gives the three lists. */
  lemma RemovedParts(copyFields: seq<CopyField>, dynamicFields: seq<string>, fields: seq<string>)
    ensures RemovedEntries(RemoveCopyFields(copyFields) + RemoveFields(dynamicFields, true)
                           + RemoveFields(fields, false))
              == Schema(copyFields, dynamicFields, fields, [])
  {
    var a := RemoveCopyFields(copyFields);
    var b := RemoveFields(dynamicFields, true);
    var c := RemoveFields(fields, false);
    assert RemovedEntries(a + b) == Schema(copyFields, dynamicFields, [], []) by {
      RemovedEntriesAppend(a, b);
      RemovedCopyFields(copyFields);
      RemovedFieldNames(dynamicFields, true);
      assert copyFields + [] == copyFields && [] + dynamicFields == dynamicFields;
    }
    assert RemovedEntries(c) == Schema([], [], fields, []) by {
      RemovedFieldNames(fields, false);
    }
    RemovedEntriesAppend(a + b, c);
    assert copyFields + [] == copyFields && dynamicFields + [] == dynamicFields && [] + fields == fields;
  }

  /** The removal plan names every copy-field, dynamic field and field of the
      snapshot, in order, and nothing else. */
  lemma RemovalsRoundTrip(s: Schema)
    ensures RemovedEntries(GetRemoveFields(s)) == s.(fieldTypes := [])
  {
    RemovedParts(s.copyFields, s.dynamicFields, s.fields);
  }
}
