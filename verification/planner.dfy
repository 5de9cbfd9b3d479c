/** The two public plans of `PopulateSolrSchemaHelper`: `GetAllFields` (every
    delete, then the static catalogue, then the derived language fields) and
    `GetAllFieldTypes` (the `text_general` replacement, then `random` and
    `ignored`). */
module Planner {
  import opened Wrappers
  import opened Seqs
  import opened Elements
  import opened Snapshot
  import opened FieldCommands
  import opened Catalogue
  import opened LanguageFields

  /** `CreateReadAccessField` adds a child to what `CreateField` returned
      without checking it for null: the build throws when `lowercase` is
      missing. */
  datatype BuildError = ReadAccessFieldNull

  /** `CreateReadAccessField`: the `_readaccess` field with a trailing
      `docValues` = false child. */
  function CreateReadAccessField(s: Schema): (r: Result<Element, BuildError>)
    ensures r.Failure? <==> !TypeExists(s, LowercaseType)
    ensures r.Success? ==> r.value.tag == AddField && |r.value.children| > 0
                           && r.value.children[|r.value.children| - 1] == Leaf("docValues", "false")
  {
    match CreateField(s, ReadAccessSpec)
    case None => Failure(ReadAccessFieldNull)
    case Some(e) => Success(Element(e.tag, e.text, e.children + [Leaf("docValues", "false")]))
  }

  /** The trailing `docValues` child does not disturb the field definition. */
  lemma ReadAccessRoundTrip(s: Schema)
    requires TypeExists(s, LowercaseType)
    ensures DecodeField(CreateReadAccessField(s).value) == Some(ReadAccessSpec)
  {
    assert Rank("docValues") == 11;
    CreateFieldRoundTrip(s, ReadAccessSpec, [Leaf("docValues", "false")]);
  }

  /** One catalogue line: nothing when its type is missing, an error when it
      is `_readaccess` and `lowercase` is missing. */
  function CreateEntry(s: Schema, e: Entry): (r: Result<Option<Element>, BuildError>)
    ensures r.Failure? <==> e == ReadAccessField && !TypeExists(s, LowercaseType)
    ensures r.Success? ==> (r.value.None? <==> !TypeExists(s, EntrySpec(e).fieldType))
  {
    match e
    case Field(spec) => Success(CreateField(s, spec))
    case ReadAccessField =>
      match CreateReadAccessField(s)
      case Failure(err) => Failure(err)
      case Success(x) => Success(Some(x))
  }

  /** A built catalogue line is a field add that reads back as its entry. */
  lemma EntryRoundTrip(s: Schema, e: Entry, x: Element)
    requires CreateEntry(s, e) == Success(Some(x))
    ensures IsFieldAddCommand(x) && DecodeField(x) == Some(EntrySpec(e))
    ensures NameOf(x) == Some(EntrySpec(e).name)
  {
    match e
    case Field(spec) =>
      CreateFieldRoundTrip(s, spec, []);
      assert x.children + [] == x.children;
      DecodedName(x);
    case ReadAccessField =>
      ReadAccessRoundTrip(s);
      DecodedName(x);
  }

  /** `GetAddFields().Where(x => x != null).ToList()` over a catalogue: the
      built lines in order, or the first error. */
  function CreateEntries(s: Schema, entries: seq<Entry>): (r: Result<seq<Element>, BuildError>)
    ensures r.Failure? <==> ReadAccessField in entries && !TypeExists(s, LowercaseType)
    ensures r.Success? ==> |r.value| <= |entries|
  {
    if |entries| == 0 then Success([])
    else
      assert entries == [entries[0]] + entries[1..];
      match CreateEntry(s, entries[0])
      case Failure(err) => Failure(err)
      case Success(first) =>
        match CreateEntries(s, entries[1..])
        case Failure(err) => Failure(err)
        case Success(rest) => Success((if first.Some? then [first.value] else []) + rest)
  }

  /** The built lines are exactly the lines whose type exists. */
  lemma {:induction false} CreateEntriesMembers(s: Schema, entries: seq<Entry>, x: Element)
    requires CreateEntries(s, entries).Success?
    ensures x in CreateEntries(s, entries).value
            <==> exists e :: e in entries && CreateEntry(s, e) == Success(Some(x))
  {
    if |entries| > 0 {
      assert entries == [entries[0]] + entries[1..];
      CreateEntriesMembers(s, entries[1..], x);
    }
  }

  /** `GetAddFields`, nulls dropped: the static catalogue built against the
      snapshot; it fails exactly when `lowercase` is missing. */
  function GetAddFields(s: Schema): (r: Result<seq<Element>, BuildError>)
    ensures r.Failure? <==> !TypeExists(s, LowercaseType)
  {
    assert StaticCatalogue[|CatalogueHead|] == ReadAccessField;
    CreateEntries(s, StaticCatalogue)
  }

  /** The field plan over a given catalogue: the removals, then the built
      catalogue lines, then the derived language fields, nulls dropped. */
  function FieldPlan(s: Schema, isoCodes: seq<string>, entries: seq<Entry>): (r: Result<seq<Element>, BuildError>)
    ensures r.Failure? <==> ReadAccessField in entries && !TypeExists(s, LowercaseType)
    ensures r.Success? ==> var removals := GetRemoveFields(s);
                           |removals| <= |r.value| && r.value[..|removals|] == removals
    ensures r.Success? ==> var n := |GetRemoveFields(s)| + |CreateEntries(s, entries).value|;
                           n <= |r.value| && InCodeOrder(isoCodes, r.value[n..])
  {
    match CreateEntries(s, entries)
    case Failure(err) => Failure(err)
    case Success(adds) =>
      var removals := GetRemoveFields(s);
      var derived := Somes(GetAddFieldsLangSpecific(s, isoCodes, adds));
      var all := removals + adds + derived;
      assert all[..|removals|] == removals;
      assert all[|removals| + |adds|..] == derived;
      Success(all)
  }

  /** `GetAllFields`: the field plan over the static catalogue. It fails
      exactly when `lowercase` is missing, and then no plan exists at all. */
  function GetAllFields(s: Schema, isoCodes: seq<string>): (r: Result<seq<Element>, BuildError>)
    ensures r.Failure? <==> !TypeExists(s, LowercaseType)
    ensures r.Success? ==> var removals := GetRemoveFields(s);
                           |removals| <= |r.value| && r.value[..|removals|] == removals
    ensures r.Success? ==> GetAddFields(s).Success?
                           && var n := |GetRemoveFields(s)| + |GetAddFields(s).value|;
                              n <= |r.value| && InCodeOrder(isoCodes, r.value[n..])
  {
    assert StaticCatalogue[|CatalogueHead|] == ReadAccessField;
    FieldPlan(s, isoCodes, StaticCatalogue)
  }

  /** A built catalogue line is a field add of an existing type that reads
      back as the definition of one of the lines. */
  lemma StaticAddShape(s: Schema, entries: seq<Entry>, x: Element)
    requires CreateEntries(s, entries).Success? && x in CreateEntries(s, entries).value
    ensures IsFieldAddCommand(x)
    ensures exists e :: e in entries && DecodeField(x) == Some(EntrySpec(e))
                        && TypeExists(s, EntrySpec(e).fieldType)
  {
    CreateEntriesMembers(s, entries, x);
    var e :| e in entries && CreateEntry(s, e) == Success(Some(x));
    EntryRoundTrip(s, e, x);
  }

  /** A surviving derived field is a dynamic field add of an existing type. */
  lemma DerivedAddShape(s: Schema, names: seq<string>, x: Element)
    requires x in Somes(DerivedFields(s, names))
    ensures IsFieldAddCommand(x)
    ensures DecodeField(x).Some? && TypeExists(s, DecodeField(x).value.fieldType)
  {
    DerivedMember(s, names, x);
    DerivedFieldsShape(s, names, x);
  }

  /** The field plan splits into the removals, the built catalogue lines and
      the derived language fields. */
  lemma FieldPlanParts(s: Schema, isoCodes: seq<string>, entries: seq<Entry>)
    requires FieldPlan(s, isoCodes, entries).Success?
    ensures var adds := CreateEntries(s, entries).value;
            FieldPlan(s, isoCodes, entries).value
              == GetRemoveFields(s) + adds + Somes(GetAddFieldsLangSpecific(s, isoCodes, adds))
  {
  }

  /** Every command after the removals adds a field, and every field it adds
      has a type that the snapshot has. */
  lemma PlanAddsReferenceExistingTypes(s: Schema, isoCodes: seq<string>, entries: seq<Entry>)
    requires FieldPlan(s, isoCodes, entries).Success?
    ensures var r := FieldPlan(s, isoCodes, entries).value;
            forall i :: |GetRemoveFields(s)| <= i < |r| ==>
              && IsFieldAddCommand(r[i])
              && DecodeField(r[i]).Some? && TypeExists(s, DecodeField(r[i]).value.fieldType)
  {
    var r := FieldPlan(s, isoCodes, entries).value;
    var removals := GetRemoveFields(s);
    var adds := CreateEntries(s, entries).value;
    var derived := Somes(GetAddFieldsLangSpecific(s, isoCodes, adds));
    FieldPlanParts(s, isoCodes, entries);
    forall i | |removals| <= i < |r|
      ensures IsFieldAddCommand(r[i]) && DecodeField(r[i]).Some?
              && TypeExists(s, DecodeField(r[i]).value.fieldType)
    {
      if i < |removals| + |adds| {
        assert r[i] == adds[i - |removals|];
        StaticAddShape(s, entries, r[i]);
      } else {
        assert r[i] == derived[i - |removals| - |adds|];
        DerivedAddShape(s, NamesToAdd(isoCodes, adds), r[i]);
      }
    }
  }

  /** Every delete of the field plan precedes every add. */
  lemma DeletesPrecedeAdds(s: Schema, isoCodes: seq<string>, entries: seq<Entry>)
    requires FieldPlan(s, isoCodes, entries).Success?
    ensures var r := FieldPlan(s, isoCodes, entries).value;
            forall i, j :: 0 <= i < |r| && 0 <= j < |r| && IsDeleteCommand(r[j]) && IsFieldAddCommand(r[i])
                           ==> j < i
  {
    var r := FieldPlan(s, isoCodes, entries).value;
    var n := |GetRemoveFields(s)|;
    assert forall j :: 0 <= j < n ==> IsDeleteCommand(r[j]) by {
      assert forall j :: 0 <= j < n ==> r[j] == GetRemoveFields(s)[j];
    }
    assert forall i :: n <= i < |r| ==> IsFieldAddCommand(r[i]) by {
      PlanAddsReferenceExistingTypes(s, isoCodes, entries);
    }
    forall i, j | 0 <= i < |r| && 0 <= j < |r| && IsDeleteCommand(r[j]) && IsFieldAddCommand(r[i])
      ensures j < i
    {
      DeleteIsNotAdd(r[i]);
      DeleteIsNotAdd(r[j]);
    }
  }

  /** A catalogue line is in the plan exactly when its type exists. */
  lemma StaticFieldKeptIffTypeExists(s: Schema, entries: seq<Entry>, e: Entry)
    requires CreateEntries(s, entries).Success? && e in entries
    ensures (exists x :: x in CreateEntries(s, entries).value && DecodeField(x) == Some(EntrySpec(e)))
            <==> TypeExists(s, EntrySpec(e).fieldType)
  {
    var adds := CreateEntries(s, entries).value;
    if TypeExists(s, EntrySpec(e).fieldType) {
      var x := CreateEntry(s, e).value.value;
      CreateEntriesMembers(s, entries, x);
      EntryRoundTrip(s, e, x);
    }
    if exists x :: x in adds && DecodeField(x) == Some(EntrySpec(e)) {
      var x :| x in adds && DecodeField(x) == Some(EntrySpec(e));
      StaticAddShape(s, entries, x);
    }
  }

  /** A non-empty name is declared by the built catalogue exactly when some
      line of that name has an existing type. */
  lemma DeclaredNamesOfEntries(s: Schema, entries: seq<Entry>, n: string)
    requires CreateEntries(s, entries).Success? && n != ""
    ensures n in DeclaredNames(CreateEntries(s, entries).value)
            <==> exists e :: e in entries && EntrySpec(e).name == n && TypeExists(s, EntrySpec(e).fieldType)
  {
    var adds := CreateEntries(s, entries).value;
    if n in DeclaredNames(adds) {
      var x :| x in adds && NameOf(x) == Some(n);
      CreateEntriesMembers(s, entries, x);
      var e :| e in entries && CreateEntry(s, e) == Success(Some(x));
      EntryRoundTrip(s, e, x);
    }
    if exists e :: e in entries && EntrySpec(e).name == n && TypeExists(s, EntrySpec(e).fieldType) {
      var e :| e in entries && EntrySpec(e).name == n && TypeExists(s, EntrySpec(e).fieldType);
      var x := CreateEntry(s, e).value.value;
      CreateEntriesMembers(s, entries, x);
      EntryRoundTrip(s, e, x);
    }
  }

  /** For a configured code without `*`, the plan derives `*_t_<code>` exactly when no
      catalogue line of that name survived its own type check and the chosen
      type exists: `text_<code>` when it exists, else `text_general`. So a
      static language field dropped for its missing type comes back with
      the fallback type. */
  lemma LanguageFieldInPlan(s: Schema, isoCodes: seq<string>, entries: seq<Entry>, code: string)
    requires CreateEntries(s, entries).Success?
    requires code in isoCodes && code != "" && '*' !in code
    ensures FieldPlan(s, isoCodes, entries).Success?
    ensures var r := FieldPlan(s, isoCodes, entries).value;
            var derived := r[|GetRemoveFields(s)| + |CreateEntries(s, entries).value|..];
            var name := LanguageFieldPrefix + code;
            var chosen := if TypeExists(s, "text_" + code) then "text_" + code else TextGeneral;
            (exists x :: x in derived && NameOf(x) == Some(name))
            <==> && !(exists e :: e in entries && EntrySpec(e).name == name
                                   && TypeExists(s, EntrySpec(e).fieldType))
                 && TypeExists(s, chosen)
  {
    var r := FieldPlan(s, isoCodes, entries).value;
    var adds := CreateEntries(s, entries).value;
    FieldPlanParts(s, isoCodes, entries);
    assert r[|GetRemoveFields(s)| + |adds|..] == Somes(GetAddFieldsLangSpecific(s, isoCodes, adds));
    DeclaredNamesOfEntries(s, entries, LanguageFieldPrefix + code);
    DerivedFieldForCode(s, isoCodes, adds, code);
  }

  /** A language field of the plan for a code without `*` uses `text_<code>`
      when that type exists and `text_general` otherwise. */
  lemma LanguageFieldTypeInPlan(s: Schema, isoCodes: seq<string>, entries: seq<Entry>, code: string)
    requires CreateEntries(s, entries).Success? && '*' !in code
    ensures FieldPlan(s, isoCodes, entries).Success?
    ensures var r := FieldPlan(s, isoCodes, entries).value;
            var derived := r[|GetRemoveFields(s)| + |CreateEntries(s, entries).value|..];
            var name := LanguageFieldPrefix + code;
            var chosen := if TypeExists(s, "text_" + code) then "text_" + code else TextGeneral;
            forall x :: x in derived && NameOf(x) == Some(name) ==>
              DecodeField(x) == Some(LanguageFieldSpec(name, chosen))
  {
    var r := FieldPlan(s, isoCodes, entries).value;
    var adds := CreateEntries(s, entries).value;
    FieldPlanParts(s, isoCodes, entries);
    assert r[|GetRemoveFields(s)| + |adds|..] == Somes(GetAddFieldsLangSpecific(s, isoCodes, adds));
    DerivedTypeForCode(s, isoCodes, adds, code);
  }

  // ---------------------------------------------------------------------
  // Field types
  // ---------------------------------------------------------------------

  /** `GetReplaceTextGeneralFieldType`: when the snapshot has `text_general`,
      a replacement keeping the class of the first type of that name and
      installing the fixed analyzer chain; nothing otherwise. */
  function GetReplaceTextGeneralFieldType(s: Schema): (r: Option<Element>)
    ensures r.None? <==> !TypeExists(s, TextGeneral)
    ensures r.Some? ==> && r.value.tag == ReplaceFieldType
                        && |r.value.children| >= 2
                        && r.value.children[0] == Leaf("name", TextGeneral)
                        && r.value.children[2..] == TextGeneralAnalysis
    ensures r.Some? ==> exists k :: && 0 <= k < |s.fieldTypes| && s.fieldTypes[k].name == TextGeneral
                                    && (forall j :: 0 <= j < k ==> s.fieldTypes[j].name != TextGeneral)
                                    && r.value.children[1] == Leaf("class", s.fieldTypes[k].typeClass)
  {
    match FindFieldType(s.fieldTypes, TextGeneral)
    case None => None
    case Some(t) =>
      var children := [Leaf("name", t.name), Leaf("class", t.typeClass)] + TextGeneralAnalysis;
      assert children[2..] == TextGeneralAnalysis;
      Some(Element(ReplaceFieldType, "", children))
  }

  /** `GetAddFieldTypes`: `random`, then `ignored`, each added or replaced. */
  function GetAddFieldTypes(s: Schema): (r: seq<Element>)
    ensures |r| == 2
    ensures DecodeFieldType(r[0]) == Some(RandomType) && DecodeFieldType(r[1]) == Some(IgnoredType)
    ensures r[0].tag == (if TypeExists(s, RandomType.name) then ReplaceFieldType else AddFieldType)
    ensures r[1].tag == (if TypeExists(s, IgnoredType.name) then ReplaceFieldType else AddFieldType)
  {
    CreateFieldTypeRoundTrip(s, RandomType);
    CreateFieldTypeRoundTrip(s, IgnoredType);
    [CreateFieldType(s, RandomType), CreateFieldType(s, IgnoredType)]
  }

  /** `GetAllFieldTypes`: the `text_general` replacement when there is one,
      then `random` and `ignored`. */
  function GetAllFieldTypes(s: Schema): (r: seq<Element>)
    ensures |r| == if TypeExists(s, TextGeneral) then 3 else 2
    ensures TypeExists(s, TextGeneral) ==> r[0].tag == ReplaceFieldType && |r[0].children| > 0
                                           && r[0].children[0] == Leaf("name", TextGeneral)
    ensures DecodeFieldType(r[|r| - 2]) == Some(RandomType) && DecodeFieldType(r[|r| - 1]) == Some(IgnoredType)
    ensures r[|r| - 2].tag == (if TypeExists(s, RandomType.name) then ReplaceFieldType else AddFieldType)
    ensures r[|r| - 1].tag == (if TypeExists(s, IgnoredType.name) then ReplaceFieldType else AddFieldType)
  {
    var replace := GetReplaceTextGeneralFieldType(s);
    (if replace.Some? then [replace.value] else []) + GetAddFieldTypes(s)
  }

  // ---------------------------------------------------------------------
  // Examples
  // ---------------------------------------------------------------------

  /** Against an empty schema the field plan fails (`lowercase` is missing)
      and the type plan adds `random` and `ignored`. */
  lemma EmptySchemaExample()
    ensures var s := Schema([], [], [], []);
            && GetAllFields(s, ["en", "fr", "xx"]).Failure?
            && |GetAllFieldTypes(s)| == 2
            && GetAllFieldTypes(s)[0].tag == AddFieldType && GetAllFieldTypes(s)[1].tag == AddFieldType
  {
    var s := Schema([], [], [], []);
    assert !TypeExists(s, LowercaseType) && !TypeExists(s, TextGeneral);
    assert !TypeExists(s, RandomType.name) && !TypeExists(s, IgnoredType.name);
  }

  /** The two-line catalogue of the examples below: `_readaccess` and a
      static `*_t_en` field of type `text_en`. */
  function ExampleCatalogue(): seq<Entry> {
    [ReadAccessField, Dynamic("*_t_en", "text_en", false)]
  }

  /** Without `text_en`, no line of the example catalogue named `*_t_en`
      survives its type check, and the static `*_t_en` field is dropped. */
  lemma ExampleLineDropped(s: Schema)
    requires TypeExists(s, LowercaseType) && !TypeExists(s, "text_en")
    ensures CreateEntries(s, ExampleCatalogue()).Success?
    ensures !exists e :: e in ExampleCatalogue() && EntrySpec(e).name == "*_t_en"
                         && TypeExists(s, EntrySpec(e).fieldType)
    ensures !exists x :: x in CreateEntries(s, ExampleCatalogue()).value
                         && DecodeField(x) == Some(EntrySpec(ExampleCatalogue()[1]))
  {
    var entries := ExampleCatalogue();
    assert ReadAccessField in entries && entries[1] in entries;
    StaticFieldKeptIffTypeExists(s, entries, entries[1]);
    forall e | e in entries
      ensures !(EntrySpec(e).name == "*_t_en" && TypeExists(s, EntrySpec(e).fieldType))
    {
      if e == ReadAccessField {
        assert EntrySpec(e).name[0] == '_';
      } else {
        assert EntrySpec(e).fieldType == "text_en";
      }
    }
  }

  /** In a schema with `lowercase` and `text_general` but no `text_en`, the
      dropped static `*_t_en` field comes back as a derived language field
      with the fallback type `text_general`. */
  lemma FallbackExample(s: Schema)
    requires TypeExists(s, LowercaseType) && TypeExists(s, TextGeneral) && !TypeExists(s, "text_en")
    ensures var r := FieldPlan(s, ["en"], ExampleCatalogue());
            && r.Success?
            && exists x :: x in r.value && DecodeField(x) == Some(LanguageFieldSpec("*_t_en", TextGeneral))
  {
    var entries := ExampleCatalogue();
    assert "en" in ["en"] && '*' !in "en";
    assert LanguageFieldPrefix + "en" == "*_t_en" && "text_" + "en" == "text_en";
    ExampleLineDropped(s);
    LanguageFieldInPlan(s, ["en"], entries, "en");
    LanguageFieldTypeInPlan(s, ["en"], entries, "en");
    var r := FieldPlan(s, ["en"], entries).value;
    var k := |GetRemoveFields(s)| + |CreateEntries(s, entries).value|;
    var x :| x in r[k..] && NameOf(x) == Some("*_t_en");
    assert x in r;
  }
}
