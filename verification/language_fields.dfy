/** `GetAddFieldsLangSpecific`: one `*_t_<code>` dynamic text field for each
    configured language the static catalogue has not already declared. */
module LanguageFields {
  import opened Wrappers
  import opened Seqs
  import opened Strings
  import opened Elements
  import opened Snapshot
  import opened FieldCommands
  import opened Catalogue

  const LanguageFieldPrefix := "*_t_"

  /** "*_t_" + code for every non-empty code, in input order, repeats kept. */
  function PrefixedCodes(isoCodes: seq<string>): (r: seq<string>)
    ensures forall n :: n in r <==> exists c :: c in isoCodes && c != "" && n == LanguageFieldPrefix + c
  {
    if |isoCodes| == 0 then []
    else
      assert isoCodes == [isoCodes[0]] + isoCodes[1..];
      (if isoCodes[0] != "" then [LanguageFieldPrefix + isoCodes[0]] else []) + PrefixedCodes(isoCodes[1..])
  }

  /** The position of the first configured code whose field name is
      `name`, and `|isoCodes|` when there is none. */
  function FirstCodeIndex(isoCodes: seq<string>, name: string): nat {
    if |isoCodes| == 0 then 0
    else if LanguageFieldPrefix + isoCodes[0] == name then 0
    else 1 + FirstCodeIndex(isoCodes[1..], name)
  }

  /** Every prefixed name is longer than the prefix. */
  lemma PrefixedNameLonger(isoCodes: seq<string>, n: string)
    requires n in PrefixedCodes(isoCodes)
    ensures |n| > |LanguageFieldPrefix|
  {
    var c :| c in isoCodes && c != "" && n == LanguageFieldPrefix + c;
  }

  /** Names earlier in `PrefixedCodes` come from codes configured earlier. */
  lemma {:induction false} PrefixedCodesOrder(isoCodes: seq<string>, n1: string, n2: string)
    requires n1 in PrefixedCodes(isoCodes) && n2 in PrefixedCodes(isoCodes)
    requires FirstIndex(PrefixedCodes(isoCodes), n1) < FirstIndex(PrefixedCodes(isoCodes), n2)
    ensures FirstCodeIndex(isoCodes, n1) < FirstCodeIndex(isoCodes, n2)
  {
    var pc := PrefixedCodes(isoCodes);
    var c := isoCodes[0];
    var rest := isoCodes[1..];
    var name := LanguageFieldPrefix + c;
    var head := if c != "" then [name] else [];
    assert pc == head + PrefixedCodes(rest);
    if c != "" && n1 == name {
      assert FirstCodeIndex(isoCodes, n1) == 0;
      assert FirstCodeIndex(isoCodes, n2) > 0 by {
        assert n2 != name;
      }
    } else {
      assert n1 != name && n2 != name by {
        PrefixedNameLonger(isoCodes, n1);
        PrefixedNameLonger(isoCodes, n2);
        if c != "" {
          assert pc[0] == name;
        }
      }
      var tail := PrefixedCodes(rest);
      assert n1 in tail && n2 in tail && FirstIndex(tail, n1) < FirstIndex(tail, n2) by {
        assert n1 !in head && n2 !in head;
        FirstIndexAppend(head, tail, n1);
        FirstIndexAppend(head, tail, n2);
      }
      PrefixedCodesOrder(rest, n1, n2);
    }
  }

  /** The candidate field names: one per distinct non-empty code, in the
      order in which the codes are first configured. */
  function CandidateNames(isoCodes: seq<string>): (r: seq<string>)
    ensures NoDuplicates(r)
    ensures forall n :: n in r <==> exists c :: c in isoCodes && c != "" && n == LanguageFieldPrefix + c
    ensures forall i, j :: 0 <= i < j < |r| ==> FirstCodeIndex(isoCodes, r[i]) < FirstCodeIndex(isoCodes, r[j])
  {
    var pc := PrefixedCodes(isoCodes);
    var r := Distinct(pc);
    assert forall i, j :: 0 <= i < j < |r| ==> FirstCodeIndex(isoCodes, r[i]) < FirstCodeIndex(isoCodes, r[j]) by {
      forall i, j | 0 <= i < j < |r|
        ensures FirstCodeIndex(isoCodes, r[i]) < FirstCodeIndex(isoCodes, r[j])
      {
        PrefixedCodesOrder(isoCodes, r[i], r[j]);
      }
    }
    r
  }

  /** The non-empty `name` texts of the static fields that were built. */
  function DeclaredNames(adds: seq<Element>): (r: seq<string>)
    ensures forall n :: n in r <==> n != "" && exists x :: x in adds && NameOf(x) == Some(n)
  {
    if |adds| == 0 then []
    else
      assert adds == [adds[0]] + adds[1..];
      var name := NameOf(adds[0]);
      (if name.Some? && name.value != "" then [name.value] else []) + DeclaredNames(adds[1..])
  }

  /** The candidates the static fields have not declared. */
  function NamesToAdd(isoCodes: seq<string>, adds: seq<Element>): (r: seq<string>)
    ensures NoDuplicates(r)
    ensures forall n :: n in r <==> n in CandidateNames(isoCodes) && n !in DeclaredNames(adds)
    ensures forall i, j :: 0 <= i < j < |r| ==> FirstCodeIndex(isoCodes, r[i]) < FirstCodeIndex(isoCodes, r[j])
  {
    var rank := n => FirstCodeIndex(isoCodes, n);
    assert IncreasingBy(rank, CandidateNames(isoCodes));
    WithoutKeepsOrder(CandidateNames(isoCodes), DeclaredNames(adds), rank);
    Without(CandidateNames(isoCodes), DeclaredNames(adds))
  }

  /** The language of a derived field name: `fieldname.Replace("*_t_", "")`,
      which removes every occurrence of the prefix, not only the leading one. */
  function LanguageOf(fieldName: string): string {
    RemoveAll(fieldName, LanguageFieldPrefix)
  }

  /** A code without `*` is read back unchanged from its field name. */
  lemma LanguageOfPlainCode(c: string)
    requires '*' !in c
    ensures LanguageOf(LanguageFieldPrefix + c) == c
  {
    RemoveAllLeading(LanguageFieldPrefix, c);
    RemoveAllWithoutFirstChar(c, LanguageFieldPrefix);
  }

  /** The definition `CreateDynamicFieldWithFallbackFieldType` passes on. */
  function LanguageFieldSpec(fieldName: string, fieldType: string): FieldSpec {
    FieldSpec(fieldName, fieldType, required := false, indexed := true, stored := true,
              multiValued := false, omitNorms := false, termVectors := false,
              termPositions := false, termOffsets := false, defaultValue := "", isDynamic := true)
  }

  /** `CreateDynamicFieldWithFallbackFieldType`: the field gets `fieldType`
      when that type exists and `fallbackFieldType` otherwise, and the chosen
      type is still checked, so the field is missing when neither exists. */
  function CreateDynamicFieldWithFallbackFieldType(
    s: Schema, fieldName: string, fieldType: string, fallbackFieldType: string): (r: Option<Element>)
    ensures r.None? <==> !TypeExists(s, fieldType) && !TypeExists(s, fallbackFieldType)
    ensures r.Some? ==> r.value.tag == AddDynamicField
  {
    var chosen := if TypeExists(s, fieldType) then fieldType else fallbackFieldType;
    CreateField(s, LanguageFieldSpec(fieldName, chosen))
  }

  /** The field built with a fallback carries the name it was given. */
  lemma FallbackFieldName(s: Schema, fieldName: string, fieldType: string, fallbackFieldType: string)
    requires CreateDynamicFieldWithFallbackFieldType(s, fieldName, fieldType, fallbackFieldType).Some?
    ensures NameOf(CreateDynamicFieldWithFallbackFieldType(s, fieldName, fieldType, fallbackFieldType).value)
              == Some(fieldName)
  {
    FallbackFieldRoundTrip(s, fieldName, fieldType, fallbackFieldType);
  }

  /** The field built with a fallback reads back as a dynamic text field of
      the given name and the chosen type. */
  lemma FallbackFieldRoundTrip(s: Schema, fieldName: string, fieldType: string, fallbackFieldType: string)
    requires CreateDynamicFieldWithFallbackFieldType(s, fieldName, fieldType, fallbackFieldType).Some?
    ensures var e := CreateDynamicFieldWithFallbackFieldType(s, fieldName, fieldType, fallbackFieldType).value;
            var chosen := if TypeExists(s, fieldType) then fieldType else fallbackFieldType;
            && NameOf(e) == Some(fieldName)
            && DecodeField(e) == Some(LanguageFieldSpec(fieldName, chosen))
  {
    var chosen := if TypeExists(s, fieldType) then fieldType else fallbackFieldType;
    var spec := LanguageFieldSpec(fieldName, chosen);
    var e := CreateField(s, spec).value;
    CreateFieldRoundTrip(s, spec, []);
    assert e.children + [] == e.children;
    DecodedName(e);
  }

  /** The type a derived field asks for: `text_` + its language. */
  function RequestedType(fieldName: string): string {
    "text_" + LanguageOf(fieldName)
  }

  /** The type a derived field ends up with. */
  function ChosenType(s: Schema, fieldName: string): string {
    if TypeExists(s, RequestedType(fieldName)) then RequestedType(fieldName) else TextGeneral
  }

  /** The field derived for one name: its requested type, else `text_general`. */
  function DerivedField(s: Schema, fieldName: string): Option<Element> {
    CreateDynamicFieldWithFallbackFieldType(s, fieldName, RequestedType(fieldName), TextGeneral)
  }

  /** One derived field per name, `null` where no usable type exists. */
  function DerivedFields(s: Schema, names: seq<string>): (r: seq<Option<Element>>)
    ensures |r| == |names|
  {
    if |names| == 0 then []
    else [DerivedField(s, names[0])] + DerivedFields(s, names[1..])
  }

  /** Each derived field is the one derived for the name at its position. */
  lemma {:induction false} DerivedFieldAt(s: Schema, names: seq<string>, i: nat)
    requires i < |names|
    ensures DerivedFields(s, names)[i] == DerivedField(s, names[i])
  {
    if i > 0 {
      DerivedFieldAt(s, names[1..], i - 1);
    }
  }

  /** `GetAddFieldsLangSpecific`, with the configured ISO codes as input. */
  function GetAddFieldsLangSpecific(s: Schema, isoCodes: seq<string>, adds: seq<Element>): (r: seq<Option<Element>>)
    ensures |r| == |NamesToAdd(isoCodes, adds)|
    ensures InCodeOrder(isoCodes, Somes(r))
  {
    var names := NamesToAdd(isoCodes, adds);
    var rank := n => FirstCodeIndex(isoCodes, n);
    assert IncreasingBy(rank, names);
    DerivedFieldsKeepOrder(s, names, rank);
    DerivedFields(s, names)
  }

  /** Every field carries a name, and `rank` strictly increases along those
      names. */
  predicate NamesIncreasingBy(rank: string -> int, d: seq<Element>) {
    && (forall i :: 0 <= i < |d| ==> NameOf(d[i]).Some?)
    && (forall i, j :: 0 <= i < j < |d| ==> rank(NameOf(d[i]).value) < rank(NameOf(d[j]).value))
  }

  /** Every field carries a name, and the fields come in the order in which
      the codes of their names are first configured. */
  predicate InCodeOrder(isoCodes: seq<string>, d: seq<Element>) {
    && (forall i :: 0 <= i < |d| ==> NameOf(d[i]).Some?)
    && (forall i, j :: 0 <= i < j < |d| ==>
          FirstCodeIndex(isoCodes, NameOf(d[i]).value) < FirstCodeIndex(isoCodes, NameOf(d[j]).value))
  }

  /** Every surviving derived field was derived for one of the names. */
  lemma DerivedMember(s: Schema, names: seq<string>, x: Element)
    requires x in Somes(DerivedFields(s, names))
    ensures exists i :: 0 <= i < |names| && DerivedField(s, names[i]) == Some(x)
  {
    var r := DerivedFields(s, names);
    var i :| 0 <= i < |r| && r[i] == Some(x);
    DerivedFieldAt(s, names, i);
  }

  /** Every surviving derived field is named after one of the names. */
  lemma DerivedName(s: Schema, names: seq<string>, x: Element)
    requires x in Somes(DerivedFields(s, names))
    ensures exists n :: n in names && NameOf(x) == Some(n)
  {
    DerivedMember(s, names, x);
    var i :| 0 <= i < |names| && DerivedField(s, names[i]) == Some(x);
    FallbackFieldName(s, names[i], RequestedType(names[i]), TextGeneral);
  }

  /** Every surviving derived field is a dynamic text field named after one
      of the names, with the type chosen for it, and that type exists. */
  lemma DerivedFieldsShape(s: Schema, names: seq<string>, x: Element)
    requires x in Somes(DerivedFields(s, names))
    ensures exists n :: n in names && NameOf(x) == Some(n) && TypeExists(s, ChosenType(s, n))
                        && DecodeField(x) == Some(LanguageFieldSpec(n, ChosenType(s, n)))
  {
    DerivedMember(s, names, x);
    var i :| 0 <= i < |names| && DerivedField(s, names[i]) == Some(x);
    FallbackFieldRoundTrip(s, names[i], RequestedType(names[i]), TextGeneral);
  }

  /** The `name` text of each element, in order. */
  function FieldNames(d: seq<Element>): (r: seq<Option<string>>)
    ensures |r| == |d|
    ensures forall i :: 0 <= i < |d| ==> r[i] == NameOf(d[i])
  {
    if |d| == 0 then [] else [NameOf(d[0])] + FieldNames(d[1..])
  }

  /** Distinct names give derived fields of pairwise different names. */
  lemma {:induction false} DerivedNamesDistinct(s: Schema, names: seq<string>)
    requires NoDuplicates(names)
    ensures NoDuplicates(FieldNames(Somes(DerivedFields(s, names))))
  {
    if |names| > 0 {
      var rest := names[1..];
      NoDuplicatesTail(names);
      DerivedNamesDistinct(s, rest);
      var first := DerivedField(s, names[0]);
      assert DerivedFields(s, names) == [first] + DerivedFields(s, rest);
      SomesAppend([first], DerivedFields(s, rest));
      var tail := Somes(DerivedFields(s, rest));
      assert Somes([first]) == if first.Some? then [first.value] else [] by {
        assert [first][1..] == [];
      }
      if first.Some? {
        var d := [first.value] + tail;
        assert FieldNames(d) == [NameOf(first.value)] + FieldNames(tail) by {
          assert d[1..] == tail;
        }
        FallbackFieldName(s, names[0], RequestedType(names[0]), TextGeneral);
        forall k | 0 <= k < |tail| ensures NameOf(tail[k]) != Some(names[0]) {
          DerivedName(s, rest, tail[k]);
        }
        NoDuplicatesCons(NameOf(first.value), FieldNames(tail));
      } else {
        assert Somes(DerivedFields(s, names)) == tail;
      }
    }
  }

  /** The derived fields keep the order of their names: a ranking of names
      that strictly increases along `names` strictly increases along the
      names of the surviving fields. */
  lemma DerivedFieldsKeepOrder(s: Schema, names: seq<string>, rank: string -> int)
    requires IncreasingBy(rank, names)
    ensures NamesIncreasingBy(rank, Somes(DerivedFields(s, names)))
  {
    var all := DerivedFields(s, names);
    var d := Somes(all);
    var byName := (x: Element) => if NameOf(x).Some? then rank(NameOf(x).value) else 0;
    assert SomesIncreasingBy(byName, all) by {
      forall i, j | 0 <= i < j < |all| && all[i].Some? && all[j].Some?
        ensures byName(all[i].value) < byName(all[j].value)
      {
        DerivedFieldAt(s, names, i);
        DerivedFieldAt(s, names, j);
        FallbackFieldName(s, names[i], RequestedType(names[i]), TextGeneral);
        FallbackFieldName(s, names[j], RequestedType(names[j]), TextGeneral);
      }
    }
    SomesKeepsOrder(all, byName);
    forall i | 0 <= i < |d| ensures NameOf(d[i]).Some? {
      DerivedName(s, names, d[i]);
    }
  }

  /** A name gets a derived field exactly when it is among the names and
      the type chosen for it exists. */
  lemma DerivedPresent(s: Schema, names: seq<string>, name: string)
    ensures (exists x :: x in Somes(DerivedFields(s, names)) && NameOf(x) == Some(name))
            <==> name in names && TypeExists(s, ChosenType(s, name))
  {
    var all := DerivedFields(s, names);
    if exists x :: x in Somes(all) && NameOf(x) == Some(name) {
      var x :| x in Somes(all) && NameOf(x) == Some(name);
      DerivedMember(s, names, x);
      var i :| 0 <= i < |names| && DerivedField(s, names[i]) == Some(x);
      FallbackFieldName(s, names[i], RequestedType(names[i]), TextGeneral);
    }
    if name in names && TypeExists(s, ChosenType(s, name)) {
      var i :| 0 <= i < |names| && names[i] == name;
      DerivedFieldAt(s, names, i);
      assert all[i].Some? && Some(all[i].value) in all;
      FallbackFieldName(s, name, RequestedType(name), TextGeneral);
      assert all[i].value in Somes(all);
    }
  }

  /** A derived field of a given name is the text field of that name with
      the type chosen for it. */
  lemma DerivedDecodes(s: Schema, names: seq<string>, name: string, x: Element)
    requires x in Somes(DerivedFields(s, names)) && NameOf(x) == Some(name)
    ensures DecodeField(x) == Some(LanguageFieldSpec(name, ChosenType(s, name)))
  {
    DerivedMember(s, names, x);
    var i :| 0 <= i < |names| && DerivedField(s, names[i]) == Some(x);
    FallbackFieldRoundTrip(s, names[i], RequestedType(names[i]), TextGeneral);
  }

  /** A configured code's field name is a name to add exactly when no static
      field declared it. */
  lemma CodeNameToAdd(isoCodes: seq<string>, adds: seq<Element>, code: string)
    requires code in isoCodes && code != ""
    ensures LanguageFieldPrefix + code in NamesToAdd(isoCodes, adds)
            <==> LanguageFieldPrefix + code !in DeclaredNames(adds)
  {
    assert LanguageFieldPrefix + code in CandidateNames(isoCodes);
  }

  /** For a configured code without `*`, the derived part holds a field named
      `*_t_<code>` exactly when no static field declared that name and the
      chosen type exists; that field uses `text_<code>` when it exists and
      `text_general` otherwise. */
  lemma DerivedFieldForCode(s: Schema, isoCodes: seq<string>, adds: seq<Element>, code: string)
    requires code in isoCodes && code != "" && '*' !in code
    ensures var name := LanguageFieldPrefix + code;
            var d := Somes(GetAddFieldsLangSpecific(s, isoCodes, adds));
            var chosen := if TypeExists(s, "text_" + code) then "text_" + code else TextGeneral;
            (exists x :: x in d && NameOf(x) == Some(name))
            <==> name !in DeclaredNames(adds) && TypeExists(s, chosen)
  {
    var name := LanguageFieldPrefix + code;
    LanguageOfPlainCode(code);
    CodeNameToAdd(isoCodes, adds, code);
    DerivedPresent(s, NamesToAdd(isoCodes, adds), name);
  }

  /** The derived field for a code without `*` uses `text_<code>` when that
      type exists and `text_general` otherwise. */
  lemma DerivedTypeForCode(s: Schema, isoCodes: seq<string>, adds: seq<Element>, code: string)
    requires '*' !in code
    ensures var name := LanguageFieldPrefix + code;
            var chosen := if TypeExists(s, "text_" + code) then "text_" + code else TextGeneral;
            forall x :: x in Somes(GetAddFieldsLangSpecific(s, isoCodes, adds)) && NameOf(x) == Some(name) ==>
              DecodeField(x) == Some(LanguageFieldSpec(name, chosen))
  {
    var name := LanguageFieldPrefix + code;
    var names := NamesToAdd(isoCodes, adds);
    LanguageOfPlainCode(code);
    forall x | x in Somes(DerivedFields(s, names)) && NameOf(x) == Some(name)
      ensures DecodeField(x) == Some(LanguageFieldSpec(name, ChosenType(s, name)))
    {
      DerivedDecodes(s, names, name, x);
    }
  }

  /** The derived fields carry pairwise different names. */
  lemma DerivedNamesUnique(s: Schema, isoCodes: seq<string>, adds: seq<Element>)
    ensures NoDuplicates(FieldNames(Somes(GetAddFieldsLangSpecific(s, isoCodes, adds))))
  {
    DerivedNamesDistinct(s, NamesToAdd(isoCodes, adds));
  }

  /** No derived field shares its name with one of the static fields. */
  lemma DerivedNamesFresh(s: Schema, isoCodes: seq<string>, adds: seq<Element>)
    ensures forall x, y :: x in Somes(GetAddFieldsLangSpecific(s, isoCodes, adds)) && y in adds
                           ==> NameOf(x) != NameOf(y)
  {
    var names := NamesToAdd(isoCodes, adds);
    forall x, y | x in Somes(DerivedFields(s, names)) && y in adds ensures NameOf(x) != NameOf(y) {
      DerivedName(s, names, x);
      var n :| n in names && NameOf(x) == Some(n);
      assert n in CandidateNames(isoCodes);
      assert |n| >= |LanguageFieldPrefix|;
    }
  }
}
