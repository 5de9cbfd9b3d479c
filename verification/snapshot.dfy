/** The snapshot of the live Solr schema that the planner reads. */
module Snapshot {
  import opened Wrappers

  /** A copy-field directive of the live schema. */
  datatype CopyField = CopyField(source: string, dest: string)

  /** A field type of the live schema: its name and implementation class. */
  datatype FieldType = FieldType(name: string, typeClass: string)

  /** The live schema, each collection in the order the schema lists it. */
  datatype Schema = Schema(
    copyFields: seq<CopyField>,
    dynamicFields: seq<string>,
    fields: seq<string>,
    fieldTypes: seq<FieldType>)

  /** The first field type named `name`, as a `List.Find` by name returns it. */
  function FindFieldType(types: seq<FieldType>, name: string): (r: Option<FieldType>)
    ensures r.None? <==> forall t :: t in types ==> t.name != name
    ensures r.Some? ==> exists k :: 0 <= k < |types| && types[k] == r.value && r.value.name == name
                                    && forall i :: 0 <= i < k ==> types[i].name != name
  {
    if |types| == 0 then None
    else if types[0].name == name then Some(types[0])
    else
      assert types == [types[0]] + types[1..];
      var r := FindFieldType(types[1..], name);
      assert r.Some? ==> exists k :: 1 <= k < |types| && types[k] == r.value && r.value.name == name
                                     && forall i :: 0 <= i < k ==> types[i].name != name by {
        if r.Some? {
          var k :| 0 <= k < |types[1..]| && types[1..][k] == r.value
                   && forall i :: 0 <= i < k ==> types[1..][i].name != name;
          assert types[k + 1] == r.value;
          forall i | 0 <= i < k + 1 ensures types[i].name != name {
            if i > 0 { assert types[i] == types[1..][i - 1]; }
          }
        }
      }
      r
  }

  /** Whether the snapshot has a field type of this exact name. */
  predicate TypeExists(s: Schema, name: string) {
    exists t :: t in s.fieldTypes && t.name == name
  }

  /** `TypeExists` is the by-name lookup coming back non-null. */
  lemma TypeExistsIffFound(s: Schema, name: string)
    ensures TypeExists(s, name) <==> FindFieldType(s.fieldTypes, name).Some?
  {
  }
}
