# SmartSolrSchema schema plan, in Dafny

This project models `PopulateSolrSchemaHelper`, the part of SmartSolrSchema that
turns a snapshot of a live Solr schema into Schema-API commands. The snapshot
holds the schema's copy-fields, dynamic fields, fields and field types. Two
plans are built from it:

- `GetAllFields` is a field plan. It deletes every copy-field, dynamic field and
  field. It then adds a fixed catalogue of about ninety fields, skipping each one
  whose type the schema lacks. Last, it adds one `*_t_<iso>` dynamic text field
  for each configured language that the catalogue has not already declared.
- `GetAllFieldTypes` is a type plan. It replaces `text_general` with a fixed
  analyzer chain when that type exists, then adds or replaces `random` and
  `ignored`.

Commands are modelled as immutable `Element` trees (tag, text, children), and the
snapshot as sequences. Every builder is a pure function. Most builders have a
decoder as partner (a field command read back into its definition, a removal
list read back into the snapshot), and round-trip lemmas connect the two.

Modules, in dependency order:

- `Wrappers` holds `Option` and `Result`.
- `Seqs` holds null filtering (`Somes`), `Distinct`, `Without` and the first-occurrence index `FirstIndex`.
- `Strings` holds `RemoveAll`, the model of `String.Replace(pattern, "")`.
- `Elements` holds the command tree and the tag-to-text lookup `ChildTexts`, which models `XElement.Element(tag).Value`.
- `Snapshot` holds the schema snapshot and the type lookup.
- `FieldCommands` holds the field, field-type and removal commands.
- `Catalogue` holds the static tables.
- `LanguageFields` holds the derived language fields.
- `Planner` holds the two public plans.

Behaviour worth knowing, as the code has it:

- The fallback type is not trusted. A language field whose `text_<iso>` type is
  missing asks for `text_general`, and `CreateField` checks that type too. When
  neither type exists, the field is `null` and is filtered out; it is not emitted
  with a dangling type.
- When the `lowercase` type is missing, the field plan throws.
  `CreateReadAccessField` appends a child to the result of `CreateField` without
  a null check. So an empty schema has no field plan at all: `GetAllFields` is a
  `Failure` exactly when `lowercase` is missing.
- A static `*_t_<iso>` field that is dropped for its missing type does not count
  as declared. So it is derived again when its code is configured, with type
  `text_<iso>` if that exists, else `text_general` if that exists.
- The language of a derived name is `fieldname.Replace("*_t_", "")`. That call
  removes every occurrence of `*_t_`, not only the leading one. The model does
  the same, and `LanguageOfPlainCode` shows that ordinary codes come back
  unchanged.
- The two public methods are independent. This class promises no order between
  type commands and field commands.

## Model

All source paths are `src/SmartSolrSchema/Pipelines/SolrProvider/PopulateSolrSchemaHelper.cs`.

| member | source | states |
|---|---|---|
| Seqs.Somes | src/SmartSolrSchema/Pipelines/SolrProvider/PopulateSolrSchemaHelper.cs:23-26 | the values of exactly the non-null entries, never more than there were entries |
| Seqs.SomesKeepsOrder | src/SmartSolrSchema/Pipelines/SolrProvider/PopulateSolrSchemaHelper.cs:25-27 | dropping the nulls keeps the order of the values that remain |
| Seqs.Distinct | src/SmartSolrSchema/Pipelines/SolrProvider/PopulateSolrSchemaHelper.cs:278 | no element repeats, the elements are exactly those of the input, and they come in the order of their first occurrences in the input |
| Seqs.Without | src/SmartSolrSchema/Pipelines/SolrProvider/PopulateSolrSchemaHelper.cs:283-285 | an element is kept exactly when it is in the input and not excluded, and no repeats appear when the input has none |
| Seqs.WithoutKeepsOrder | src/SmartSolrSchema/Pipelines/SolrProvider/PopulateSolrSchemaHelper.cs:283-285 | filtering out the excluded elements keeps the order of what remains |
| Snapshot.TypeExists | src/SmartSolrSchema/Pipelines/SolrProvider/PopulateSolrSchemaHelper.cs:37-40 | true exactly when some field type of the snapshot has that exact name; `Snapshot.TypeExistsIffFound` ties it to the lookup |
| Snapshot.FindFieldType | src/SmartSolrSchema/Pipelines/SolrProvider/PopulateSolrSchemaHelper.cs:318 | nothing exactly when no type has the name; otherwise the first type in the schema's order that has it |
| Snapshot.TypeExistsIffFound | src/SmartSolrSchema/Pipelines/SolrProvider/PopulateSolrSchemaHelper.cs:37-40 | the type check succeeds exactly when the by-name lookup finds a type, that is, when some type of the snapshot carries that exact name |
| FieldCommands.CreateField | src/SmartSolrSchema/Pipelines/SolrProvider/PopulateSolrSchemaHelper.cs:42-91 | no command exactly when the type is missing; otherwise `add-dynamic-field` for a dynamic field and `add-field` otherwise, starting with `name`, `type`, `indexed` and `stored`, the last two reading "true"/"false" |
| FieldCommands.FieldChildrenInOrder | src/SmartSolrSchema/Pipelines/SolrProvider/PopulateSolrSchemaHelper.cs:51-88 | the children follow the fixed order name, type, indexed, stored, required, multiValued, omitNorms, termVectors, termPositions, termOffsets, default; no tag repeats, and no child carries a tag outside these eleven |
| FieldCommands.FieldChildTexts | src/SmartSolrSchema/Pipelines/SolrProvider/PopulateSolrSchemaHelper.cs:51-88 | `name` and `type` read the field's name and type, `indexed` and `stored` read its flags; each of the six optional flag children is present exactly when its flag is set and then reads "true"; `default` is present exactly when the default value is non-empty and reads that value |
| FieldCommands.CreateFieldRoundTrip | src/SmartSolrSchema/Pipelines/SolrProvider/PopulateSolrSchemaHelper.cs:42-91 | reading the command back gives the field definition, also when children of other tags follow |
| FieldCommands.CreateFieldType | src/SmartSolrSchema/Pipelines/SolrProvider/PopulateSolrSchemaHelper.cs:93-104 | `replace-field-type` exactly when the type exists, else `add-field-type`; children are `name`, `class`, then one leaf per property, in order |
| FieldCommands.CreateFieldTypeRoundTrip | src/SmartSolrSchema/Pipelines/SolrProvider/PopulateSolrSchemaHelper.cs:93-104 | reading the command back gives the name, class and property list |
| FieldCommands.GetRemoveFields | src/SmartSolrSchema/Pipelines/SolrProvider/PopulateSolrSchemaHelper.cs:106-140 | exactly one delete per copy-field, dynamic field and field; the copy-field deletes (`source`, `dest`) come first, then the dynamic-field deletes, then the field deletes, each group in snapshot order |
| FieldCommands.RemovalsRoundTrip | src/SmartSolrSchema/Pipelines/SolrProvider/PopulateSolrSchemaHelper.cs:124-140 | what the removal list deletes is exactly the snapshot's copy-fields, dynamic fields and fields, in order |
| LanguageFields.CandidateNames | src/SmartSolrSchema/Pipelines/SolrProvider/PopulateSolrSchemaHelper.cs:271-278 | no name repeats, a name is a candidate exactly when it is `*_t_` followed by a non-empty configured code, and the names come in the order in which their codes are first configured |
| LanguageFields.DeclaredNames | src/SmartSolrSchema/Pipelines/SolrProvider/PopulateSolrSchemaHelper.cs:279-282 | a name is declared exactly when it is non-empty and some built static field has it as its `name` child |
| LanguageFields.NamesToAdd | src/SmartSolrSchema/Pipelines/SolrProvider/PopulateSolrSchemaHelper.cs:283-285 | a name is to be added exactly when it is a candidate and not declared; no name repeats, and the names keep the candidates' order, that of first configuration of their codes |
| LanguageFields.LanguageOfPlainCode | src/SmartSolrSchema/Pipelines/SolrProvider/PopulateSolrSchemaHelper.cs:289 | removing `*_t_` from `*_t_<code>` gives back the code when the code holds no `*` |
| LanguageFields.CreateDynamicFieldWithFallbackFieldType | src/SmartSolrSchema/Pipelines/SolrProvider/PopulateSolrSchemaHelper.cs:303-309 | no field exactly when both the requested type and the fallback are missing; otherwise an `add-dynamic-field` |
| LanguageFields.FallbackFieldRoundTrip | src/SmartSolrSchema/Pipelines/SolrProvider/PopulateSolrSchemaHelper.cs:303-309 | the built field carries its name and reads back as an indexed, stored, single-valued dynamic field of the requested type when that exists, else of the fallback |
| LanguageFields.GetAddFieldsLangSpecific | src/SmartSolrSchema/Pipelines/SolrProvider/PopulateSolrSchemaHelper.cs:269-294 | one entry per name to add, and the surviving fields each carry a name and come in the order in which their codes are first configured; which names survive and with which type is stated by `DerivedPresent`, `DerivedFieldForCode` and `DerivedTypeForCode`, and uniqueness and freshness by `DerivedNamesUnique` and `DerivedNamesFresh` |
| LanguageFields.DerivedFieldsKeepOrder | src/SmartSolrSchema/Pipelines/SolrProvider/PopulateSolrSchemaHelper.cs:287-292 | the fields derived for a list of names keep the order of those names |
| LanguageFields.DerivedFieldAt | src/SmartSolrSchema/Pipelines/SolrProvider/PopulateSolrSchemaHelper.cs:287-293 | the derived list holds, at each position, the field derived for the name at that position |
| LanguageFields.DerivedFieldsShape | src/SmartSolrSchema/Pipelines/SolrProvider/PopulateSolrSchemaHelper.cs:287-293 | every surviving derived field is named after one of the names to add, and reads back with the type chosen for that name, which exists |
| LanguageFields.DerivedNamesDistinct | src/SmartSolrSchema/Pipelines/SolrProvider/PopulateSolrSchemaHelper.cs:283-293 | when the names to add have no repeats, no two derived fields share a name |
| LanguageFields.DerivedPresent | src/SmartSolrSchema/Pipelines/SolrProvider/PopulateSolrSchemaHelper.cs:287-293 | a name gets a derived field exactly when it is a name to add and the type chosen for it exists |
| LanguageFields.DerivedFieldForCode | src/SmartSolrSchema/Pipelines/SolrProvider/PopulateSolrSchemaHelper.cs:269-294 | for a configured code without `*`, `*_t_<code>` is derived exactly when no built static field declares it and the chosen type exists: `text_<code>` when that exists, else `text_general` |
| LanguageFields.DerivedTypeForCode | src/SmartSolrSchema/Pipelines/SolrProvider/PopulateSolrSchemaHelper.cs:287-293 | for a code without `*`, a derived field named `*_t_<code>` reads back with type `text_<code>` when that exists, else `text_general` |
| LanguageFields.DerivedNamesUnique | src/SmartSolrSchema/Pipelines/SolrProvider/PopulateSolrSchemaHelper.cs:283-293 | no two derived fields share a name |
| LanguageFields.DerivedNamesFresh | src/SmartSolrSchema/Pipelines/SolrProvider/PopulateSolrSchemaHelper.cs:279-285 | no derived field shares its name with a built static field |
| Planner.CreateReadAccessField | src/SmartSolrSchema/Pipelines/SolrProvider/PopulateSolrSchemaHelper.cs:296-301 | fails exactly when `lowercase` is missing; otherwise an `add-field` whose last child is `docValues` = "false" |
| Planner.ReadAccessRoundTrip | src/SmartSolrSchema/Pipelines/SolrProvider/PopulateSolrSchemaHelper.cs:298-299 | the `_readaccess` command reads back as the `lowercase`, indexed, unstored, multi-valued field |
| Planner.CreateEntry | src/SmartSolrSchema/Pipelines/SolrProvider/PopulateSolrSchemaHelper.cs:172-266 | a catalogue line fails exactly when it is `_readaccess` and `lowercase` is missing, and otherwise builds nothing exactly when its type is missing |
| Planner.EntryRoundTrip | src/SmartSolrSchema/Pipelines/SolrProvider/PopulateSolrSchemaHelper.cs:172-266 | a built catalogue line is a field add carrying the line's name and reading back as the line's definition |
| Planner.CreateEntries | src/SmartSolrSchema/Pipelines/SolrProvider/PopulateSolrSchemaHelper.cs:23 | the catalogue fails exactly when it holds `_readaccess` and `lowercase` is missing; otherwise at most one command per line |
| Planner.CreateEntriesMembers | src/SmartSolrSchema/Pipelines/SolrProvider/PopulateSolrSchemaHelper.cs:23 | the built commands are exactly the commands of the lines that build one |
| Planner.GetAddFields | src/SmartSolrSchema/Pipelines/SolrProvider/PopulateSolrSchemaHelper.cs:172-266 | the static catalogue fails exactly when `lowercase` is missing |
| Planner.FieldPlan | src/SmartSolrSchema/Pipelines/SolrProvider/PopulateSolrSchemaHelper.cs:21-28 | over any catalogue: fails exactly when the catalogue holds `_readaccess` and `lowercase` is missing; otherwise begins with the removal list, and after the removals and the built catalogue lines come the language fields, each named and in the order in which their codes are first configured |
| Planner.GetAllFields | src/SmartSolrSchema/Pipelines/SolrProvider/PopulateSolrSchemaHelper.cs:21-28 | fails exactly when `lowercase` is missing; otherwise begins with the whole removal list, and after the removals and the built static fields come the language fields, each named and in the order in which their codes are first configured |
| Planner.PlanAddsReferenceExistingTypes | src/SmartSolrSchema/Pipelines/SolrProvider/PopulateSolrSchemaHelper.cs:21-28 | every command after the removals is a field add that reads back as a field whose type the snapshot has, so no null and no dangling type reaches the plan |
| Planner.DeletesPrecedeAdds | src/SmartSolrSchema/Pipelines/SolrProvider/PopulateSolrSchemaHelper.cs:21-28 | every delete of the field plan comes before every add |
| Planner.StaticFieldKeptIffTypeExists | src/SmartSolrSchema/Pipelines/SolrProvider/PopulateSolrSchemaHelper.cs:44-47 | a catalogue line's field is built exactly when its type exists |
| Planner.DeclaredNamesOfEntries | src/SmartSolrSchema/Pipelines/SolrProvider/PopulateSolrSchemaHelper.cs:279-282 | a non-empty name is declared exactly when some catalogue line of that name has an existing type |
| Planner.LanguageFieldInPlan | src/SmartSolrSchema/Pipelines/SolrProvider/PopulateSolrSchemaHelper.cs:269-294 | for a configured code without `*`: in the language part of the plan, `*_t_<code>` appears exactly when no catalogue line of that name survived its type check and the chosen type exists |
| Planner.LanguageFieldTypeInPlan | src/SmartSolrSchema/Pipelines/SolrProvider/PopulateSolrSchemaHelper.cs:287-294 | for a code without `*`, a `*_t_<code>` field in the language part of the plan has type `text_<code>` when that exists, else `text_general` |
| Planner.GetReplaceTextGeneralFieldType | src/SmartSolrSchema/Pipelines/SolrProvider/PopulateSolrSchemaHelper.cs:316-341 | nothing exactly when `text_general` is missing; otherwise a `replace-field-type` named `text_general` that keeps the class of the first type of that name and then installs the fixed analyzer chain |
| Planner.GetAddFieldTypes | src/SmartSolrSchema/Pipelines/SolrProvider/PopulateSolrSchemaHelper.cs:142-170 | two commands, reading back as `random` (`solr.RandomSortField`, indexed) and `ignored` (`solr.StrField`, not indexed, not stored, no doc values, multi-valued), each a replace exactly when its type exists |
| Planner.GetAllFieldTypes | src/SmartSolrSchema/Pipelines/SolrProvider/PopulateSolrSchemaHelper.cs:30-35 | three commands when `text_general` exists and two otherwise: the `text_general` replacement first when present, then `random`, then `ignored` |
| Planner.EmptySchemaExample | src/SmartSolrSchema/Pipelines/SolrProvider/PopulateSolrSchemaHelper.cs:296-301 | against an empty schema the field plan fails, and the type plan is two adds |
| Planner.ExampleLineDropped | src/SmartSolrSchema/Pipelines/SolrProvider/PopulateSolrSchemaHelper.cs:44-47 | without `text_en`, a static `*_t_en` line builds nothing |
| Planner.FallbackExample | src/SmartSolrSchema/Pipelines/SolrProvider/PopulateSolrSchemaHelper.cs:303-308 | with `lowercase` and `text_general` but no `text_en`, that dropped `*_t_en` field comes back with type `text_general` |

## Left out

- `src/SmartSolrSchema/ComputedFields/GenericDateField.cs` is not part of this model. It only wraps Sitecore item access and `DateTime` conversion.
- The language lookup in the Sitecore `master` database (lines 271-274) becomes the `isoCodes` parameter. The filter that drops empty codes is kept.
- `Log.Info` (line 291) is a side effect only.
- `Assert.ArgumentNotNull` calls are not modelled. Every argument in the model is a value and cannot be null.
- The `DefaultPopulateHelperFactory` and `PopulateFields` wiring (lines 344-358) is dependency-injection glue.
- XML serialisation is not modelled. Commands are `Element` values. The texts of boolean children are "true"/"false", as XML conversion writes them.
- Applying commands to Solr is not modelled, and neither is convergence or idempotence across runs. This class does not define those semantics.
- No order between the type plan and the field plan is modelled. The host pipeline decides it.
- `Union` compares elements by reference, and every element is freshly built. It is therefore modelled as concatenation followed by dropping nulls.
- `GetReplaceFields` (lines 311-314) yields a single element, so it is folded into `Planner.GetAllFieldTypes`.
- `GetRemoveField` and `GetRemoveCopyField` are `FieldCommands.RemoveField` and `FieldCommands.RemoveCopyField`. Their content is stated through `FieldCommands.GetRemoveFields`.
- Catalogue.StaticCatalogue: the table is a line-by-line transcription of lines 174-266. No lemma quantifies over all 93 literal lines, because such a proof is too costly for the verifier. The plan lemmas are stated for any catalogue, and `Planner.GetAllFields` applies them to this table.
- Planner.CreateEntries: order is not stated as a contract. The built commands keep catalogue order by construction, but only membership and the failure case are proved.
- LanguageFields.DerivedFieldForCode: stated for codes without `*`. For a code that contains `*_t_`, `Replace` at line 289 removes more than the prefix, so the requested type is not `text_<code>`; such codes are still covered by `LanguageFields.DerivedPresent`, which uses the requested type as `Replace` computes it.
- LanguageFields.DerivedTypeForCode: stated for codes without `*`, for the same reason.
- Planner.LanguageFieldInPlan: stated for codes without `*`, for the same reason.
- Planner.LanguageFieldTypeInPlan: stated for codes without `*`, for the same reason.
- Planner.GetAllFieldTypes: the `text_general` replacement is described by its tag and name. Its class and analyzer chain are stated on `Planner.GetReplaceTextGeneralFieldType`.
