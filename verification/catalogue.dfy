/** The fixed tables of `PopulateSolrSchemaHelper`: the static field
    catalogue, the two field types it always adds or replaces, and the
    analyzer chain it writes into `text_general`. */
module Catalogue {
  import opened Elements
  import opened FieldCommands

  /** One line of the static field catalogue: a plain `CreateField` call, or
      the `_readaccess` field built by `CreateReadAccessField`. */
  datatype Entry = Field(spec: FieldSpec) | ReadAccessField

  /** A non-dynamic field that is indexed, optional, without norms omission,
      term vectors or default value. */
  function Fixed(name: string, fieldType: string, stored: bool, multiValued: bool): Entry {
    Field(FieldSpec(name, fieldType, required := false, indexed := true, stored := stored,
                    multiValued := multiValued, omitNorms := false, termVectors := false,
                    termPositions := false, termOffsets := false, defaultValue := "",
                    isDynamic := false))
  }

  /** A dynamic field: indexed, stored, optional, no default. */
  function Dynamic(name: string, fieldType: string, multiValued: bool): Entry {
    Field(FieldSpec(name, fieldType, required := false, indexed := true, stored := true,
                    multiValued := multiValued, omitNorms := false, termVectors := false,
                    termPositions := false, termOffsets := false, defaultValue := "",
                    isDynamic := true))
  }

  /** The type that `_readaccess` needs; without it the build fails. */
  const LowercaseType := "lowercase"

  /** The definition `CreateReadAccessField` passes to `CreateField`. */
  const ReadAccessSpec := FieldSpec("_readaccess", LowercaseType, required := false, indexed := true,
                                    stored := false, multiValued := true, omitNorms := false,
                                    termVectors := false, termPositions := false,
                                    termOffsets := false, defaultValue := "", isDynamic := false)

  /** The definition an entry asks `CreateField` for. */
  function EntrySpec(e: Entry): FieldSpec {
    match e
    case Field(spec) => spec
    case ReadAccessField => ReadAccessSpec
  }

  /** The static field catalogue of `GetAddFields`, in its order: the plain
      lines around the `_readaccess` line. */
  const StaticCatalogue: seq<Entry> := CatalogueHead + [ReadAccessField] + CatalogueTail

  /** The lines before `_readaccess`. */
  const CatalogueHead: seq<Entry> := [
    Fixed("_content", "text_general", stored := false, multiValued := false),
    Fixed("_database", "lowercase", stored := true, multiValued := false),
    Fixed("_path", "string", stored := true, multiValued := true),
    Field(FieldSpec("_uniqueid", "string", required := true, indexed := true, stored := true,
                     multiValued := false, omitNorms := false, termVectors := false,
                     termPositions := false, termOffsets := false, defaultValue := "",
                     isDynamic := false)),
    Field(FieldSpec("_datasource", "lowercase", required := true, indexed := true, stored := true,
                     multiValued := false, omitNorms := false, termVectors := false,
                     termPositions := false, termOffsets := false, defaultValue := "",
                     isDynamic := false)),
    Fixed("_parent", "string", stored := true, multiValued := false),
    Fixed("_name", "text_general", stored := true, multiValued := false),
    Fixed("_displayname", "text_general", stored := true, multiValued := false),
    Fixed("_language", "string", stored := true, multiValued := false),
    Fixed("_creator", "lowercase", stored := true, multiValued := false),
    Fixed("_editor", "lowercase", stored := true, multiValued := false),
    Fixed("_created", "pdate", stored := true, multiValued := false),
    Fixed("_updated", "pdate", stored := true, multiValued := false),
    Fixed("_hidden", "boolean", stored := false, multiValued := false),
    Fixed("_template", "lowercase", stored := true, multiValued := false),
    Fixed("_templatename", "lowercase", stored := true, multiValued := false),
    Fixed("_templates", "string", stored := true, multiValued := true),
    Fixed("_icon", "lowercase", stored := true, multiValued := false),
    Fixed("_links", "lowercase", stored := true, multiValued := true),
    Fixed("_tags", "lowercase", stored := true, multiValued := true),
    Fixed("_group", "string", stored := true, multiValued := false),
    Fixed("_indexname", "lowercase", stored := true, multiValued := false),
    Fixed("_latestversion", "boolean", stored := true, multiValued := false),
    Field(FieldSpec("_indextimestamp", "pdate", required := false, indexed := true, stored := true,
                     multiValued := false, omitNorms := false, termVectors := false,
                     termPositions := false, termOffsets := false, defaultValue := "NOW",
                     isDynamic := false)),
    Fixed("_fullpath", "lowercase", stored := true, multiValued := false),
    Fixed("_isclone", "boolean", stored := true, multiValued := false),
    Fixed("_version", "string", stored := true, multiValued := false),
    Fixed("_hash", "string", stored := true, multiValued := false),
    Fixed("__semantics", "string", stored := true, multiValued := true),
    Field(FieldSpec("__boost", "pfloat", required := false, indexed := true, stored := true,
                     multiValued := false, omitNorms := true, termVectors := false,
                     termPositions := false, termOffsets := false, defaultValue := "0",
                     isDynamic := false))
  ]

  /** The lines after `_readaccess`. */
  const CatalogueTail: seq<Entry> := [
    Fixed("lock", "boolean", stored := false, multiValued := false),
    Fixed("__bucketable", "boolean", stored := false, multiValued := false),
    Fixed("__workflow_state", "string", stored := false, multiValued := false),
    Fixed("__is_bucket", "boolean", stored := false, multiValued := false),
    Fixed("is_displayed_in_search_results", "boolean", stored := false, multiValued := false),
    Fixed("text", "text_general", stored := false, multiValued := true),
    Fixed("text_rev", "text_general_rev", stored := false, multiValued := true),
    Fixed("alphaNameSort", "alphaOnlySort", stored := false, multiValued := false),
    Fixed("__hidden", "boolean", stored := false, multiValued := false),
    Fixed("_version_", "plong", stored := true, multiValued := false),
    Dynamic("*_t", "text_general", multiValued := false),
    Dynamic("*_t_en", "text_en", multiValued := false),
    Dynamic("*_t_ar", "text_ar", multiValued := false),
    Dynamic("*_t_bg", "text_bg", multiValued := false),
    Dynamic("*_t_ca", "text_ca", multiValued := false),
    Dynamic("*_t_cs", "text_cz", multiValued := false),
    Dynamic("*_t_da", "text_da", multiValued := false),
    Dynamic("*_t_de", "text_de", multiValued := false),
    Dynamic("*_t_el", "text_el", multiValued := false),
    Dynamic("*_t_es", "text_es", multiValued := false),
    Dynamic("*_t_eu", "text_eu", multiValued := false),
    Dynamic("*_t_fa", "text_fa", multiValued := false),
    Dynamic("*_t_fi", "text_fi", multiValued := false),
    Dynamic("*_t_fr", "text_fr", multiValued := false),
    Dynamic("*_t_ga", "text_ga", multiValued := false),
    Dynamic("*_t_gl", "text_gl", multiValued := false),
    Dynamic("*_t_hi", "text_hi", multiValued := false),
    Dynamic("*_t_hu", "text_hu", multiValued := false),
    Dynamic("*_t_hy", "text_hy", multiValued := false),
    Dynamic("*_t_id", "text_id", multiValued := false),
    Dynamic("*_t_it", "text_it", multiValued := false),
    Dynamic("*_t_ja", "text_ja", multiValued := false),
    Dynamic("*_t_lv", "text_lv", multiValued := false),
    Dynamic("*_t_nl", "text_nl", multiValued := false),
    Dynamic("*_t_nb", "text_no", multiValued := false),
    Dynamic("*_t_pt", "text_pt", multiValued := false),
    Dynamic("*_t_ro", "text_ro", multiValued := false),
    Dynamic("*_t_ru", "text_ru", multiValued := false),
    Dynamic("*_t_sv", "text_sv", multiValued := false),
    Dynamic("*_t_th", "text_th", multiValued := false),
    Dynamic("*_t_tr", "text_tr", multiValued := false),
    Dynamic("*_i", "pint", multiValued := false),
    Dynamic("*_s", "string", multiValued := false),
    Dynamic("*_sm", "string", multiValued := true),
    Dynamic("*_ls", "lowercase", multiValued := false),
    Dynamic("*_lsm", "lowercase", multiValued := true),
    Dynamic("*_im", "pint", multiValued := true),
    Dynamic("*_txm", "text_general", multiValued := true),
    Dynamic("*_b", "boolean", multiValued := false),
    Dynamic("*_dt", "pdate", multiValued := false),
    Dynamic("*_p", "location", multiValued := false),
    Dynamic("*_ti", "pint", multiValued := false),
    Dynamic("*_tl", "plong", multiValued := false),
    Dynamic("*_tf", "pfloat", multiValued := false),
    Dynamic("*_td", "pdouble", multiValued := false),
    Dynamic("*_tdt", "pdate", multiValued := false),
    Dynamic("*_tdtm", "pdate", multiValued := true),
    Dynamic("*_pi", "pint", multiValued := false),
    Dynamic("*_c", "currency", multiValued := false),
    Dynamic("*_ignored", "ignored", multiValued := false),
    Dynamic("*_random", "random", multiValued := false),
    Dynamic("*_rpt", "location_rpt", multiValued := false)
  ]

  /** The field types `GetAddFieldTypes` adds or replaces, in its order. */
  const RandomType := FieldTypeSpec("random", "solr.RandomSortField", [("indexed", "true")])
  const IgnoredType := FieldTypeSpec("ignored", "solr.StrField",
                                     [("indexed", "false"), ("stored", "false"),
                                      ("docValues", "false"), ("multiValued", "true")])

  /** The general text type whose analyzer chain is replaced when it exists,
      and the type every derived language field falls back to. */
  const TextGeneral := "text_general"

  function ClassChild(className: string): Element {
    Leaf("class", className)
  }

  /** The children of the `text_general` replacement after `name` and
      `class`: gap, single-valuedness, and the index and query analyzers. */
  const TextGeneralAnalysis: seq<Element> := [
    Leaf("positionIncrementGap", "100"),
    Leaf("multiValued", "false"),
    Element("indexAnalyzer", "", [
      Element("tokenizer", "", [ClassChild("solr.StandardTokenizerFactory")]),
      Element("filters", "", [ClassChild("solr.StopFilterFactory"), Leaf("ignoreCase", "true"),
                              Leaf("words", "stopwords.txt")]),
      Element("filters", "", [ClassChild("solr.LowerCaseFilterFactory")])
    ]),
    Element("queryAnalyzer", "", [
      Element("tokenizer", "", [ClassChild("solr.StandardTokenizerFactory")]),
      Element("filters", "", [ClassChild("solr.StopFilterFactory"), Leaf("ignoreCase", "true"),
                              Leaf("words", "stopwords.txt")]),
      Element("filters", "", [ClassChild("solr.SynonymFilterFactory"), Leaf("synonyms", "synonyms.txt"),
                              Leaf("ignoreCase", "true"), Leaf("expand", "true")]),
      Element("filters", "", [ClassChild("solr.LowerCaseFilterFactory")])
    ])
  ]
}
