/** `prepareDocument` of src/drive-cms.ts: a fixed sequence of optional stages
    over one document tree, then the assembly of the `meta` dictionary.

    Only the metadata-table stage is modelled in full. Parsing, the cleaning
    stages, the snippet and title extractors and serialisation live in code
    that is not part of this model; they are parameters (`Stages`). Every
    fact proved here holds whatever they do, except `ContentOmitsMetaTable`,
    which assumes the two extractors leave the tree as they find it. */
module DriveCms {
  import opened Dom
  import TableMetadata

  /** The options `prepareDocument` destructures, with its defaults: an
      option left out is `false`, `snippetLength` is 200, and
      `DocumentOptions()` is the `{}` used when no options are passed. */
  datatype DocumentOptions = DocumentOptions(
    keepStyles: bool := false,
    keepEmptyText: bool := false,
    keepGoogleLinks: bool := false,
    keepReferrer: bool := false,
    ignoreMeta: bool := false,
    ignoreSnippet: bool := false,
    snippetLength: int := 200,
    ignoreTitle: bool := false)

  /** The stages `prepareDocument` calls but that are not modelled. The
      snippet and title extractors receive the tree and may change it, so they
      return the tree they leave. */
  datatype Stages = Stages(
    parse: string -> Node,
    removeDocumentStyles: Node -> Node,
    removeEmptySpans: Node -> Node,
    replaceGoogleHrefs: Node -> Node,
    removeImageReferrer: Node -> Node,
    extractSnippet: (Node, int) -> (string, Node),
    extractTitle: Node -> (string, Node),
    extractDocumentHtml: Node -> string)

  datatype Prepared = Prepared(content: string, meta: map<string, string>)

  /** Two dictionaries with the same keys and values, except perhaps at `key`. */
  ghost predicate AgreeExcept(m1: map<string, string>, m2: map<string, string>, key: string)
  {
    forall k :: k != key ==> (k in m1 <==> k in m2) && (k in m1 ==> m1[k] == m2[k])
  }

  /** `key` is in `m` exactly when it is in `source`, with the same value. */
  predicate SameAt(m: map<string, string>, source: map<string, string>, key: string)
  {
    (key in m <==> key in source) && (key in m ==> m[key] == source[key])
  }

  /** A cleaning stage that does nothing. */
  function Identity(dom: Node): Node
  {
    dom
  }

  /** A snippet extractor that leaves the tree as it is and yields "". */
  function NoSnippet(dom: Node, snippetLength: int): (string, Node)
  {
    ("", dom)
  }

  /** A title extractor that leaves the tree as it is and yields "". */
  function NoTitle(dom: Node): (string, Node)
  {
    ("", dom)
  }

  /** The tree after parsing and the four cleaning stages, in their order,
      each skipped by its own flag: with all four `keep*` flags set, it is the
      parsed tree itself. */
  function Cleaned(html: string, options: DocumentOptions, stages: Stages): (r: Node)
    ensures options.keepStyles && options.keepEmptyText && options.keepGoogleLinks && options.keepReferrer ==>
      r == stages.parse(html)
  {
    var dom := stages.parse(html);
    var dom := if options.keepStyles then dom else stages.removeDocumentStyles(dom);
    var dom := if options.keepEmptyText then dom else stages.removeEmptySpans(dom);
    var dom := if options.keepGoogleLinks then dom else stages.replaceGoogleHrefs(dom);
    if options.keepReferrer then dom else stages.removeImageReferrer(dom)
  }

  /** The metadata-table stage: `meta` starts empty and becomes the table's
      dictionary unless `ignoreMeta`. */
  function TableStage(options: DocumentOptions, dom: Node): (r: (map<string, string>, Node))
    ensures options.ignoreMeta || TableMetadata.MetaTable(dom).None? ==> r == (map[], dom)
    ensures !options.ignoreMeta && TableMetadata.MetaTable(dom).Some? ==>
      var p := TableMetadata.MetaTable(dom).value;
      r == (TableMetadata.TableMetadataOf(NodeAt(dom, p)), RemoveAt(dom, p))
  {
    if options.ignoreMeta then (map[], dom) else TableMetadata.ExtractedTableMetadata(dom)
  }

  /** `meta.snippet = extractSnippet(dom, snippetLength)` unless
      `ignoreSnippet`: it adds or overwrites `snippet` and no other key, and
      when skipped it leaves the tree alone. */
  function SnippetStage(options: DocumentOptions, stages: Stages, meta: map<string, string>, dom: Node)
    : (r: (map<string, string>, Node))
    ensures forall k :: k in r.0 <==> k in meta || (k == "snippet" && !options.ignoreSnippet)
    ensures forall k :: k in meta && (k != "snippet" || options.ignoreSnippet) ==> r.0[k] == meta[k]
    ensures !options.ignoreSnippet ==> r.0["snippet"] == stages.extractSnippet(dom, options.snippetLength).0
    ensures options.ignoreSnippet ==> r.1 == dom
  {
    if options.ignoreSnippet then (meta, dom)
    else
      var (snippet, dom') := stages.extractSnippet(dom, options.snippetLength);
      (meta["snippet" := snippet], dom')
  }

  /** `meta.title = extractTitle(dom)` unless `ignoreTitle`: it adds or
      overwrites `title` and no other key, and when skipped it leaves the tree
      alone. */
  function TitleStage(options: DocumentOptions, stages: Stages, meta: map<string, string>, dom: Node)
    : (r: (map<string, string>, Node))
    ensures forall k :: k in r.0 <==> k in meta || (k == "title" && !options.ignoreTitle)
    ensures forall k :: k in meta && (k != "title" || options.ignoreTitle) ==> r.0[k] == meta[k]
    ensures !options.ignoreTitle ==> r.0["title"] == stages.extractTitle(dom).0
    ensures options.ignoreTitle ==> r.1 == dom
  {
    if options.ignoreTitle then (meta, dom)
    else
      var (title, dom') := stages.extractTitle(dom);
      (meta["title" := title], dom')
  }

  /** What `prepareDocument` returns: `meta` holds `snippet` and `title`
      unless their stages are skipped, and with the table, snippet and title
      stages all skipped it is `{}`. */
  function Prepare(html: string, options: DocumentOptions, stages: Stages): (r: Prepared)
    ensures !options.ignoreSnippet ==> "snippet" in r.meta
    ensures !options.ignoreTitle ==> "title" in r.meta
    ensures options.ignoreMeta && options.ignoreSnippet && options.ignoreTitle ==> r.meta == map[]
  {
    var (tableMeta, detached) := TableStage(options, Cleaned(html, options, stages));
    var (meta1, dom1) := SnippetStage(options, stages, tableMeta, detached);
    var (meta2, dom2) := TitleStage(options, stages, meta1, dom1);
    Prepared(stages.extractDocumentHtml(dom2), meta2)
  }

  /** `prepareDocument`: threads one tree through the enabled stages in their
      fixed order, then serialises what is left. */
  method PrepareDocument(stages: Stages, html: string, options: DocumentOptions := DocumentOptions())
    returns (content: string, meta: map<string, string>)
    ensures Prepared(content, meta) == Prepare(html, options, stages)
  {
    meta := map[];
    var dom := stages.parse(html);
    if !options.keepStyles { dom := stages.removeDocumentStyles(dom); }
    if !options.keepEmptyText { dom := stages.removeEmptySpans(dom); }
    if !options.keepGoogleLinks { dom := stages.replaceGoogleHrefs(dom); }
    if !options.keepReferrer { dom := stages.removeImageReferrer(dom); }
    if !options.ignoreMeta { meta, dom := TableMetadata.ExtractTableMetadata(dom); }
    if !options.ignoreSnippet {
      var (snippet, dom') := stages.extractSnippet(dom, options.snippetLength);
      meta, dom := meta["snippet" := snippet], dom';
    }
    if !options.ignoreTitle {
      var (title, dom') := stages.extractTitle(dom);
      meta, dom := meta["title" := title], dom';
    }
    content := stages.extractDocumentHtml(dom);
  }

  /** With no options every stage runs, in the order styles, empty spans,
      link hrefs, image referrer, metadata table, snippet (200 characters),
      title, and then the tree is serialised. */
  lemma DefaultsRunEveryStage(html: string, stages: Stages)
    ensures DocumentOptions() == DocumentOptions(false, false, false, false, false, false, 200, false)
    ensures
      var cleaned := stages.removeImageReferrer(stages.replaceGoogleHrefs(stages.removeEmptySpans(
        stages.removeDocumentStyles(stages.parse(html)))));
      var (tableMeta, detached) := TableMetadata.ExtractedTableMetadata(cleaned);
      var (snippet, dom1) := stages.extractSnippet(detached, 200);
      var (title, dom2) := stages.extractTitle(dom1);
      Prepare(html, DocumentOptions(), stages) ==
        Prepared(stages.extractDocumentHtml(dom2), tableMeta["snippet" := snippet]["title" := title])
  {
  }

  /** `keepStyles` skips exactly the style stage: setting it is the same as
      running that stage as a no-op, with everything else as it was. */
  lemma KeepStylesSkipsStyleStage(html: string, options: DocumentOptions, stages: Stages)
    ensures Prepare(html, options.(keepStyles := true), stages)
         == Prepare(html, options.(keepStyles := false), stages.(removeDocumentStyles := Identity))
  {
    var stages' := stages.(removeDocumentStyles := Identity);
    assert Cleaned(html, options.(keepStyles := true), stages)
        == Cleaned(html, options.(keepStyles := false), stages');
  }

  /** `keepEmptyText` skips exactly the empty-span stage. */
  lemma KeepEmptyTextSkipsSpanStage(html: string, options: DocumentOptions, stages: Stages)
    ensures Prepare(html, options.(keepEmptyText := true), stages)
         == Prepare(html, options.(keepEmptyText := false), stages.(removeEmptySpans := Identity))
  {
    var stages' := stages.(removeEmptySpans := Identity);
    assert Cleaned(html, options.(keepEmptyText := true), stages)
        == Cleaned(html, options.(keepEmptyText := false), stages');
  }

  /** `keepGoogleLinks` skips exactly the link-rewriting stage. */
  lemma KeepGoogleLinksSkipsHrefStage(html: string, options: DocumentOptions, stages: Stages)
    ensures Prepare(html, options.(keepGoogleLinks := true), stages)
         == Prepare(html, options.(keepGoogleLinks := false), stages.(replaceGoogleHrefs := Identity))
  {
    var stages' := stages.(replaceGoogleHrefs := Identity);
    assert Cleaned(html, options.(keepGoogleLinks := true), stages)
        == Cleaned(html, options.(keepGoogleLinks := false), stages');
  }

  /** `keepReferrer` skips exactly the image-referrer stage. */
  lemma KeepReferrerSkipsReferrerStage(html: string, options: DocumentOptions, stages: Stages)
    ensures Prepare(html, options.(keepReferrer := true), stages)
         == Prepare(html, options.(keepReferrer := false), stages.(removeImageReferrer := Identity))
  {
    var stages' := stages.(removeImageReferrer := Identity);
    assert Cleaned(html, options.(keepReferrer := true), stages)
        == Cleaned(html, options.(keepReferrer := false), stages');
  }

  /** The keys of `meta` are the table's keys plus `snippet` and `title` for
      the extractors that ran. Those two are written after the table, so they
      overwrite a table row with the same key; every other value is the
      table's. */
  lemma MetaAssembly(html: string, options: DocumentOptions, stages: Stages)
    ensures
      var (tableMeta, detached) := TableStage(options, Cleaned(html, options, stages));
      var meta := Prepare(html, options, stages).meta;
      forall k :: k in meta <==>
        k in tableMeta || (k == "snippet" && !options.ignoreSnippet) || (k == "title" && !options.ignoreTitle)
    ensures
      var (tableMeta, detached) := TableStage(options, Cleaned(html, options, stages));
      var meta := Prepare(html, options, stages).meta;
      forall k :: k in tableMeta && (k != "snippet" || options.ignoreSnippet) && (k != "title" || options.ignoreTitle) ==>
        k in meta && meta[k] == tableMeta[k]
    ensures
      var (tableMeta, detached) := TableStage(options, Cleaned(html, options, stages));
      var (snippet, dom1) := stages.extractSnippet(detached, options.snippetLength);
      var meta := Prepare(html, options, stages).meta;
      !options.ignoreSnippet ==> "snippet" in meta && meta["snippet"] == snippet
    ensures
      var (tableMeta, detached) := TableStage(options, Cleaned(html, options, stages));
      var dom1 := SnippetStage(options, stages, tableMeta, detached).1;
      var meta := Prepare(html, options, stages).meta;
      !options.ignoreTitle ==> "title" in meta && meta["title"] == stages.extractTitle(dom1).0
  {
    var (tableMeta, detached) := TableStage(options, Cleaned(html, options, stages));
    var (meta1, dom1) := SnippetStage(options, stages, tableMeta, detached);
    assert Prepare(html, options, stages).meta == TitleStage(options, stages, meta1, dom1).0;
  }

  /** With `ignoreMeta` no table is read or detached: the snippet stage sees
      the cleaned tree itself and `meta` holds at most `snippet` and `title`. */
  lemma IgnoreMetaDetachesNothing(html: string, options: DocumentOptions, stages: Stages)
    requires options.ignoreMeta
    ensures TableStage(options, Cleaned(html, options, stages)) == (map[], Cleaned(html, options, stages))
    ensures Prepare(html, options, stages).meta.Keys ==
      (if options.ignoreSnippet then {} else {"snippet"}) + (if options.ignoreTitle then {} else {"title"})
  {
    MetaAssembly(html, options, stages);
    var meta := Prepare(html, options, stages).meta;
    var keys := (if options.ignoreSnippet then {} else {"snippet"}) + (if options.ignoreTitle then {} else {"title"});
    assert forall k :: k in meta <==> k in keys;
  }

  /** `ignoreSnippet` skips exactly the snippet stage: the content is the
      same as with an extractor that leaves the tree alone, and so is `meta`
      except for `snippet`, which then holds whatever the table gave it. */
  lemma IgnoreSnippetSkipsSnippetStage(html: string, options: DocumentOptions, stages: Stages)
    ensures
      var skipped := Prepare(html, options.(ignoreSnippet := true), stages);
      var noop := Prepare(html, options.(ignoreSnippet := false), stages.(extractSnippet := NoSnippet));
      var tableMeta := TableStage(options, Cleaned(html, options, stages)).0;
      skipped.content == noop.content &&
      AgreeExcept(skipped.meta, noop.meta, "snippet") &&
      SameAt(skipped.meta, tableMeta, "snippet")
  {
    var on, off := options.(ignoreSnippet := false), options.(ignoreSnippet := true);
    var stages' := stages.(extractSnippet := NoSnippet);
    assert Cleaned(html, off, stages) == Cleaned(html, on, stages') == Cleaned(html, options, stages);
    var (tableMeta, detached) := TableStage(options, Cleaned(html, options, stages));
    assert TableStage(off, Cleaned(html, off, stages)) == TableStage(on, Cleaned(html, on, stages')) == (tableMeta, detached);
    var (m1, d1) := SnippetStage(off, stages, tableMeta, detached);
    var (n1, e1) := SnippetStage(on, stages', tableMeta, detached);
    assert d1 == e1 == detached;
    var (m2, d2) := TitleStage(off, stages, m1, d1);
    var (n2, e2) := TitleStage(on, stages', n1, e1);
    assert Prepare(html, off, stages) == Prepared(stages.extractDocumentHtml(d2), m2);
    assert Prepare(html, on, stages') == Prepared(stages.extractDocumentHtml(e2), n2);
  }

  /** `ignoreTitle` skips exactly the title stage: the content is the same as
      with an extractor that leaves the tree alone, and so is `meta` except
      for `title`, which then holds whatever the table gave it. */
  lemma IgnoreTitleSkipsTitleStage(html: string, options: DocumentOptions, stages: Stages)
    ensures
      var skipped := Prepare(html, options.(ignoreTitle := true), stages);
      var noop := Prepare(html, options.(ignoreTitle := false), stages.(extractTitle := NoTitle));
      var tableMeta := TableStage(options, Cleaned(html, options, stages)).0;
      skipped.content == noop.content &&
      AgreeExcept(skipped.meta, noop.meta, "title") &&
      SameAt(skipped.meta, tableMeta, "title")
  {
    var on, off := options.(ignoreTitle := false), options.(ignoreTitle := true);
    var stages' := stages.(extractTitle := NoTitle);
    assert Cleaned(html, off, stages) == Cleaned(html, on, stages') == Cleaned(html, options, stages);
    var (tableMeta, detached) := TableStage(options, Cleaned(html, options, stages));
    assert TableStage(off, Cleaned(html, off, stages)) == TableStage(on, Cleaned(html, on, stages')) == (tableMeta, detached);
    var (m1, d1) := SnippetStage(off, stages, tableMeta, detached);
    var (n1, e1) := SnippetStage(on, stages', tableMeta, detached);
    assert m1 == n1 && d1 == e1;
    var (m2, d2) := TitleStage(off, stages, m1, d1);
    var (n2, e2) := TitleStage(on, stages', n1, e1);
    assert d2 == e2 == d1;
    assert Prepare(html, off, stages) == Prepared(stages.extractDocumentHtml(d2), m2);
    assert Prepare(html, on, stages') == Prepared(stages.extractDocumentHtml(e2), n2);
  }

  /** `content` is serialised after every enabled stage that changes the
      tree. The tree handed to the snippet stage, and so to every later stage,
      is the cleaned tree, minus the metadata table when one is extracted;
      `content` is the serialisation of what the enabled snippet and title
      extractors make of that tree. */
  lemma ContentAfterStages(html: string, options: DocumentOptions, stages: Stages)
    ensures
      var cleaned := Cleaned(html, options, stages);
      var detached := TableStage(options, cleaned).1;
      if options.ignoreMeta || TableMetadata.MetaTable(cleaned).None? then detached == cleaned
      else detached == RemoveAt(cleaned, TableMetadata.MetaTable(cleaned).value)
    ensures
      var detached := TableStage(options, Cleaned(html, options, stages)).1;
      var afterSnippet := if options.ignoreSnippet then detached
        else stages.extractSnippet(detached, options.snippetLength).1;
      var afterTitle := if options.ignoreTitle then afterSnippet else stages.extractTitle(afterSnippet).1;
      Prepare(html, options, stages).content == stages.extractDocumentHtml(afterTitle)
  {
  }

  /** When the snippet and title extractors leave the tree as they find it,
      what is serialised is the cleaned tree, minus the metadata table when
      one was extracted. */
  lemma ContentOmitsMetaTable(html: string, options: DocumentOptions, stages: Stages)
    requires forall dom, n :: stages.extractSnippet(dom, n).1 == dom
    requires forall dom :: stages.extractTitle(dom).1 == dom
    ensures
      var cleaned := Cleaned(html, options, stages);
      var content := Prepare(html, options, stages).content;
      if options.ignoreMeta || TableMetadata.MetaTable(cleaned).None? then content == stages.extractDocumentHtml(cleaned)
      else
        var p := TableMetadata.MetaTable(cleaned).value;
        p != [] && ValidPath(cleaned, p) && content == stages.extractDocumentHtml(RemoveAt(cleaned, p))
  {
    ContentAfterStages(html, options, stages);
  }
}
