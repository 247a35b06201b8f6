/**
 * The docs site's client page: the sections of the sidebar, the lookup of the
 * active section's markdown among the loaded files, and the themed class
 * strings its `renderMarkdown` puts on lists, headers and paragraphs.
 *
 * The files are loaded by the server page from the docs directory under six
 * fixed names, a failed read leaving an error text in place of the content;
 * the read is a parameter.
 */
module DocsClient {
  import opened Wrappers
  import opened JsText
  import MarkdownHeaders
  import opened MarkdownRender

  datatype Theme = Light | Dark

  /** The list opener, with its theme colour. */
  function ListOpen(theme: Theme): string {
    OpenTag("ul", "list-disc list-inside mb-4 space-y-1 " + (if theme == Dark then "text-gray-300" else "text-gray-700"))
  }

  function HeaderColor(theme: Theme): string {
    if theme == Dark then "text-gray-100" else "text-gray-900"
  }

  /** The opening header tags, with their theme colour. */
  function HeaderTags(theme: Theme): MarkdownHeaders.HeaderTags {
    var c := HeaderColor(theme);
    MarkdownHeaders.Tags(
      OpenTag("h1", "text-2xl font-bold mb-6 " + c),
      OpenTag("h2", "text-xl font-bold mt-8 mb-4 " + c),
      OpenTag("h3", "text-base font-semibold mt-6 mb-3 " + c),
      OpenTag("h4", "text-sm font-semibold mt-4 mb-2 " + c))
  }

  /** The paragraph opener, with its theme colour. */
  function ParagraphOpen(theme: Theme): string {
    OpenTag("p", "mb-4 " + (if theme == Dark then "text-gray-300" else "text-gray-700"))
  }

  function ClientStyle(theme: Theme): Style {
    Style(ListOpen(theme), HeaderTags(theme), ParagraphOpen(theme))
  }

  /** In both themes the inserted tags are markup: no header tag starts with
      `#` (so a rewritten line is never rewritten again) and the paragraph tag
      starts with `<` (so a wrapped chunk is never wrapped again). */
  lemma ClientStyleIsMarkup(theme: Theme)
    ensures MarkdownHeaders.TagsStartOutsideHeaders(ClientStyle(theme).headers)
    ensures StartsWith(ClientStyle(theme).pOpen, "<p")
    ensures StartsWith(ClientStyle(theme).listOpen, "<ul")
  {
    var c := HeaderColor(theme);
    OpenTagStart("h1", "text-2xl font-bold mb-6 " + c);
    OpenTagStart("h2", "text-xl font-bold mt-8 mb-4 " + c);
    OpenTagStart("h3", "text-base font-semibold mt-6 mb-3 " + c);
    OpenTagStart("h4", "text-sm font-semibold mt-4 mb-2 " + c);
    OpenTagStart("ul", "list-disc list-inside mb-4 space-y-1 " + (if theme == Dark then "text-gray-300" else "text-gray-700"));
    OpenTagStart("p", "mb-4 " + (if theme == Dark then "text-gray-300" else "text-gray-700"));
  }

  /** A sidebar entry and the markdown file it shows. */
  datatype Section = Section(id: string, title: string, file: string)

  /** The sidebar as written: the overview names `index.md`. */
  const Sections: seq<Section> := [
    Section("overview", "Overview", "index.md"),
    Section("getting-started", "Getting Started", "getting-started.md"),
    Section("api-reference", "API Reference", "api-reference.md"),
    Section("configuration", "Configuration", "configuration.md"),
    Section("examples", "Examples", "examples.md"),
    Section("advanced", "Advanced", "advanced.md")
  ]

  /** The sidebar with the overview reading the file the server page loads. */
  const CorrectedSections: seq<Section> := [
    Section("overview", "Overview", "README.md"),
    Section("getting-started", "Getting Started", "getting-started.md"),
    Section("api-reference", "API Reference", "api-reference.md"),
    Section("configuration", "Configuration", "configuration.md"),
    Section("examples", "Examples", "examples.md"),
    Section("advanced", "Advanced", "advanced.md")
  ]

  /** The section the page starts on. */
  const InitialSection := "overview"

  /** `sections.find(s => s.id === id)`: the first section with that id. */
  function FindSection(sections: seq<Section>, id: string): (r: Option<Section>)
    ensures r.None? <==> forall k | 0 <= k < |sections| :: sections[k].id != id
    ensures r.Some? ==> exists k | 0 <= k < |sections| ::
      sections[k] == r.value && sections[k].id == id && forall j | 0 <= j < k :: sections[j].id != id
  {
    if sections == [] then None
    else if sections[0].id == id then Some(sections[0])
    else
      var r := FindSection(sections[1..], id);
      if r.Some? then
        var k :| 0 <= k < |sections[1..]| && sections[1..][k] == r.value && sections[1..][k].id == id
                 && forall j | 0 <= j < k :: sections[1..][j].id != id;
        assert sections[k + 1] == r.value;
        assert forall j | 0 <= j < k + 1 :: sections[j].id != id by {
          forall j | 0 <= j < k + 1 ensures sections[j].id != id {
            if j > 0 { assert sections[j] == sections[1..][j - 1]; }
          }
        }
        r
      else
        assert forall k | 0 <= k < |sections| :: sections[k].id != id by {
          forall k | 0 <= k < |sections| ensures sections[k].id != id {
            if k > 0 { assert sections[k] == sections[1..][k - 1]; }
          }
        }
        r
  }

  /** `find(...)?.file || 'README.md'` */
  function SectionFile(sections: seq<Section>, active: string): string {
    match FindSection(sections, active)
      case Some(s) => if s.file != "" then s.file else "README.md"
      case None => "README.md"
  }

  /** `docs[file] || ''`: the loaded content, or the empty string for a name
      that was not loaded. */
  function Lookup(docs: map<string, string>, file: string): string {
    if file in docs then docs[file] else ""
  }

  /** The names the server page loads. */
  const LoadedFiles: seq<string> := [
    "README.md", "getting-started.md", "api-reference.md",
    "configuration.md", "examples.md", "advanced.md"
  ]

  /** The text left in place of a file that fails to read. */
  function LoadError(file: string): string {
    "# Error\n\nFailed to load " + file
  }

  /** The server page's `loadDocs`: every name gets its content or the error text. */
  function LoadDocs(read: string -> Option<string>): (docs: map<string, string>)
    ensures docs.Keys == set f | f in LoadedFiles
    ensures forall f | f in docs :: docs[f] == (if read(f).Some? then read(f).value else LoadError(f))
  {
    map f | f in LoadedFiles :: if read(f).Some? then read(f).value else LoadError(f)
  }

  /** The content shown for a section, with the sidebar as written. */
  function SectionContentAsWritten(docs: map<string, string>, active: string): string {
    Lookup(docs, SectionFile(Sections, active))
  }

  /** The content shown for a section. */
  function SectionContent(docs: map<string, string>, active: string): string {
    Lookup(docs, SectionFile(CorrectedSections, active))
  }

  /** As written, the overview — the section the page starts on — is empty
      whatever the docs directory holds: `index.md` is not among the loaded
      names. */
  lemma OverviewAlwaysEmpty(read: string -> Option<string>)
    ensures SectionContentAsWritten(LoadDocs(read), InitialSection) == ""
  {
    var docs := LoadDocs(read);
    assert FindSection(Sections, InitialSection) == Some(Sections[0]);
    assert "index.md" !in LoadedFiles;
  }

  predicate IdsDistinct(sections: seq<Section>) {
    forall i, j | 0 <= i < j < |sections| :: sections[i].id != sections[j].id
  }

  lemma CorrectedIdsDistinct()
    ensures IdsDistinct(CorrectedSections)
  {
    var ids := ["overview", "getting-started", "api-reference", "configuration", "examples", "advanced"];
    assert forall k | 0 <= k < 6 :: CorrectedSections[k].id == ids[k];
    assert ids[0][0] == 'o' && ids[1][0] == 'g' && ids[2][0] == 'a' && ids[3][0] == 'c'
        && ids[4][0] == 'e' && ids[5][0] == 'a';
    assert ids[2][1] == 'p' && ids[5][1] == 'd';
  }

  /** With distinct ids, looking a section up by its id finds it. */
  lemma FindById(sections: seq<Section>, k: nat)
    requires IdsDistinct(sections) && k < |sections|
    ensures FindSection(sections, sections[k].id) == Some(sections[k])
  {
    var r := FindSection(sections, sections[k].id);
    var j :| 0 <= j < |sections| && sections[j] == r.value && sections[j].id == sections[k].id
             && forall i | 0 <= i < j :: sections[i].id != sections[k].id;
    assert j == k;
  }

  /** The corrected sidebar names exactly the loaded files, in order. */
  lemma CorrectedFilesLoaded()
    ensures |CorrectedSections| == |LoadedFiles|
    ensures forall k | 0 <= k < |CorrectedSections| :: CorrectedSections[k].file == LoadedFiles[k] != ""
  {
  }

  /** With the overview reading `README.md`, every section shows its own
      file's content (or its load error), and no section is empty unless its
      file is; an unknown id falls back to `README.md`. */
  lemma EverySectionLoaded(read: string -> Option<string>, active: string)
    ensures var docs := LoadDocs(read);
      && (forall k | 0 <= k < |CorrectedSections| ::
            CorrectedSections[k].file in docs &&
            SectionContent(docs, CorrectedSections[k].id) == docs[CorrectedSections[k].file])
      && (FindSection(CorrectedSections, active).None? ==> SectionContent(docs, active) == docs["README.md"])
      && (SectionContent(docs, active) == "" ==> read(SectionFile(CorrectedSections, active)) == Some(""))
  {
    var docs := LoadDocs(read);
    SectionsShowOwnFile(docs);
    var f := SectionFile(CorrectedSections, active);
    ActiveFileLoaded(active);
    if read(f).None? {
      assert docs[f] == LoadError(f);
      assert LoadError(f)[0] == '#';
    }
  }

  /** Looking up any corrected section finds its own file among the loaded ones. */
  lemma SectionsShowOwnFile(docs: map<string, string>)
    requires docs.Keys == set f | f in LoadedFiles
    ensures forall k | 0 <= k < |CorrectedSections| ::
      CorrectedSections[k].file in docs &&
      SectionContent(docs, CorrectedSections[k].id) == docs[CorrectedSections[k].file]
  {
    CorrectedIdsDistinct();
    CorrectedFilesLoaded();
    forall k | 0 <= k < |CorrectedSections|
      ensures CorrectedSections[k].file in docs
      ensures SectionContent(docs, CorrectedSections[k].id) == docs[CorrectedSections[k].file]
    {
      FindById(CorrectedSections, k);
      assert CorrectedSections[k].file == LoadedFiles[k];
    }
  }

  /** Whatever the active id, the corrected page looks up a loaded name. */
  lemma ActiveFileLoaded(active: string)
    ensures SectionFile(CorrectedSections, active) in LoadedFiles
  {
    CorrectedFilesLoaded();
    match FindSection(CorrectedSections, active)
    case Some(s) =>
      var j :| 0 <= j < |CorrectedSections| && CorrectedSections[j] == s;
      assert s.file == LoadedFiles[j];
    case None =>
      assert SectionFile(CorrectedSections, active) == LoadedFiles[0];
  }
}
