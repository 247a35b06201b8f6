/**
 * The docs site's second page, which fetches each section from `/api/docs`
 * and renders it with the same passes as the client page, without theme
 * colours on lists, headers and paragraphs.
 */
module DocsPage {
  import opened Wrappers
  import opened JsText
  import MarkdownHeaders
  import opened MarkdownRender
  import DocsClient
  import DocsApi

  /** The fixed class strings of this page's renderer. */
  const PageStyle: Style := Style(
    OpenTag("ul", "list-disc list-inside mb-4 space-y-1"),
    MarkdownHeaders.Tags(
      OpenTag("h1", "text-2xl font-bold mb-6"),
      OpenTag("h2", "text-xl font-bold mt-8 mb-4"),
      OpenTag("h3", "text-base font-semibold mt-6 mb-3"),
      OpenTag("h4", "text-sm font-semibold mt-4 mb-2")),
    OpenTag("p", "mb-4"))

  /** The tags of this renderer are markup, as the client page's are. */
  lemma PageStyleIsMarkup()
    ensures MarkdownHeaders.TagsStartOutsideHeaders(PageStyle.headers)
    ensures StartsWith(PageStyle.pOpen, "<p")
    ensures StartsWith(PageStyle.listOpen, "<ul")
  {
    OpenTagStart("h1", "text-2xl font-bold mb-6");
    OpenTagStart("h2", "text-xl font-bold mt-8 mb-4");
    OpenTagStart("h3", "text-base font-semibold mt-6 mb-3");
    OpenTagStart("h4", "text-sm font-semibold mt-4 mb-2");
    OpenTagStart("ul", "list-disc list-inside mb-4 space-y-1");
    OpenTagStart("p", "mb-4");
  }

  /** This page's sidebar: the overview is `readme` and reads `README.md`. */
  const Sections: seq<DocsClient.Section> := [
    DocsClient.Section("readme", "Overview", "README.md"),
    DocsClient.Section("getting-started", "Getting Started", "getting-started.md"),
    DocsClient.Section("api-reference", "API Reference", "api-reference.md"),
    DocsClient.Section("configuration", "Configuration", "configuration.md"),
    DocsClient.Section("examples", "Examples", "examples.md"),
    DocsClient.Section("advanced", "Advanced", "advanced.md")
  ]

  /** The section the page starts on. */
  const InitialSection := "readme"

  /** The request the page makes for the active section: the `file`
      parameter of `/api/docs?file=...`, or none for an unknown id. */
  function Request(active: string): (q: Option<DocsApi.Query>)
    ensures q.Some? <==> exists k | 0 <= k < |Sections| :: Sections[k].id == active
  {
    match DocsClient.FindSection(Sections, active)
      case Some(s) => Some(DocsApi.One(s.file))
      case None => None
  }

  /** Every section of this page names a file the API serves, so the page
      never asks for a name the handler turns away: each request gets 200
      with the file's content when the file reads, and 404 only when the read
      fails. */
  lemma RequestsAllowed(active: string, read: string -> Option<string>)
    requires Request(active).Some?
    ensures var file := Request(active).value;
      && file.One? && file.value in DocsApi.AllowedFiles
      && (read(file.value).Some? ==> DocsApi.Handle(file, read) == DocsApi.Response(200, DocsApi.Text(read(file.value).value)))
      && (read(file.value).None? ==> DocsApi.Handle(file, read) == DocsApi.NotFound)
  {
    RequestFileAllowed(active);
    var f := Request(active).value.value;
    if read(f).None? {
      DocsApi.FailedReadIsNotFound(f, read);
    }
  }

  /** The page only ever asks for an allowlisted name. */
  lemma RequestFileAllowed(active: string)
    requires Request(active).Some?
    ensures Request(active).value.One? && Request(active).value.value in DocsApi.AllowedFiles
  {
    var s := DocsClient.FindSection(Sections, active).value;
    var k :| 0 <= k < |Sections| && Sections[k] == s;
    FilesAllowed();
    assert s.file == DocsApi.AllowedFiles[k];
  }

  lemma FilesAllowed()
    ensures forall k | 0 <= k < |Sections| :: Sections[k].file == DocsApi.AllowedFiles[k]
  {
  }
}
