/**
 * The docs site's `/api/docs` handler: it checks the `file` query parameter,
 * answers 400 when it is missing or not a single string, 404 when it is not
 * one of six allowlisted names, and otherwise reads the file from the docs
 * directory, answering 200 with its content or 404 when the read fails.
 *
 * The file read is a parameter: `read(name)` is the content of the named
 * file, or `None` when reading it throws.
 */
module DocsApi {
  import opened Wrappers
  import opened JsText

  /** `req.query.file`: absent, one string, or an array of strings (the
      parameter given several times). */
  datatype Query = Absent | One(value: string) | Many(values: seq<string>)

  /** A JSON error object or the file's text. */
  datatype Body = Json(error: string) | Text(content: string)

  datatype Response = Response(status: int, body: Body)

  /** The names the handler serves. */
  const AllowedFiles: seq<string> := [
    "README.md", "getting-started.md", "api-reference.md",
    "configuration.md", "examples.md", "advanced.md"
  ]

  const MissingParameter := Response(400, Json("File parameter is required"))
  const NotFound := Response(404, Json("File not found"))

  /** `!file || typeof file !== 'string'`: absent, empty, or an array
      (an array is truthy even when empty). */
  predicate Rejected(file: Query) {
    !file.One? || file.value == ""
  }

  /** The response the handler sends, exactly one per request: 400 exactly
      when the parameter is missing, empty or not a single string; 200 exactly
      for an allowlisted name that reads, with the file's content; 404 for
      every other name and for a failed read. */
  function Handle(file: Query, read: string -> Option<string>): (r: Response)
    ensures r.status == 400 <==> (file.Absent? || file.Many? || file == One(""))
    ensures r.status == 200 <==> (file.One? && file.value in AllowedFiles && read(file.value).Some?)
    ensures r.status == 200 ==> r.body == Text(read(file.value).value)
    ensures r.status == 404 <==> (file.One? && file.value != "" &&
                                  (file.value !in AllowedFiles || read(file.value).None?))
    ensures r.status != 200 ==> r.body.Json?
  {
    if Rejected(file) then MissingParameter
    else if file.value !in AllowedFiles then NotFound
    else match read(file.value)
      case Some(content) => Response(200, Text(content))
      case None => NotFound
  }

  /** A name outside the allowlist gets 404 whatever the file system holds:
      the response does not depend on the read at all, so such a name (for
      example `../x`) is never read. */
  lemma OutsideAllowlistNotRead(f: string, read1: string -> Option<string>, read2: string -> Option<string>)
    requires f != "" && f !in AllowedFiles
    ensures Handle(One(f), read1) == Handle(One(f), read2) == NotFound
  {
  }

  /** Only allowlisted names can make the response depend on the file system. */
  lemma ReadOnlyAllowlisted(file: Query, read1: string -> Option<string>, read2: string -> Option<string>)
    requires Handle(file, read1) != Handle(file, read2)
    ensures file.One? && file.value in AllowedFiles
    ensures read1(file.value) != read2(file.value)
  {
  }

  /** An allowlisted name that fails to read gets the same 404 as an unknown name. */
  lemma FailedReadIsNotFound(f: string, read: string -> Option<string>)
    requires f in AllowedFiles && read(f).None?
    ensures Handle(One(f), read) == NotFound
  {
  }

  /** No allowlisted name holds a path separator, so joining one to the docs
      directory stays inside it. */
  lemma AllowedNamesHaveNoSeparator()
    ensures forall f | f in AllowedFiles :: forall i | 0 <= i < |f| :: f[i] != '/' && f[i] != '\\'
  {
  }
}
