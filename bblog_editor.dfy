// The bblog editor's HTTP rules: which file-system factory serves a bucket,
// how errors are answered, and the file-tree request check.  Its task
// handlers and its log sink follow the shared job protocol (EditorJobs).
module BblogEditor {

  datatype Factory = ThemeFactory | ProjectFactory

  /** projectFs: the bucket "theme" goes to the theme factory, every other bucket (even "") to the project one. */
  function ProjectFs(bucket: string): (r: Factory)
    ensures r == ThemeFactory <==> bucket == "theme"
    ensures r == ProjectFactory <==> bucket != "theme"
  {
    if bucket == "theme" then ThemeFactory else ProjectFactory
  }

  datatype ErrorReply = ErrorReply(status: nat, code: nat, msg: string)

  /** ErrorHandler: the first recorded error only, with HTTP 200 and body code 500. */
  function ErrorResponse(errs: seq<string>): (r: seq<ErrorReply>)
    ensures errs == [] <==> r == []
    ensures errs != [] ==> r == [ErrorReply(200, 500, errs[0])]
  {
    if errs == [] then [] else [ErrorReply(200, 500, errs[0])]
  }

  /** The file-tree request: 400 ("invalide params") for an empty bucket or a zero project id, else accepted. */
  function TreeParamsStatus(bucket: string, projectId: int): (status: nat)
    ensures status == 400 <==> bucket == "" || projectId == 0
    ensures status != 400 ==> status == 200
  {
    if bucket == "" || projectId == 0 then 400 else 200
  }
}
