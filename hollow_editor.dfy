// The hollow editor's HTTP rules: error reporting, the login decision and
// the multipart upload.  The HTTP framework, JSON binding, cookies and the
// token codec are outside the model; the token check and token creation are
// function parameters.
module HollowEditor {
  import opened GoStrings
  import opened GoPath

  datatype Option<T> = None | Some(value: T)

  datatype Err = AuthErr | OtherErr(text: string)

  function ErrText(e: Err): (r: string) {
    match e
    case AuthErr => "need login"
    case OtherErr(t) => t
  }

  /** The JSON reply of the error middleware: HTTP status, body code and message. */
  datatype ErrorReply = ErrorReply(status: nat, code: nat, msg: string)

  /**
   * ErrorHandler: only the first recorded error is answered, always with
   * HTTP 400; the body code is 401 for the login error and 400 for any other.
   */
  function ErrorResponse(errs: seq<Err>): (r: Option<ErrorReply>)
    ensures errs == [] <==> r.None?
    ensures r.Some? ==> r.value.status == 400 && r.value.msg == ErrText(errs[0])
    ensures r.Some? ==> (r.value.code == 401 <==> errs[0] == AuthErr)
    ensures r.Some? ==> r.value.code == 400 || r.value.code == 401
  {
    if errs == [] then None
    else Some(ErrorReply(400, if errs[0] == AuthErr then 401 else 400, ErrText(errs[0])))
  }

  /** Auth middleware: passes (None) only for a non-empty token cookie that the check accepts. */
  function AuthGate(secret: string, cookie: string, checkToken: (string, string) -> bool): (r: Option<Err>)
    ensures r.None? <==> cookie != "" && checkToken(secret, cookie)
    ensures r.Some? ==> r.value == AuthErr
  {
    if cookie == "" then Some(AuthErr)
    else if !checkToken(secret, cookie) then Some(AuthErr)
    else None
  }

  /** The login cookie's lifetime in seconds: one week. */
  const TokenMaxAge: nat := 7 * 24 * 3600

  datatype Cookie = Cookie(name: string, value: string, maxAge: nat)

  datatype AuthReply = Denied(err: Err) | Accepted(setCookie: Option<Cookie>)

  /**
   * POST /api/auth.  An empty secret in the request re-validates the existing
   * token cookie; a non-empty one must equal the configured secret and then
   * installs a fresh token cookie.
   */
  function AuthDecision(configured: string, given: string, cookie: string,
                        checkToken: (string, string) -> bool, createToken: string -> string): (r: AuthReply)
    ensures given == "" ==> (r.Accepted? <==> AuthGate(configured, cookie, checkToken).None?)
    ensures given == "" && r.Accepted? ==> r.setCookie.None?
    ensures given != "" ==> (r.Accepted? <==> given == configured)
    ensures given != "" && r.Accepted? ==> r.setCookie == Some(Cookie("token", createToken(given), TokenMaxAge))
    ensures r.Denied? ==> r.err == AuthErr
  {
    if given == "" then
      if cookie == "" || !checkToken(configured, cookie) then Denied(AuthErr) else Accepted(None)
    else if given != configured then Denied(AuthErr)
    else Accepted(Some(Cookie("token", createToken(given), TokenMaxAge)))
  }

  /** Every refusal of the login endpoint is answered with body code 401. */
  lemma AuthRefusalIs401(configured: string, given: string, cookie: string,
                         checkToken: (string, string) -> bool, createToken: string -> string)
    requires AuthDecision(configured, given, cookie, checkToken, createToken).Denied?
    ensures var r := ErrorResponse([AuthDecision(configured, given, cookie, checkToken, createToken).err]);
      r.Some? && r.value.status == 400 && r.value.code == 401
  {
  }

  // ---------------------------------------------------------------------
  // Upload

  /**
   * One multipart file part as the handler sees it: the multipart file name,
   * the body, whether opening and reading it succeed, the Content-Disposition
   * parameters and whether parsing them succeeds, and whether the store's
   * Create and Write succeed for it.
   */
  datatype Part = Part(filename: string, body: seq<bv8>, readOk: bool,
                       disposition: map<string, string>, parseOk: bool,
                       createOk: bool, writeOk: bool)

  /** The name the part is stored under: the disposition's filename, or else the multipart one. */
  function PartName(disposition: map<string, string>, filename: string): (r: string)
    ensures "filename" in disposition && disposition["filename"] != "" ==> r == disposition["filename"]
    ensures !("filename" in disposition && disposition["filename"] != "") ==> r == filename
  {
    var n := if "filename" in disposition then disposition["filename"] else "";
    if n == "" then filename else n
  }

  /** The stored path: the name without one leading '/', joined under the target directory. */
  function PathOf(base: string, p: Part): (r: string) {
    Join(base, TrimPrefix(PartName(p.disposition, p.filename), "/"))
  }

  datatype FsOp = Created(path: string) | Wrote(path: string, data: seq<bv8>)

  datatype UploadReply = Listed(paths: seq<string>) | UploadErrored | UploadAborted(status: nat)

  /** A part every step of the upload gets through. */
  predicate PartOk(p: Part) {
    p.readOk && p.parseOk && p.createOk && p.writeOk
  }

  /**
   * The store operations and the reply of an upload of `parts` (in the order
   * the handler visits them) under `base`, after `names` were listed.
   */
  function Upload(base: string, parts: seq<Part>, names: seq<string>): (r: (seq<FsOp>, UploadReply))
    decreases |parts|
  {
    if parts == [] then ([], Listed(names))
    else
      var p := parts[0];
      if !p.readOk || !p.parseOk then ([], UploadErrored)
      else
        var path := PathOf(base, p);
        if !p.createOk then ([], UploadAborted(400))
        else if !p.writeOk then ([Created(path)], UploadAborted(500))
        else
          var rest := Upload(base, parts[1..], names + [path]);
          ([Created(path), Wrote(path, p.body)] + rest.0, rest.1)
  }

  /**
   * When every part goes through, the reply lists the stored paths in
   * processing order after those already listed.
   */
  lemma {:induction false} UploadAllOkPaths(base: string, parts: seq<Part>, names: seq<string>)
    requires forall i :: 0 <= i < |parts| ==> PartOk(parts[i])
    ensures Upload(base, parts, names).1 == Listed(names + Paths(base, parts))
    decreases |parts|
  {
    if parts != [] {
      var path := PathOf(base, parts[0]);
      assert forall i :: 0 <= i < |parts[1..]| ==> parts[1..][i] == parts[i + 1];
      UploadAllOkPaths(base, parts[1..], names + [path]);
      assert names + [path] + Paths(base, parts[1..]) == names + Paths(base, parts);
    }
  }

  /** When every part goes through, each one is created and then written with its body, in order. */
  lemma {:induction false} UploadAllOkOps(base: string, parts: seq<Part>, names: seq<string>)
    requires forall i :: 0 <= i < |parts| ==> PartOk(parts[i])
    ensures Upload(base, parts, names).0 == Stores(base, parts)
    decreases |parts|
  {
    if parts != [] {
      var path := PathOf(base, parts[0]);
      assert forall i :: 0 <= i < |parts[1..]| ==> parts[1..][i] == parts[i + 1];
      UploadAllOkOps(base, parts[1..], names + [path]);
    }
  }

  /** The stored path of each part, in order. */
  function Paths(base: string, parts: seq<Part>): (r: seq<string>)
    ensures |r| == |parts|
    ensures forall i :: 0 <= i < |parts| ==> r[i] == PathOf(base, parts[i])
  {
    if parts == [] then [] else [PathOf(base, parts[0])] + Paths(base, parts[1..])
  }

  /** For each part in order: its Create, then its Write of the whole body. */
  function Stores(base: string, parts: seq<Part>): (r: seq<FsOp>) {
    if parts == [] then []
    else [Created(PathOf(base, parts[0])), Wrote(PathOf(base, parts[0]), parts[0].body)] + Stores(base, parts[1..])
  }

  /**
   * A failing part ends the upload with an error reply instead of the path
   * list, and nothing after the first failing part is touched.
   */
  lemma {:induction false} UploadStopsAtFailure(base: string, parts: seq<Part>, names: seq<string>, k: nat)
    requires k < |parts| && !PartOk(parts[k])
    requires forall i :: 0 <= i < k ==> PartOk(parts[i])
    ensures var (ops, reply) := Upload(base, parts, names);
      !reply.Listed? && Upload(base, parts[..k + 1], names) == (ops, reply)
    decreases k
  {
    if k > 0 {
      var path := PathOf(base, parts[0]);
      assert parts[1..][..k] == parts[1..k + 1];
      assert parts[..k + 1][1..] == parts[1..k + 1];
      assert forall i :: 0 <= i < k - 1 ==> parts[1..][i] == parts[i + 1];
      UploadStopsAtFailure(base, parts[1..], names + [path], k - 1);
    }
  }

  /** The upload handler's loop over the parts (flattened in the order the handler visits them). */
  method UploadHandler(base: string, parts: seq<Part>) returns (ops: seq<FsOp>, reply: UploadReply)
    ensures (ops, reply) == Upload(base, parts, [])
  {
    var allFileName: seq<string> := [];
    ops := [];
    var i := 0;
    assert parts[0..] == parts;
    while i < |parts|
      invariant 0 <= i <= |parts|
      invariant Upload(base, parts, []).0 == ops + Upload(base, parts[i..], allFileName).0
      invariant Upload(base, parts, []).1 == Upload(base, parts[i..], allFileName).1
    {
      var p := parts[i];
      assert parts[i..][0] == p && parts[i..][1..] == parts[i + 1..];
      if !p.readOk || !p.parseOk {
        assert ops + [] == ops;
        return ops, UploadErrored;
      }
      var fullPath := PathOf(base, p);
      allFileName := allFileName + [fullPath];
      if !p.createOk {
        assert ops + [] == ops;
        return ops, UploadAborted(400);
      }
      if !p.writeOk {
        return ops + [Created(fullPath)], UploadAborted(500);
      }
      ops := ops + [Created(fullPath), Wrote(fullPath, p.body)];
      i := i + 1;
    }
    assert parts[i..] == [];
    assert ops + [] == ops;
    reply := Listed(allFileName);
  }
}
