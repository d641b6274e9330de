/**
 * The `POST /api/github/upload` handler (server/routes.ts). The remote hosting API is an oracle:
 * whether the client can be obtained, the authenticated login, the repository that creation
 * returns, and which file commits are rejected. The handler's effect on the remote is the trace
 * of calls it issues, in order.
 */
module UploadRoute {
  import opened Wrappers
  import opened Schema
  import opened Collector
  import opened Publisher

  /** The outcome of an awaited remote call: its result, or the message of the error it throws. */
  datatype Outcome<T> = Returns(value: T) | Throws(message: string)

  /** The fields of the created repository that the response uses. */
  datatype CreatedRepo = CreatedRepo(htmlUrl: string, name: string)

  datatype GitHub = GitHub(
    client: Outcome<()>,
    authenticated: Outcome<string>,
    created: Outcome<CreatedRepo>,
    failingCommits: set<nat>)

  datatype RemoteCall =
    | GetAuthenticated
    | CreateForAuthenticatedUser(name: string, description: Option<string>, isPrivate: bool, autoInit: bool)
    | CreateOrUpdateFileContents(commit: FileCommit)

  datatype Response =
    | Uploaded(url: string, owner: string, repoName: string)
    | BadRequest(issues: seq<Issue>)
    | ServerError(message: string)

  const DefaultErrorMessage: string := "Failed to upload to GitHub"

  function Status(r: Response): nat {
    match r
    case Uploaded(_, _, _) => 200
    case BadRequest(_) => 400
    case ServerError(_) => 500
  }

  /** `error.message || "Failed to upload to GitHub"`. */
  function ErrorMessage(message: string): (m: string)
    ensures m != ""
    ensures message != "" ==> m == message
  {
    if message != "" then message else DefaultErrorMessage
  }

  /** `repoDescription || undefined`: an empty description is not sent. */
  function DescriptionParam(d: Option<string>): (p: Option<string>)
    ensures p.Some? <==> d.Some? && d.value != ""
    ensures p.Some? ==> p == d
  {
    if d.Some? && d.value != "" then d else None
  }

  /**
   * The creation request for a validated upload request: the requested name, the description
   * only when non-empty, the privacy flag, and `auto_init` from `includeReadme`.
   */
  function CreateCall(req: UploadRequest): (c: RemoteCall)
    ensures c.CreateForAuthenticatedUser? && c.name == req.repoName
    ensures c.description.Some? <==> req.repoDescription.Some? && req.repoDescription.value != ""
    ensures c.description.Some? ==> c.description == req.repoDescription
    ensures c.isPrivate == req.isPrivate && c.autoInit == req.includeReadme
  {
    CreateForAuthenticatedUser(req.repoName, DescriptionParam(req.repoDescription), req.isPrivate, req.includeReadme)
  }

  /** The commit calls for a list of files. */
  function CommitCalls(owner: string, repo: string, files: seq<CollectedFile>): seq<RemoteCall> {
    seq(|files|, i requires 0 <= i < |files| => CreateOrUpdateFileContents(CommitFor(owner, repo, files[i])))
  }

  /**
   * The handler. Validation comes first, and a refused body is answered 400 before any remote
   * call or traversal. A throwing client, identity lookup or creation ends the request with 500.
   * Otherwise the working directory `cwd` is walked, the first 100 files are committed one by one,
   * and the answer carries the creation result whatever the commits gave. `walked` records whether
   * the working directory was traversed.
   */
  method HandleUpload(body: Json, gh: GitHub, cwd: Entry)
    returns (resp: Response, calls: seq<RemoteCall>, ghost walked: bool)
    ensures walked <==> resp.Uploaded?
    ensures Validate(body).Failure? ==> resp == BadRequest(Validate(body).error) && calls == []
    ensures Status(resp) == 400 <==> Validate(body).Failure?
    ensures Validate(body).Success? && gh.client.Throws? ==>
      resp == ServerError(ErrorMessage(gh.client.message)) && calls == []
    ensures Validate(body).Success? && gh.client.Returns? && gh.authenticated.Throws? ==>
      resp == ServerError(ErrorMessage(gh.authenticated.message)) && calls == [GetAuthenticated]
    ensures Validate(body).Success? && gh.client.Returns? && gh.authenticated.Returns? && gh.created.Throws? ==>
      resp == ServerError(ErrorMessage(gh.created.message))
      && calls == [GetAuthenticated, CreateCall(Validate(body).value)]
    ensures resp.Uploaded? <==>
      Validate(body).Success? && gh.client.Returns? && gh.authenticated.Returns? && gh.created.Returns?
    ensures resp.Uploaded? ==>
      resp == Uploaded(gh.created.value.htmlUrl, gh.authenticated.value, gh.created.value.name)
      && calls == [GetAuthenticated, CreateCall(Validate(body).value)]
                  + CommitCalls(gh.authenticated.value, Validate(body).value.repoName, UploadSlice(Walk(cwd, "")))
  {
    var validation := Validate(body);
    if validation.Failure? {
      return BadRequest(validation.error), [], false;
    }
    var req := validation.value;
    calls := [];
    if gh.client.Throws? {
      return ServerError(ErrorMessage(gh.client.message)), calls, false;
    }
    calls := calls + [GetAuthenticated];
    if gh.authenticated.Throws? {
      return ServerError(ErrorMessage(gh.authenticated.message)), calls, false;
    }
    var login := gh.authenticated.value;
    calls := calls + [CreateCall(req)];
    if gh.created.Throws? {
      return ServerError(ErrorMessage(gh.created.message)), calls, false;
    }
    var repo := gh.created.value;

    var collector := new FileCollector();
    collector.WalkDir(cwd, "");
    walked := true;
    var attempts := PublishFiles(login, req.repoName, collector.filesToUpload, gh.failingCommits);
    calls := calls + seq(|attempts|, i requires 0 <= i < |attempts| => CreateOrUpdateFileContents(attempts[i].commit));
    assert calls[2..] == CommitCalls(login, req.repoName, UploadSlice(Walk(cwd, "")));

    resp := Uploaded(repo.htmlUrl, login, repo.name);
  }
}
