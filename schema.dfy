/**
 * The request schema of the upload endpoint: `githubUploadSchema` in shared/schema.ts.
 *
 * The schema is a zod object with four rules: `repoName` is a string of length at least one,
 * `repoDescription` is an optional string, and `isPrivate` / `includeReadme` are booleans that
 * default to `false` / `true` when absent. Parsing either yields the normalised request with
 * the defaults filled in, or the list of issues, one per offending field, in declaration order.
 */
module Schema {
  import opened Wrappers

  /** A request body as JSON decodes it. Numbers are kept as integers: only their kind matters here. */
  datatype Json =
    | JNull
    | JBool(b: bool)
    | JNumber(n: int)
    | JString(s: string)
    | JArray(items: seq<Json>)
    | JObject(fields: map<string, Json>)

  /** The kinds zod reports in an `invalid_type` issue; `Undefined` is a missing field. */
  datatype JsonKind = Undefined | Null | Boolean | Number | Str | Array | Object

  datatype IssueCode =
    | InvalidType(expected: JsonKind, received: JsonKind)
    | TooSmall(minimum: nat, message: string)

  /** One validation issue; `path` is empty for the body itself, else the field name. */
  datatype Issue = Issue(path: seq<string>, code: IssueCode)

  /** The normalised request handed to the route. */
  datatype UploadRequest = UploadRequest(
    repoName: string,
    repoDescription: Option<string>,
    isPrivate: bool,
    includeReadme: bool)

  const RepoNameRequired: string := "Repository name is required"

  function KindOf(v: Option<Json>): JsonKind {
    match v
    case None => Undefined
    case Some(JNull) => Null
    case Some(JBool(_)) => Boolean
    case Some(JNumber(_)) => Number
    case Some(JString(_)) => Str
    case Some(JArray(_)) => Array
    case Some(JObject(_)) => Object
  }

  /** The value of a field of the body, `None` when the key is missing. */
  function FieldOf(fields: map<string, Json>, key: string): Option<Json> {
    if key in fields then Some(fields[key]) else None
  }

  /** `z.string().min(1, ...)` applied to `repoName`. */
  function ParseRepoName(v: Option<Json>): (r: Result<string, Issue>)
    ensures r.Success? <==> IsNonEmptyString(v)
    ensures r.Success? ==> v == Some(JString(r.value))
    ensures r.Failure? ==> r.error.path == ["repoName"]
  {
    match v
    case Some(JString(s)) =>
      if |s| >= 1 then Success(s) else Failure(Issue(["repoName"], TooSmall(1, RepoNameRequired)))
    case _ => Failure(Issue(["repoName"], InvalidType(Str, KindOf(v))))
  }

  /** `z.string().optional()` applied to `repoDescription`. */
  function ParseDescription(v: Option<Json>): (r: Result<Option<string>, Issue>)
    ensures r.Success? <==> IsAbsentOrString(v)
    ensures r.Success? ==> r.value == if v.Some? then Some(v.value.s) else None
    ensures r.Failure? ==> r.error.path == ["repoDescription"]
  {
    match v
    case None => Success(None)
    case Some(JString(s)) => Success(Some(s))
    case _ => Failure(Issue(["repoDescription"], InvalidType(Str, KindOf(v))))
  }

  /** `z.boolean().default(dflt)` applied to the field `key`. */
  function ParseFlag(key: string, v: Option<Json>, dflt: bool): (r: Result<bool, Issue>)
    ensures r.Success? <==> IsAbsentOrBool(v)
    ensures r.Success? ==> r.value == if v.Some? then v.value.b else dflt
    ensures r.Failure? ==> r.error.path == [key]
  {
    match v
    case None => Success(dflt)
    case Some(JBool(b)) => Success(b)
    case _ => Failure(Issue([key], InvalidType(Boolean, KindOf(v))))
  }

  function IssuesOf<T>(r: Result<T, Issue>): seq<Issue> {
    if r.Failure? then [r.error] else []
  }

  /** The field shapes the schema admits, stated directly on the raw body. */
  predicate IsNonEmptyString(v: Option<Json>) {
    v.Some? && v.value.JString? && v.value.s != ""
  }

  predicate IsAbsentOrString(v: Option<Json>) {
    v.None? || v.value.JString?
  }

  predicate IsAbsentOrBool(v: Option<Json>) {
    v.None? || v.value.JBool?
  }

  /** The fields at fault, in the schema's declaration order. */
  function FaultyFields(fields: map<string, Json>): seq<string> {
    (if IsNonEmptyString(FieldOf(fields, "repoName")) then [] else ["repoName"])
    + (if IsAbsentOrString(FieldOf(fields, "repoDescription")) then [] else ["repoDescription"])
    + (if IsAbsentOrBool(FieldOf(fields, "isPrivate")) then [] else ["isPrivate"])
    + (if IsAbsentOrBool(FieldOf(fields, "includeReadme")) then [] else ["includeReadme"])
  }

  /**
   * `githubUploadSchema.safeParse(body)`. A body that is not an object yields one issue at the
   * root; otherwise every field is checked and all issues are reported together.
   */
  function Validate(body: Json): (r: Result<UploadRequest, seq<Issue>>)
    // a non-object body is refused with a single root-level issue
    ensures !body.JObject? ==> r == Failure([Issue([], InvalidType(Object, KindOf(Some(body))))])
    // accepted exactly when every field has an admissible shape
    ensures r.Success? <==>
      body.JObject?
      && IsNonEmptyString(FieldOf(body.fields, "repoName"))
      && IsAbsentOrString(FieldOf(body.fields, "repoDescription"))
      && IsAbsentOrBool(FieldOf(body.fields, "isPrivate"))
      && IsAbsentOrBool(FieldOf(body.fields, "includeReadme"))
    // on a refused object, one issue per faulty field, naming that field, in declaration order
    ensures r.Failure? && body.JObject? ==>
      |r.error| == |FaultyFields(body.fields)| >= 1
      && forall i :: 0 <= i < |r.error| ==> r.error[i].path == [FaultyFields(body.fields)[i]]
  {
    if !body.JObject? then
      Failure([Issue([], InvalidType(Object, KindOf(Some(body))))])
    else
      var name := ParseRepoName(FieldOf(body.fields, "repoName"));
      var description := ParseDescription(FieldOf(body.fields, "repoDescription"));
      var isPrivate := ParseFlag("isPrivate", FieldOf(body.fields, "isPrivate"), false);
      var includeReadme := ParseFlag("includeReadme", FieldOf(body.fields, "includeReadme"), true);
      var issues := IssuesOf(name) + IssuesOf(description) + IssuesOf(isPrivate) + IssuesOf(includeReadme);
      if issues == [] then
        Success(UploadRequest(name.value, description.value, isPrivate.value, includeReadme.value))
      else
        Failure(issues)
  }

  /** What an accepted request holds: the name as given, and each optional field as given or defaulted. */
  lemma AcceptedFields(body: Json, req: UploadRequest)
    requires Validate(body) == Success(req)
    ensures body.JObject?
    ensures FieldOf(body.fields, "repoName") == Some(JString(req.repoName)) && req.repoName != ""
    ensures req.repoDescription ==
      (if "repoDescription" in body.fields then Some(body.fields["repoDescription"].s) else None)
    ensures req.isPrivate == (if "isPrivate" in body.fields then body.fields["isPrivate"].b else false)
    ensures req.includeReadme == (if "includeReadme" in body.fields then body.fields["includeReadme"].b else true)
  {
  }

  /** An empty `repoName` is refused, with the schema's own message. */
  lemma EmptyNameRejected(fields: map<string, Json>)
    requires FieldOf(fields, "repoName") == Some(JString(""))
    ensures Validate(JObject(fields)).Failure?
    ensures Validate(JObject(fields)).error[0] == Issue(["repoName"], TooSmall(1, RepoNameRequired))
  {
  }

  /** The request written back as a JSON body, with an absent description left out. */
  function ToJson(req: UploadRequest): (j: Json)
    ensures j.JObject? && "repoName" in j.fields && "isPrivate" in j.fields && "includeReadme" in j.fields
  {
    var base := map["repoName" := JString(req.repoName), "isPrivate" := JBool(req.isPrivate),
                    "includeReadme" := JBool(req.includeReadme)];
    match req.repoDescription
    case None => JObject(base)
    case Some(d) => JObject(base["repoDescription" := JString(d)])
  }

  /** Every request with a non-empty name survives being written out and parsed again. */
  lemma ToJsonRoundTrip(req: UploadRequest)
    requires req.repoName != ""
    ensures Validate(ToJson(req)) == Success(req)
  {
  }

  /**
   * Normalisation is idempotent: an accepted request has a non-empty name, so by the round trip
   * re-parsing it gives it back unchanged.
   */
  lemma ValidateIdempotent(body: Json, req: UploadRequest)
    requires Validate(body) == Success(req)
    ensures Validate(ToJson(req)) == Success(req)
  {
    AcceptedFields(body, req);
    ToJsonRoundTrip(req);
  }
}
