/** The request validator `CalculateRequestSchema` (lib/schema.ts): a zod
    object schema with two fields, `image` (a string refined to start with
    `data:image/`) and `dict_of_vars` (a record from string to string). */
module Schema {
  import opened Wrappers
  import opened Json

  const ImagePrefix: string := "data:image/"
  const ImageMessage: string := "Must be a base64 encoded image"

  /** One zod issue: where it was found and what was wrong there. A field that
      is absent is reported as received "undefined". */
  datatype Issue =
    | InvalidType(path: seq<string>, expected: string, received: string)
    | Custom(path: seq<string>, message: string)

  /** The typed request that a successful parse yields. Keys of the payload
      other than the two declared ones are stripped, as zod objects do. */
  datatype CalculateRequest = CalculateRequest(image: string, dictOfVars: map<string, string>)

  /** JavaScript's `String.prototype.startsWith`: exact, case-sensitive. */
  predicate StartsWith(s: string, prefix: string) {
    |prefix| <= |s| && s[..|prefix|] == prefix
  }

  /** The schema as a single declarative condition: an object whose `image`
      is a string with the image prefix and whose `dict_of_vars` is an object
      holding only strings. */
  predicate Acceptable(payload: Json) {
    && payload.JObj?
    && "image" in payload.fields
    && payload.fields["image"].JStr?
    && StartsWith(payload.fields["image"].s, ImagePrefix)
    && "dict_of_vars" in payload.fields
    && payload.fields["dict_of_vars"].JObj?
    && forall k :: k in payload.fields["dict_of_vars"].fields ==> payload.fields["dict_of_vars"].fields[k].JStr?
  }

  /** Issues raised by the `image` field: the string check first, then the
      prefix refinement, which runs only on strings. */
  function ImageIssues(fields: map<string, Json>): (issues: set<Issue>)
    ensures issues == {} <==> "image" in fields && fields["image"].JStr? && StartsWith(fields["image"].s, ImagePrefix)
    ensures Custom(["image"], ImageMessage) in issues <==>
              "image" in fields && fields["image"].JStr? && !StartsWith(fields["image"].s, ImagePrefix)
    ensures |issues| <= 1
  {
    if "image" !in fields then {InvalidType(["image"], "string", "undefined")}
    else match fields["image"]
      case JStr(s) => if StartsWith(s, ImagePrefix) then {} else {Custom(["image"], ImageMessage)}
      case v => {InvalidType(["image"], "string", TypeName(v))}
  }

  /** Issues raised by the `dict_of_vars` field: one for a field that is not
      an object, otherwise one per value that is not a string. */
  function DictIssues(fields: map<string, Json>): (issues: set<Issue>)
    ensures issues == {} <==>
              && "dict_of_vars" in fields
              && fields["dict_of_vars"].JObj?
              && forall k :: k in fields["dict_of_vars"].fields ==> fields["dict_of_vars"].fields[k].JStr?
    ensures forall i :: i in issues ==> |i.path| >= 1 && i.path[0] == "dict_of_vars"
  {
    if "dict_of_vars" !in fields then {InvalidType(["dict_of_vars"], "object", "undefined")}
    else match fields["dict_of_vars"]
      case JObj(d) =>
        var bad := set k | k in d && !d[k].JStr? :: InvalidType(["dict_of_vars", k], "string", TypeName(d[k]));
        assert forall k :: k in d && !d[k].JStr? ==> InvalidType(["dict_of_vars", k], "string", TypeName(d[k])) in bad;
        bad
      case v => {InvalidType(["dict_of_vars"], "object", TypeName(v))}
  }

  /** The string values of a record whose values are all strings. */
  function StringValues(d: map<string, Json>): (vars: map<string, string>)
    requires forall k :: k in d ==> d[k].JStr?
    ensures vars.Keys == d.Keys
    ensures forall k :: k in vars ==> d[k] == JStr(vars[k])
  {
    map k | k in d :: d[k].s
  }

  /** `CalculateRequestSchema.safeParse(body)`: the typed request when the
      payload is acceptable, otherwise every issue found. */
  function Validate(payload: Json): (r: Result<CalculateRequest, set<Issue>>)
    ensures r.Success? <==> Acceptable(payload)
    ensures r.Success? ==> JStr(r.value.image) == payload.fields["image"]
    ensures r.Success? ==>
              && r.value.dictOfVars.Keys == payload.fields["dict_of_vars"].fields.Keys
              && forall k :: k in r.value.dictOfVars ==> payload.fields["dict_of_vars"].fields[k] == JStr(r.value.dictOfVars[k])
    ensures r.Failure? ==> r.error != {}
    ensures r.Failure? && !payload.JObj? ==> r.error == {InvalidType([], "object", TypeName(payload))}
  {
    match payload
    case JObj(fields) =>
      var issues := ImageIssues(fields) + DictIssues(fields);
      if issues == {} then
        Success(CalculateRequest(fields["image"].s, StringValues(fields["dict_of_vars"].fields)))
      else
        Failure(issues)
    case _ => Failure({InvalidType([], "object", TypeName(payload))})
  }

  /** An object payload is rejected with the prefix message exactly when its
      `image` is a string without the case-sensitive `data:image/` prefix,
      whatever `dict_of_vars` holds. */
  lemma PrefixIssueExactly(fields: map<string, Json>)
    ensures Validate(JObj(fields)).Failure? && Custom(["image"], ImageMessage) in Validate(JObj(fields)).error
            <==> "image" in fields && fields["image"].JStr? && !StartsWith(fields["image"].s, ImagePrefix)
  {
    var issues := ImageIssues(fields) + DictIssues(fields);
    assert Custom(["image"], ImageMessage) !in DictIssues(fields);
  }

  /** A missing or non-string `image` is rejected with a type issue on that
      field, whatever `dict_of_vars` holds. */
  lemma ImageTypeIssue(fields: map<string, Json>)
    requires "image" !in fields || !fields["image"].JStr?
    ensures Validate(JObj(fields)).Failure?
    ensures exists received :: InvalidType(["image"], "string", received) in Validate(JObj(fields)).error
  {
    var received := if "image" in fields then TypeName(fields["image"]) else "undefined";
    assert InvalidType(["image"], "string", received) in ImageIssues(fields);
  }

  /** A missing `dict_of_vars`, one that is not an object, or one holding a
      value that is not a string makes the payload fail with an issue under
      `dict_of_vars`, whatever `image` holds. */
  lemma DictIssueReported(fields: map<string, Json>)
    requires || "dict_of_vars" !in fields
             || !fields["dict_of_vars"].JObj?
             || exists k :: k in fields["dict_of_vars"].fields && !fields["dict_of_vars"].fields[k].JStr?
    ensures Validate(JObj(fields)).Failure?
    ensures exists i :: i in Validate(JObj(fields)).error && |i.path| >= 1 && i.path[0] == "dict_of_vars"
  {
    var d := DictIssues(fields);
    assert d != {};
    var i :| i in d;
    assert i in Validate(JObj(fields)).error;
  }

  /** An empty `dict_of_vars` is accepted, and so is the bare prefix with
      nothing after it: only the prefix of `image` is checked. */
  lemma EmptyDictAndBarePrefixAccepted(extra: map<string, Json>)
    ensures Validate(JObj(extra["image" := JStr(ImagePrefix)]["dict_of_vars" := JObj(map[])]))
            == Success(CalculateRequest(ImagePrefix, map[]))
  {
    var fields := extra["image" := JStr(ImagePrefix)]["dict_of_vars" := JObj(map[])];
    assert Acceptable(JObj(fields));
  }
}
