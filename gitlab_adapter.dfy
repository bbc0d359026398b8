/** `GitLabAdapter`: rewrites the parameters of a GitHub-style request into
    GitLab's vocabulary (`transformParams`) and names the GitLab REST endpoint
    the request goes to (`getEndpoint`). */
module GitLabAdapter {
  import opened Wrappers
  import opened JsValues
  import Slug
  import Base64
  import Utf8
  import UriComponent

  const GetFileContents: string := "get_file_contents"
  const CreateRepository: string := "create_repository"
  const CreateOrUpdateFile: string := "create_or_update_file"

  /** What `transformParams` needs of its caller: a string `name` to create a
      repository and a string `content` to create or update a file. Any other
      `name` makes `params.name.toLowerCase()` throw a `TypeError` (`undefined`
      and `null` have no properties, a boolean has no `toLowerCase`); any
      other `content` makes `Buffer.from` throw one. */
  predicate CanTransform(params: Params, operation: string) {
    && (operation == CreateRepository ==> Get(params, "name").Str?)
    && (operation == CreateOrUpdateFile ==> Get(params, "content").Str?)
  }

  /** `Buffer.from(content).toString('base64')`. */
  function FileContent(content: string): string {
    Base64.Encode(Utf8.Encode(content))
  }

  /** get_file_contents: a truthy `branch` is renamed to `ref`; otherwise
      nothing changes and no `ref` is added. */
  function FileContentsParams(p: Params): (r: Params)
    ensures Truthy(Get(p, "branch")) ==> "ref" in r && r["ref"] == p["branch"] && "branch" !in r
    ensures !Truthy(Get(p, "branch")) ==> r == p
    ensures forall k :: k != "ref" && k != "branch" ==> SameAt(p, r, k)
  {
    if Truthy(Get(p, "branch")) then p["ref" := p["branch"]] - {"branch"} else p
  }

  /** create_repository: adds the `path` slug and the `visibility`, renames a
      truthy `autoInit` to `initialize_with_readme`, and drops `private` and
      `autoInit`. `name` and `description` are assigned their own values, so
      they pass through unchanged. */
  function RepositoryParams(p: Params): (r: Params)
    requires Get(p, "name").Str?
    ensures "path" in r && r["path"] == Str(Slug.Slug(Get(p, "name").s))
    ensures "visibility" in r
    ensures r["visibility"] == Str(if Truthy(Get(p, "private")) then "private" else "public")
    ensures "private" !in r && "autoInit" !in r
    ensures Truthy(Get(p, "autoInit")) ==>
      "initialize_with_readme" in r && r["initialize_with_readme"] == p["autoInit"]
    ensures !Truthy(Get(p, "autoInit")) ==> SameAt(p, r, "initialize_with_readme")
  {
    var name := p["name"];
    var t := p["name" := name]["path" := Str(Slug.Slug(name.s))];
    var t := t["visibility" := Str(if Truthy(Get(p, "private")) then "private" else "public")];
    var t := if Truthy(Get(p, "description")) then t["description" := p["description"]] else t;
    var t := if Truthy(Get(p, "autoInit")) then t["initialize_with_readme" := p["autoInit"]] else t;
    t - {"private"} - {"autoInit"}
  }

  /** Every other property, `name` and `description` included, keeps its
      value (or stays absent). */
  lemma RepositoryParamsKeepsOthers(p: Params, k: string)
    requires Get(p, "name").Str?
    requires k != "path" && k != "visibility" && k != "private" && k != "autoInit" && k != "initialize_with_readme"
    ensures SameAt(p, RepositoryParams(p), k)
  {
  }

  /** create_or_update_file: `branch` is always present (`undefined` when the
      input has none), `content` becomes Base64, `message` is copied to
      `commit_message` and a truthy `sha` to `last_commit_id`. The original
      `message` and `sha` stay. */
  function FileParams(p: Params): (r: Params)
    requires Get(p, "content").Str?
    ensures "branch" in r && r["branch"] == Get(p, "branch")
    ensures "content" in r && r["content"] == Str(FileContent(Get(p, "content").s))
    ensures "commit_message" in r && r["commit_message"] == Get(p, "message")
    ensures Truthy(Get(p, "sha")) ==> "last_commit_id" in r && r["last_commit_id"] == p["sha"]
    ensures !Truthy(Get(p, "sha")) ==> SameAt(p, r, "last_commit_id")
    ensures forall k ::
      k != "branch" && k != "content" && k != "commit_message" && k != "last_commit_id"
      ==> SameAt(p, r, k)
  {
    var t := p["branch" := Get(p, "branch")];
    var t := t["content" := Str(FileContent(p["content"].s))];
    var t := t["commit_message" := Get(p, "message")];
    if Truthy(Get(p, "sha")) then t["last_commit_id" := p["sha"]] else t
  }

  /** The properties `transformParams` returns: a rewritten copy of `p`.
      An operation it does not know leaves the copy as it is, without error. */
  function Transform(p: Params, operation: string): (r: Params)
    requires CanTransform(p, operation)
    ensures operation != GetFileContents && operation != CreateRepository && operation != CreateOrUpdateFile
      ==> r == p
  {
    if operation == GetFileContents then FileContentsParams(p)
    else if operation == CreateRepository then RepositoryParams(p)
    else if operation == CreateOrUpdateFile then FileParams(p)
    else p
  }

  /** `transformParams(params, operation)`: copies the caller's object, then
      rewrites properties of the copy as the operation's case says. The
      caller's object is never changed, and the result is a new object. */
  method TransformParams(params: JsObject, operation: string) returns (transformed: JsObject)
    requires CanTransform(params.props, operation)
    ensures fresh(transformed)
    ensures params.props == old(params.props)
    ensures transformed.props == Transform(params.props, operation)
  {
    transformed := new JsObject(params.props);
    if operation == GetFileContents {
      RenameBranch(transformed, params.props);
    } else if operation == CreateRepository {
      RewriteForRepository(transformed, params.props);
    } else if operation == CreateOrUpdateFile {
      RewriteForFile(transformed, params.props);
    }
  }

  /** The get_file_contents case: assigns `ref` and deletes `branch`, one
      property at a time, when `branch` is truthy. */
  method RenameBranch(transformed: JsObject, p: Params)
    requires transformed.props == p
    modifies transformed
    ensures transformed.props == FileContentsParams(p)
  {
    if Truthy(Get(p, "branch")) {
      transformed.props := transformed.props["ref" := p["branch"]];
      transformed.props := transformed.props - {"branch"};
    }
  }

  /** The create_repository case, reading the caller's properties `p`. */
  method RewriteForRepository(transformed: JsObject, p: Params)
    requires transformed.props == p && Get(p, "name").Str?
    modifies transformed
    ensures transformed.props == RepositoryParams(p)
  {
    var name := p["name"];
    transformed.props := transformed.props["name" := name];
    transformed.props := transformed.props["path" := Str(Slug.Slug(name.s))];
    transformed.props := transformed.props["visibility" :=
      Str(if Truthy(Get(p, "private")) then "private" else "public")];
    if Truthy(Get(p, "description")) {
      transformed.props := transformed.props["description" := p["description"]];
    }
    if Truthy(Get(p, "autoInit")) {
      transformed.props := transformed.props["initialize_with_readme" := p["autoInit"]];
    }
    transformed.props := transformed.props - {"private"};
    transformed.props := transformed.props - {"autoInit"};
  }

  /** The create_or_update_file case, reading the caller's properties `p`. */
  method RewriteForFile(transformed: JsObject, p: Params)
    requires transformed.props == p && Get(p, "content").Str?
    modifies transformed
    ensures transformed.props == FileParams(p)
  {
    transformed.props := transformed.props["branch" := Get(p, "branch")];
    transformed.props := transformed.props["content" := Str(FileContent(p["content"].s))];
    transformed.props := transformed.props["commit_message" := Get(p, "message")];
    if Truthy(Get(p, "sha")) {
      transformed.props := transformed.props["last_commit_id" := p["sha"]];
    }
  }

  /** The file content GitLab receives decodes back to the caller's text, the
      empty text included. */
  lemma FileContentRoundTrip(p: Params)
    requires Get(p, "content").Str?
    ensures var c := Transform(p, CreateOrUpdateFile)["content"];
      c.Str? && Base64.Decode(c.s).Some? && Utf8.Decode(Base64.Decode(c.s).value) == Some(Get(p, "content").s)
  {
    var text := Get(p, "content").s;
    Base64.DecodeEncode(Utf8.Encode(text));
    Utf8.DecodeEncode(text);
  }

  /** Its length is four characters per started group of three octets. */
  lemma FileContentLength(text: string)
    ensures |FileContent(text)| == 4 * ((|Utf8.Encode(text)| + 2) / 3)
    ensures forall i :: 0 <= i < |FileContent(text)| ==>
      Base64.IsAlphabet(FileContent(text)[i]) || FileContent(text)[i] == Base64.Pad
  {
    Base64.EncodeAlphabet(Utf8.Encode(text));
  }

  /** Taking the slug of the `path` GitLab receives changes nothing, and the
      path holds no whitespace. */
  lemma RepositoryPathIsSlug(p: Params)
    requires Get(p, "name").Str?
    ensures var path := Transform(p, CreateRepository)["path"];
      path.Str? && Slug.HasNoWhitespace(path.s) && Slug.Slug(path.s) == path.s
  {
    Slug.SlugShape(Get(p, "name").s);
    Slug.SlugIdempotent(Get(p, "name").s);
  }

  /** `owner + '/' + repo`, the project's full path. */
  function ProjectPath(params: Params): string {
    ToJsString(Get(params, "owner")) + "/" + ToJsString(Get(params, "repo"))
  }

  /** The endpoint of a file in a project: both segments are percent-encoded
      on their own. */
  function FileEndpoint(project: string, file: string): string {
    "/projects/" + UriComponent.EncodeUriComponent(project) + "/repository/files/"
    + UriComponent.EncodeUriComponent(file)
  }

  /** `getEndpoint(operation, params)`. */
  function GetEndpoint(operation: string, params: Params): (r: Result<string>)
    ensures r.Ok? <==> operation == GetFileContents || operation == CreateRepository || operation == CreateOrUpdateFile
    ensures operation == CreateRepository ==> r == Ok("/projects")
    ensures operation == GetFileContents || operation == CreateOrUpdateFile ==>
      r == Ok(FileEndpoint(ProjectPath(params), ToJsString(Get(params, "path"))))
    ensures r.Err? ==> r.message == "Unsupported operation: " + operation
  {
    match operation
    case "get_file_contents" =>
      Ok("/projects/" + UriComponent.EncodeUriComponent(ToJsString(Get(params, "owner")) + "/" + ToJsString(Get(params, "repo")))
        + "/repository/files/" + UriComponent.EncodeUriComponent(ToJsString(Get(params, "path"))))
    case "create_repository" =>
      Ok("/projects")
    case "create_or_update_file" =>
      Ok("/projects/" + UriComponent.EncodeUriComponent(ToJsString(Get(params, "owner")) + "/" + ToJsString(Get(params, "repo")))
        + "/repository/files/" + UriComponent.EncodeUriComponent(ToJsString(Get(params, "path"))))
    case _ =>
      Err("Unsupported operation: " + operation)
  }

  /** Splits `s` before its first `/`. */
  function SplitAtSlash(s: string): (r: (string, string))
    ensures r.0 + r.1 == s
    ensures '/' !in r.0
    ensures r.1 == [] || r.1[0] == '/'
  {
    if s == [] || s[0] == '/' then ([], s)
    else
      var (a, b) := SplitAtSlash(s[1..]);
      ConsSplit(s, a, b);
      ([s[0]] + a, b)
  }

  /** A proof step of `SplitAtSlash`, kept apart from the recursion so that
      the verifier's work on it stays small. */
  lemma ConsSplit(s: string, a: string, b: string)
    requires s != [] && s[0] != '/' && '/' !in a
    requires a + b == s[1..]
    ensures ([s[0]] + a) + b == s
    ensures '/' !in [s[0]] + a
  {
    assert ([s[0]] + a) + b == [s[0]] + (a + b);
  }

  lemma {:induction false} SplitAtSlashOf(a: string, t: string)
    requires '/' !in a
    requires t == [] || t[0] == '/'
    ensures SplitAtSlash(a + t) == (a, t)
  {
    if a == [] {
      assert a + t == t;
    } else {
      assert (a + t)[1..] == a[1..] + t;
      SplitAtSlashOf(a[1..], t);
      assert [a[0]] + a[1..] == a;
    }
  }

  /** What follows `prefix` in `s`; `None` when `s` does not start with it. */
  function StripPrefix(prefix: string, s: string): (r: Option<string>)
    ensures r.Some? ==> s == prefix + r.value
  {
    if |s| >= |prefix| && s[..|prefix|] == prefix then Some(s[|prefix|..]) else None
  }

  lemma StripPrefixOf(prefix: string, t: string)
    ensures StripPrefix(prefix, prefix + t) == Some(t)
  {
    assert (prefix + t)[..|prefix|] == prefix;
    assert (prefix + t)[|prefix|..] == t;
  }

  /** Reads a file endpoint back into the project path and the file path it
      names; `None` for any other string. */
  function ParseFileEndpoint(e: string): Option<(string, string)> {
    match StripPrefix("/projects/", e)
    case None => None
    case Some(tail) =>
      var (project, rest) := SplitAtSlash(tail);
      match StripPrefix("/repository/files/", rest)
      case None => None
      case Some(file) =>
        if '/' in file then None
        else
          match (UriComponent.DecodeUriComponent(project), UriComponent.DecodeUriComponent(file))
          case (Some(a), Some(b)) => Some((a, b))
          case _ => None
  }

  lemma EncodedHasNoSlash(s: string)
    ensures '/' !in UriComponent.EncodeUriComponent(s)
  {
  }

  /** The segments of an endpoint are found again where they were put,
      provided neither holds a `/`. */
  lemma ParseSegments(a: string, b: string)
    requires '/' !in a && '/' !in b
    requires UriComponent.DecodeUriComponent(a).Some? && UriComponent.DecodeUriComponent(b).Some?
    ensures ParseFileEndpoint("/projects/" + (a + ("/repository/files/" + b)))
      == Some((UriComponent.DecodeUriComponent(a).value, UriComponent.DecodeUriComponent(b).value))
  {
    var infix := "/repository/files/";
    StripPrefixOf("/projects/", a + (infix + b));
    assert infix[0] == '/';
    SplitAtSlashOf(a, infix + b);
    StripPrefixOf(infix, b);
  }

  /** A file endpoint names its project and its file unambiguously: parsing
      it gives both back, whatever characters (`/` included) they hold. */
  lemma ParseFileEndpointOf(project: string, file: string)
    ensures ParseFileEndpoint(FileEndpoint(project, file)) == Some((project, file))
  {
    var a, b := UriComponent.EncodeUriComponent(project), UriComponent.EncodeUriComponent(file);
    assert FileEndpoint(project, file) == "/projects/" + (a + ("/repository/files/" + b));
    EncodedHasNoSlash(project);
    EncodedHasNoSlash(file);
    UriComponent.DecodeEncodeUriComponent(project);
    UriComponent.DecodeEncodeUriComponent(file);
    ParseSegments(a, b);
  }

  /** Both file operations address the same endpoint, from which the project
      path `owner/repo` and the file path can be read back. */
  lemma FileEndpointRoundTrip(operation: string, params: Params)
    requires operation == GetFileContents || operation == CreateOrUpdateFile
    ensures GetEndpoint(operation, params) == GetEndpoint(GetFileContents, params)
    ensures ParseFileEndpoint(GetEndpoint(operation, params).value)
      == Some((ProjectPath(params), ToJsString(Get(params, "path"))))
  {
    ParseFileEndpointOf(ProjectPath(params), ToJsString(Get(params, "path")));
  }
}
