/** Example requests and what the adapter makes of them, derived from the
    model. */
module AdapterExamples {
  import opened Wrappers
  import opened JsValues
  import opened GitLabAdapter
  import Slug
  import UriComponent
  import Utf8
  import Base64
  import Bytes

  lemma BranchBecomesRef()
    ensures Transform(map["branch" := Str("main")], GetFileContents) == map["ref" := Str("main")]
    ensures "ref" !in Transform(map[], GetFileContents)
  {
  }

  lemma RepositoryExample()
    ensures Transform(map["name" := Str("My Repo"), "private" := Bool(true), "autoInit" := Bool(true)], CreateRepository)
      == map["name" := Str("My Repo"), "path" := Str("my-repo"), "visibility" := Str("private"),
             "initialize_with_readme" := Bool(true)]
  {
    Slug.SlugExample("My Repo");
  }

  lemma PublicRepositoryExample()
    ensures Transform(map["name" := Str("x"), "private" := Bool(false)], CreateRepository)["visibility"] == Str("public")
  {
  }

  lemma HelloBytes()
    ensures Utf8.Encode("hello") == [104, 101, 108, 108, 111]
  {
    Utf8.EncodeAscii("hello");
  }

  lemma HelloBase64()
    ensures Base64.Encode([104, 101, 108, 108, 111]) == "aGVsbG8="
  {
    var b: seq<Bytes.Byte> := [104, 101, 108, 108, 111];
    assert b[3..] == [108, 111];
    assert Base64.Quad(104, 101, 108) == "aGVs";
    assert Base64.Encode([108, 111]) == "bG8=";
  }

  lemma FileExample()
    ensures var r := Transform(map["branch" := Str("main"), "content" := Str("hello"), "message" := Str("add file"),
                                   "sha" := Str("abc123")], CreateOrUpdateFile);
      && r["branch"] == Str("main")
      && r["content"] == Str("aGVsbG8=")
      && r["commit_message"] == Str("add file")
      && r["last_commit_id"] == Str("abc123")
  {
    HelloBytes();
    HelloBase64();
  }

  lemma SlashEncoded()
    ensures UriComponent.EncodeUriComponent("/") == "%2F"
  {
    assert !UriComponent.IsUnreserved('/');
    assert Utf8.EncodeChar('/') == [47];
    assert UriComponent.EscapeAll([47]) == "%2F";
  }

  lemma EncodeAroundSlash(a: string, b: string)
    requires forall i :: 0 <= i < |a| ==> UriComponent.IsUnreserved(a[i])
    requires forall i :: 0 <= i < |b| ==> UriComponent.IsUnreserved(b[i])
    ensures UriComponent.EncodeUriComponent(a + "/" + b) == a + "%2F" + b
  {
    SlashEncoded();
    UriComponent.EncodeAppend(a + "/", b);
    UriComponent.EncodeAppend(a, "/");
    UriComponent.EncodeUnreserved(a);
    UriComponent.EncodeUnreserved(b);
  }

  lemma FileEndpointOfUnreserved(owner: string, repo: string, dir: string, file: string)
    requires forall i :: 0 <= i < |owner| ==> UriComponent.IsUnreserved(owner[i])
    requires forall i :: 0 <= i < |repo| ==> UriComponent.IsUnreserved(repo[i])
    requires forall i :: 0 <= i < |dir| ==> UriComponent.IsUnreserved(dir[i])
    requires forall i :: 0 <= i < |file| ==> UriComponent.IsUnreserved(file[i])
    ensures FileEndpoint(owner + "/" + repo, dir + "/" + file)
      == "/projects/" + (owner + "%2F" + repo) + "/repository/files/" + (dir + "%2F" + file)
  {
    EncodeAroundSlash(owner, repo);
    EncodeAroundSlash(dir, file);
  }

  /** A proof step of `ExampleFileEndpoint`: the literal concatenation is
      settled on its own, where it is cheap for the verifier. */
  lemma ExampleEndpointText()
    ensures "/projects/" + ("a" + "%2F" + "b") + "/repository/files/" + ("dir" + "%2F" + "f.txt")
      == "/projects/a%2Fb/repository/files/dir%2Ff.txt"
  {
  }

  /** The example's paths are passed in, rather than written in place, so
      that the verifier does not evaluate the encoder on them character by
      character. */
  lemma ExampleFileEndpoint(project: string, file: string)
    requires project == "a/b" && file == "dir/f.txt"
    ensures FileEndpoint(project, file) == "/projects/a%2Fb/repository/files/dir%2Ff.txt"
  {
    var owner, repo, dir, name := project[..1], project[2..], file[..3], file[4..];
    assert owner == "a" && repo == "b" && dir == "dir" && name == "f.txt";
    assert project == owner + "/" + repo;
    assert file == dir + "/" + name;
    FileEndpointOfUnreserved(owner, repo, dir, name);
    assert owner + "%2F" + repo == "a" + "%2F" + "b";
    assert dir + "%2F" + name == "dir" + "%2F" + "f.txt";
    ExampleEndpointText();
  }

  lemma FileEndpointExample()
    ensures GetEndpoint(GetFileContents, map["owner" := Str("a"), "repo" := Str("b"), "path" := Str("dir/f.txt")])
      == Ok("/projects/a%2Fb/repository/files/dir%2Ff.txt")
  {
    var p := map["owner" := Str("a"), "repo" := Str("b"), "path" := Str("dir/f.txt")];
    assert "a" + "/" + "b" == "a/b";
    assert ProjectPath(p) == "a/b" && ToJsString(Get(p, "path")) == "dir/f.txt";
    ExampleFileEndpoint(ProjectPath(p), ToJsString(Get(p, "path")));
  }

  lemma CreateRepositoryEndpoint()
    ensures GetEndpoint(CreateRepository, map[]) == Ok("/projects")
  {
  }

  lemma UnsupportedEndpoint()
    ensures GetEndpoint("delete_repository", map[]) == Err("Unsupported operation: delete_repository")
  {
    var op := "delete_repository";
    assert op[0] != GetFileContents[0] && op[0] != CreateRepository[0] && op[0] != CreateOrUpdateFile[0];
    assert "Unsupported operation: " + op == "Unsupported operation: delete_repository";
  }
}
