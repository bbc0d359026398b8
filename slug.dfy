/** The repository path derived from a repository name:
    `name.toLowerCase().replace(/\s+/g, '-')`. */
module Slug {

  /** The characters ECMAScript's `\s` matches: WhiteSpace (tab, vertical
      tab, form feed, space, no-break space, zero-width no-break space and the
      Unicode space separators) and LineTerminator (line feed, carriage
      return, line and paragraph separators). */
  predicate IsWhitespace(c: char) {
    || c == '\t' || c == '\n' || c == '\U{B}' || c == '\U{C}' || c == '\r' || c == ' '
    || c == '\U{A0}' || c == '\U{1680}' || '\U{2000}' <= c <= '\U{200A}'
    || c == '\U{2028}' || c == '\U{2029}' || c == '\U{202F}' || c == '\U{205F}'
    || c == '\U{3000}' || c == '\U{FEFF}'
  }

  predicate HasNoWhitespace(s: string) {
    forall i :: 0 <= i < |s| ==> !IsWhitespace(s[i])
  }

  predicate IsAsciiUpper(c: char) {
    'A' <= c <= 'Z'
  }

  /** `toLowerCase` on one character, for the ASCII letters. */
  function LowerChar(c: char): (d: char)
    ensures !IsAsciiUpper(d)
    ensures IsWhitespace(d) == IsWhitespace(c)
  {
    if IsAsciiUpper(c) then (c as int - 'A' as int + 'a' as int) as char else c
  }

  /** `toLowerCase`, restricted to the ASCII letters. */
  function ToLowerCase(s: string): (r: string) {
    seq(|s|, i requires 0 <= i < |s| => LowerChar(s[i]))
  }

  /** Drops the run of whitespace at the front of `s`. */
  function SkipWhitespace(s: string): (r: string)
    ensures |r| <= |s|
    ensures s != [] && IsWhitespace(s[0]) ==> |r| < |s|
    ensures r == [] || !IsWhitespace(r[0])
  {
    if s != [] && IsWhitespace(s[0]) then SkipWhitespace(s[1..]) else s
  }

  lemma {:induction false} SkipWhitespaceSuffix(s: string)
    ensures SkipWhitespace(s) == s[|s| - |SkipWhitespace(s)|..]
  {
    if s != [] && IsWhitespace(s[0]) {
      SkipWhitespaceSuffix(s[1..]);
    }
  }

  /** `replace(/\s+/g, '-')`: each maximal run of whitespace becomes one `-`;
      every other character is kept, in order. */
  function ReplaceWhitespaceRuns(s: string): (r: string)
    ensures |r| <= |s|
    decreases |s|
  {
    if s == [] then []
    else if IsWhitespace(s[0]) then "-" + ReplaceWhitespaceRuns(SkipWhitespace(s))
    else [s[0]] + ReplaceWhitespaceRuns(s[1..])
  }

  /** The replacement leaves no whitespace behind. */
  lemma {:induction false} ReplaceLeavesNoWhitespace(s: string)
    ensures HasNoWhitespace(ReplaceWhitespaceRuns(s))
    decreases |s|
  {
    if s != [] {
      if IsWhitespace(s[0]) {
        ReplaceLeavesNoWhitespace(SkipWhitespace(s));
      } else {
        ReplaceLeavesNoWhitespace(s[1..]);
      }
    }
  }

  /** The path GitLab is given for a new repository named `name`. */
  function Slug(name: string): (r: string) {
    ReplaceWhitespaceRuns(ToLowerCase(name))
  }

  /** A string without whitespace is left as it is. */
  lemma {:induction false} ReplaceWithoutWhitespace(s: string)
    requires HasNoWhitespace(s)
    ensures ReplaceWhitespaceRuns(s) == s
  {
    if s != [] {
      ReplaceWithoutWhitespace(s[1..]);
      assert [s[0]] + s[1..] == s;
    }
  }

  /** Skipping whitespace at the front of `a + t` stays inside `a` when `a`
      holds a character that is not whitespace. */
  lemma {:induction false} SkipWhitespaceAppend(a: string, t: string)
    requires exists i :: 0 <= i < |a| && !IsWhitespace(a[i])
    ensures SkipWhitespace(a + t) == SkipWhitespace(a) + t
    ensures SkipWhitespace(a) != []
  {
    if IsWhitespace(a[0]) {
      assert (a + t)[1..] == a[1..] + t;
      var i :| 0 <= i < |a| && !IsWhitespace(a[i]);
      assert a[1..][i - 1] == a[i];
      SkipWhitespaceAppend(a[1..], t);
    }
  }

  /** A run of whitespace followed by a string that does not start with
      whitespace is skipped entirely. */
  lemma {:induction false} SkipWhitespaceRun(w: string, b: string)
    requires forall i :: 0 <= i < |w| ==> IsWhitespace(w[i])
    requires b == [] || !IsWhitespace(b[0])
    ensures SkipWhitespace(w + b) == b
  {
    if w == [] {
      assert w + b == b;
    } else {
      assert (w + b)[1..] == w[1..] + b;
      SkipWhitespaceRun(w[1..], b);
    }
  }

  predicate EndsWithNonWhitespace(a: string) {
    a != [] && !IsWhitespace(a[|a| - 1])
  }

  /** A whitespace run at the front becomes one `-`. */
  lemma ReplaceLeadingRun(w: string, b: string)
    requires w != [] && forall i :: 0 <= i < |w| ==> IsWhitespace(w[i])
    requires b == [] || !IsWhitespace(b[0])
    ensures ReplaceWhitespaceRuns(w + b) == "-" + ReplaceWhitespaceRuns(b)
  {
    SkipWhitespaceRun(w, b);
  }

  /** The step of `ReplaceRun` for a string that starts with whitespace, given
      the result for what follows its leading run. */
  lemma ReplaceRunSkip(a: string, u: string, y: string)
    requires a != [] && IsWhitespace(a[0]) && !IsWhitespace(a[|a| - 1])
    requires ReplaceWhitespaceRuns(SkipWhitespace(a) + u) == ReplaceWhitespaceRuns(SkipWhitespace(a)) + y
    ensures ReplaceWhitespaceRuns(a + u) == ReplaceWhitespaceRuns(a) + y
  {
    assert 0 <= |a| - 1 < |a| && !IsWhitespace(a[|a| - 1]);
    SkipWhitespaceAppend(a, u);
    var a' := SkipWhitespace(a);
    assert (a + u)[0] == a[0];
    assert ReplaceWhitespaceRuns(a + u) == "-" + ReplaceWhitespaceRuns(a' + u);
  }

  /** Skipping a leading run keeps the last character of a string that ends
      with a character that is not whitespace. */
  lemma SkipKeepsEnd(a: string)
    requires EndsWithNonWhitespace(a)
    ensures EndsWithNonWhitespace(SkipWhitespace(a))
  {
    var a' := SkipWhitespace(a);
    SkipWhitespaceAppend(a, []);
    SkipWhitespaceSuffix(a);
    assert a'[|a'| - 1] == a[|a| - 1];
  }

  lemma ReplaceCons(c: char, t: string)
    requires !IsWhitespace(c)
    ensures ReplaceWhitespaceRuns([c] + t) == [c] + ReplaceWhitespaceRuns(t)
  {
    assert ([c] + t)[1..] == t;
  }

  /** The step of `ReplaceRun` for a string that starts with a character that
      is not whitespace, given the result for the rest. */
  lemma ReplaceRunKeep(c: char, t: string, u: string, y: string)
    requires !IsWhitespace(c)
    requires ReplaceWhitespaceRuns(t + u) == ReplaceWhitespaceRuns(t) + y
    ensures ReplaceWhitespaceRuns([c] + (t + u)) == ReplaceWhitespaceRuns([c] + t) + y
  {
    ReplaceCons(c, t + u);
    ReplaceCons(c, t);
  }

  /** A proof step of `ReplaceRun`: regrouping `a + u` around the head of
      `a` is settled here, apart from the recursive functions, which keeps
      the verifier's work on `ReplaceRun` small. */
  lemma SplitHead(a: string, u: string)
    requires a != []
    ensures a == [a[0]] + a[1..]
    ensures a + u == [a[0]] + (a[1..] + u)
  {
  }

  /** The replacement is local to each run: in `a + w + b`, where `w` is a
      non-empty run of whitespace that `a` and `b` do not extend, the run
      becomes a single `-` between the replacements of `a` and `b`. With
      `ReplaceWithoutWhitespace` this determines the result on every string. */
  lemma {:induction false} ReplaceRun(a: string, w: string, b: string)
    requires a == [] || EndsWithNonWhitespace(a)
    requires w != [] && forall i :: 0 <= i < |w| ==> IsWhitespace(w[i])
    requires b == [] || !IsWhitespace(b[0])
    ensures ReplaceWhitespaceRuns(a + (w + b)) == ReplaceWhitespaceRuns(a) + ("-" + ReplaceWhitespaceRuns(b))
    decreases |a|
  {
    if a == [] {
      assert a + (w + b) == w + b;
      ReplaceLeadingRun(w, b);
    } else if !IsWhitespace(a[0]) {
      if |a| > 1 {
        assert a[1..][|a| - 2] == a[|a| - 1];
      }
      ReplaceRun(a[1..], w, b);
      SplitHead(a, w + b);
      ReplaceRunKeep(a[0], a[1..], w + b, "-" + ReplaceWhitespaceRuns(b));
    } else {
      SkipKeepsEnd(a);
      ReplaceRun(SkipWhitespace(a), w, b);
      ReplaceRunSkip(a, w + b, "-" + ReplaceWhitespaceRuns(b));
    }
  }

  lemma ToLowerCaseAppend(a: string, b: string)
    ensures ToLowerCase(a + b) == ToLowerCase(a) + ToLowerCase(b)
  {
  }

  predicate HasNoAsciiUpper(s: string) {
    forall i :: 0 <= i < |s| ==> !IsAsciiUpper(s[i])
  }

  /** The replacement introduces no upper-case letter. */
  lemma {:induction false} ReplaceKeepsLowerCase(s: string)
    requires HasNoAsciiUpper(s)
    ensures HasNoAsciiUpper(ReplaceWhitespaceRuns(s))
    decreases |s|
  {
    if s != [] {
      if IsWhitespace(s[0]) {
        var t := SkipWhitespace(s);
        SkipWhitespaceSuffix(s);
        assert forall i :: 0 <= i < |t| ==> t[i] == s[|s| - |t| + i];
        ReplaceKeepsLowerCase(t);
      } else {
        ReplaceKeepsLowerCase(s[1..]);
      }
    }
  }

  /** The slug never contains whitespace or an upper-case ASCII letter, and
      is no longer than the name. */
  lemma SlugShape(name: string)
    ensures HasNoWhitespace(Slug(name))
    ensures HasNoAsciiUpper(Slug(name))
    ensures |Slug(name)| <= |name|
  {
    ReplaceLeavesNoWhitespace(ToLowerCase(name));
    ReplaceKeepsLowerCase(ToLowerCase(name));
  }

  /** Taking the slug of a slug changes nothing. */
  lemma SlugIdempotent(name: string)
    ensures Slug(Slug(name)) == Slug(name)
  {
    var r := Slug(name);
    SlugShape(name);
    assert ToLowerCase(r) == r;
    ReplaceWithoutWhitespace(r);
  }

  /** A name without whitespace is only lower-cased. */
  lemma SlugWithoutWhitespace(name: string)
    requires HasNoWhitespace(name)
    ensures Slug(name) == ToLowerCase(name)
  {
    ReplaceWithoutWhitespace(ToLowerCase(name));
  }

  /** Lower-casing keeps the shape `ReplaceRun` asks for. */
  lemma LowerCaseRun(a: string, w: string, b: string)
    requires a == [] || EndsWithNonWhitespace(a)
    requires w != [] && forall i :: 0 <= i < |w| ==> IsWhitespace(w[i])
    requires b == [] || !IsWhitespace(b[0])
    ensures ToLowerCase(a + w + b) == ToLowerCase(a) + (ToLowerCase(w) + ToLowerCase(b))
    ensures ToLowerCase(a) == [] || EndsWithNonWhitespace(ToLowerCase(a))
    ensures ToLowerCase(w) != [] && forall i :: 0 <= i < |ToLowerCase(w)| ==> IsWhitespace(ToLowerCase(w)[i])
    ensures ToLowerCase(b) == [] || !IsWhitespace(ToLowerCase(b)[0])
  {
    ToLowerCaseAppend(a + w, b);
    ToLowerCaseAppend(a, w);
  }

  /** Each maximal whitespace run of the name becomes one `-` of the slug. */
  lemma SlugRun(a: string, w: string, b: string)
    requires a == [] || EndsWithNonWhitespace(a)
    requires w != [] && forall i :: 0 <= i < |w| ==> IsWhitespace(w[i])
    requires b == [] || !IsWhitespace(b[0])
    ensures Slug(a + w + b) == Slug(a) + "-" + Slug(b)
  {
    LowerCaseRun(a, w, b);
    ReplaceRun(ToLowerCase(a), ToLowerCase(w), ToLowerCase(b));
  }

  /** The name is passed in, rather than written in place, so that the
      verifier does not evaluate the slug on it character by character. */
  lemma SlugExample(name: string)
    requires name == "My Repo"
    ensures Slug(name) == "my-repo"
  {
    var a, w, b := name[..2], name[2..3], name[3..];
    assert a == "My" && w == " " && b == "Repo";
    assert name == a + w + b;
    SlugRun(a, w, b);
    SlugWithoutWhitespace(a);
    SlugWithoutWhitespace(b);
  }
}
