/** Slash-separated paths of crates/vfs: their components, their ancestors, and which are accepted. */
module Paths {

  function Split(path: string): (parts: seq<string>)
    ensures |parts| > 0
  {
    if path == "" then [""]
    else Onto(path[0], Split(path[1..]))
  }

  // A character in front of the first component, or a separator before it.
  function Onto(c: char, parts: seq<string>): (all: seq<string>)
    requires |parts| > 0
    ensures |all| > 0
  {
    if c == '/' then [""] + parts else [[c] + parts[0]] + parts[1..]
  }

  predicate Plain(part: string) {
    part != "" && part != "." && part != ".." && '\0' !in part
  }

  predicate ValidPath(path: string) {
    path == "" || forall part <- Split(path) :: Plain(part)
  }

  // `path` cut at one of its separators, or whole.
  predicate Reaches(ancestor: string, path: string) {
    ancestor <= path && (|ancestor| == |path| || path[|ancestor|] == '/')
  }

  predicate Above(ancestor: string, path: string) {
    ancestor < path && path[|ancestor|] == '/'
  }

  lemma {:induction false} SplitPlain(path: string)
    requires '/' !in path
    ensures Split(path) == [path]
    decreases |path|
  {
    if path != "" {
      SplitPlain(path[1..]);
      assert path == [path[0]] + path[1..];
    }
  }

  lemma SplitStep(path: string)
    requires path != ""
    ensures Split(path) == Onto(path[0], Split(path[1..]))
  {}

  lemma OntoJoin(c: char, left: seq<string>, right: seq<string>)
    requires |left| > 0
    ensures Onto(c, left + right) == Onto(c, left) + right
  {
    assert (left + right)[0] == left[0] && (left + right)[1..] == left[1..] + right;
  }

  /** Splitting takes a path apart exactly at a separator. */
  lemma {:induction false} SplitJoin(left: string, right: string)
    ensures Split(left + "/" + right) == Split(left) + Split(right)
    decreases |left|
  {
    hide Split;
    var whole := left + "/" + right;
    SplitStep(whole);
    if left == "" {
      assert whole[1..] == right;
      SplitPlain("");
    } else {
      SplitStep(left);
      SplitJoin(left[1..], right);
      assert whole[1..] == left[1..] + "/" + right;
      OntoJoin(left[0], Split(left[1..]), Split(right));
    }
  }

  /** The first component is what stands before the first separator. */
  lemma {:induction false} SplitFirst(path: string)
    ensures var first := Split(path)[0];
      && Reaches(first, path) && '/' !in first
      && (|first| == |path| ==> Split(path) == [path])
      && (|first| < |path| ==> Split(path) == [first] + Split(path[|first| + 1..]))
    decreases |path|
  {
    hide Split;
    if path == "" {
      SplitPlain(path);
    } else {
      SplitStep(path);
      if path[0] != '/' {
        SplitFirst(path[1..]);
        var parts, rest := Split(path), Split(path[1..]);
        assert path == [path[0]] + path[1..];
        assert parts[0] == [path[0]] + rest[0] && parts[1..] == rest[1..];
        assert |rest[0]| < |path| - 1 ==> path[1..][|rest[0]| + 1..] == path[|parts[0]| + 1..];
      }
    }
  }

  /** Every ancestor of an accepted path is a nonempty accepted path, and so is what follows it. */
  lemma AboveValid(ancestor: string, path: string)
    requires ValidPath(path) && Above(ancestor, path)
    ensures ValidPath(ancestor) && ancestor != ""
    ensures path[|ancestor| + 1..] != "" && ValidPath(path[|ancestor| + 1..])
  {
    var rest := path[|ancestor| + 1..];
    assert path == ancestor + "/" + rest;
    SplitJoin(ancestor, rest);
    assert Plain(Split(path)[0]) && Plain(Split(path)[|Split(ancestor)|]) by {
      assert Split(path)[0] in Split(path) && Split(path)[|Split(ancestor)|] in Split(path);
    }
    assert Split("") == [""];
  }

  /** Which names are accepted: neither empty, nor a dot, nor two, and without a zero character. */
  lemma NameValid(name: string)
    requires '/' !in name && name != ""
    ensures ValidPath(name) <==> name != "." && name != ".." && '\0' !in name
  {
    SplitPlain(name);
    assert name in Split(name);
  }

  /** And which paths: the root, names, and accepted paths with one separator between them. */
  lemma PathsCompose(left: string, right: string)
    ensures ValidPath(left + "/" + right) <==> left != "" && right != "" && ValidPath(left) && ValidPath(right)
  {
    SplitJoin(left, right);
    var parts := Split(left + "/" + right);
    assert forall part :: part in parts <==> part in Split(left) || part in Split(right);
    assert Split("") == [""] && "" in Split("");
  }
}
