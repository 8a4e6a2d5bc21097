/** The in-memory filesystem of crates/vfs: a map from paths to nodes that always remains a tree. */
module FileSystems {
  import opened Wrappers
  import opened OrderedMaps
  import opened Paths

  // A file stands for its identity; its bytes and attributes are behind the handle.
  datatype Node = Directory | File(identity: nat)

  type Entries = seq<(string, Node)>

  datatype ErrorKind =
    InvalidInput | NotFound | NotADirectory | IsADirectory | AlreadyExists | PermissionDenied | DirectoryNotEmpty

  datatype DirEntry = DirEntry(name: string, node: Node)

  predicate IsDir(entries: Entries, path: string) { Find(entries, path) == Some(Directory) }

  predicate IsFile(entries: Entries, path: string) {
    Find(entries, path).Some? && Find(entries, path).value.File?
  }

  ghost predicate ParentsOk(entries: Entries, path: string) {
    forall a | Above(a, path) :: IsDir(entries, a)
  }

  /** Every path present is accepted and hangs, through directories only, from the root. */
  ghost predicate Tree(entries: Entries) {
    && Sorted(entries)
    && IsDir(entries, "")
    && forall p | Find(entries, p).Some? :: ValidPath(p) && ParentsOk(entries, p)
  }

  // No two paths name one file, and identities from `next` on are unused.
  ghost predicate Distinct(entries: Entries, next: nat) {
    && (forall p | IsFile(entries, p) :: Find(entries, p).value.identity < next)
    && forall p, q | IsFile(entries, p) && IsFile(entries, q) && p != q :: Find(entries, p) != Find(entries, q)
  }

  // ----- what opening a path may report before looking at the path itself

  function ParentError(entries: Entries, path: string, i: nat): Option<ErrorKind>
    requires i <= |path|
    decreases |path| - i
  {
    if i == |path| then None
    else if path[i] == '/' && !IsDir(entries, path[..i]) then
      Some(if IsFile(entries, path[..i]) then NotADirectory else NotFound)
    else ParentError(entries, path, i + 1)
  }

  function PathError(entries: Entries, path: string): Option<ErrorKind> {
    if !ValidPath(path) then Some(InvalidInput) else ParentError(entries, path, 0)
  }

  lemma {:induction false} ParentErrorNone(entries: Entries, path: string, i: nat)
    requires i <= |path|
    ensures ParentError(entries, path, i).None? <==> forall a | Above(a, path) && |a| >= i :: IsDir(entries, a)
    decreases |path| - i
  {
    if i < |path| {
      ParentErrorNone(entries, path, i + 1);
      forall a | Above(a, path) && |a| >= i ensures a == path[..|a|] && (|a| == i || |a| >= i + 1) {}
      if path[i] == '/' { assert Above(path[..i], path) && |path[..i]| >= i; }
    }
  }

  /** Opening gets as far as the path itself exactly when the path is accepted and all above it is directories. */
  lemma PathErrorNone(entries: Entries, path: string)
    ensures PathError(entries, path).None? <==> ValidPath(path) && ParentsOk(entries, path)
  {
    ParentErrorNone(entries, path, 0);
  }

  function Lookup(entries: Entries, path: string): Result<Node, ErrorKind> {
    if PathError(entries, path).Some? then Err(PathError(entries, path).value)
    else if Find(entries, path).None? then Err(NotFound)
    else Ok(Find(entries, path).value)
  }

  function ReadResult(entries: Entries, path: string): Result<seq<DirEntry>, ErrorKind> {
    match Lookup(entries, path)
    case Err(error) => Err(error)
    case Ok(node) => if node.Directory? then Ok(Listing(entries, path)) else Err(NotADirectory)
  }

  // Whether a new node may take `path`, and whether a file may.
  function Vacant(entries: Entries, path: string): Result<(), ErrorKind> {
    if PathError(entries, path).Some? then Err(PathError(entries, path).value)
    else if Find(entries, path).Some? then Err(AlreadyExists)
    else Ok(())
  }

  function Replaceable(entries: Entries, path: string): Result<(), ErrorKind> {
    if PathError(entries, path).Some? then Err(PathError(entries, path).value)
    else if IsDir(entries, path) then Err(IsADirectory)
    else Ok(())
  }

  lemma {:induction false} ParentErrorKind(entries: Entries, path: string, i: nat)
    requires Tree(entries) && i <= |path|
    requires forall a | Above(a, path) && |a| < i :: !IsFile(entries, a)
    ensures ParentError(entries, path, i).Some? ==>
              ParentError(entries, path, i).value ==
              if exists a :: Above(a, path) && IsFile(entries, a) then NotADirectory else NotFound
    decreases |path| - i
  {
    if i < |path| {
      var a := path[..i];
      forall b | Above(b, path) ensures b == path[..|b|] {}
      if path[i] == '/' && !IsDir(entries, a) {
        forall b | Above(b, path) && IsFile(entries, b) ensures |b| <= i {
          assert |b| > i ==> Above(a, b);
        }
        assert Above(a, path);
      } else {
        ParentErrorKind(entries, path, i + 1);
      }
    }
  }

  /** Looking up a path finds what is there, and otherwise tells apart exactly three reasons. */
  lemma LookupExact(entries: Entries, path: string)
    requires Tree(entries)
    ensures Lookup(entries, path).Ok? <==> Find(entries, path).Some?
    ensures Lookup(entries, path) ==
              if Find(entries, path).Some? then Ok(Find(entries, path).value)
              else if !ValidPath(path) then Err(InvalidInput)
              else if exists a :: Above(a, path) && IsFile(entries, a) then Err(NotADirectory)
              else Err(NotFound)
  {
    PathErrorNone(entries, path);
    ParentErrorKind(entries, path, 0);
  }

  /** Where a new node may go, and why not elsewhere. */
  lemma VacantExact(entries: Entries, path: string)
    requires Tree(entries)
    ensures Vacant(entries, path) ==
              if Find(entries, path).Some? then Err(AlreadyExists)
              else if !ValidPath(path) then Err(InvalidInput)
              else if exists a :: Above(a, path) && IsFile(entries, a) then Err(NotADirectory)
              else if exists a :: Above(a, path) && Find(entries, a).None? then Err(NotFound)
              else Ok(())
  {
    PathErrorNone(entries, path);
    ParentErrorKind(entries, path, 0);
  }

  /** Where a file may go in place of another. */
  lemma ReplaceableExact(entries: Entries, path: string)
    requires Tree(entries)
    ensures Replaceable(entries, path) ==
              if IsDir(entries, path) then Err(IsADirectory)
              else if !ValidPath(path) then Err(InvalidInput)
              else if exists a :: Above(a, path) && IsFile(entries, a) then Err(NotADirectory)
              else if exists a :: Above(a, path) && Find(entries, a).None? then Err(NotFound)
              else Ok(())
  {
    PathErrorNone(entries, path);
    ParentErrorKind(entries, path, 0);
  }

  // ----- changes that keep a tree a tree

  lemma InsertFinds(entries: Entries, path: string, node: Node)
    ensures forall p :: Find(Insert(entries, path, node), p) == if p == path then Some(node) else Find(entries, p)
  {
    forall p { InsertFind(entries, path, node, p); }
  }

  lemma DeleteFinds(entries: Entries, path: string)
    requires Sorted(entries)
    ensures forall p :: Find(Delete(entries, path), p) == if p == path then None else Find(entries, p)
  {
    forall p { DeleteFind(entries, path, p); }
  }

  lemma InsertKeepsTree(entries: Entries, path: string, node: Node)
    requires Tree(entries) && ValidPath(path) && ParentsOk(entries, path) && !IsDir(entries, path)
    ensures Tree(Insert(entries, path, node))
  {
    var after := Insert(entries, path, node);
    InsertSorted(entries, path, node, "");
    InsertFinds(entries, path, node);
  }

  // Nothing hangs from the path removed.
  lemma DeleteKeepsTree(entries: Entries, path: string)
    requires Tree(entries) && path != ""
    requires forall p | Find(entries, p).Some? :: !Above(path, p)
    ensures Tree(Delete(entries, path))
  {
    var after := Delete(entries, path);
    DeleteSorted(entries, path);
    DeleteFinds(entries, path);
  }

  lemma NothingBelowFile(entries: Entries, path: string)
    requires Tree(entries) && !IsDir(entries, path)
    ensures forall p | Find(entries, p).Some? :: !Above(path, p)
  {}

  lemma InsertKeepsDistinct(entries: Entries, path: string, next: nat)
    requires Distinct(entries, next)
    ensures Distinct(Insert(entries, path, File(next)), next + 1)
  {
    var after := Insert(entries, path, File(next));
    InsertFinds(entries, path, File(next));
  }

  lemma InsertDirectoryKeepsDistinct(entries: Entries, path: string, next: nat)
    requires Distinct(entries, next)
    ensures Distinct(Insert(entries, path, Directory), next)
  {
    var after := Insert(entries, path, Directory);
    InsertFinds(entries, path, Directory);
  }

  lemma DeleteKeepsDistinct(entries: Entries, path: string, next: nat)
    requires Sorted(entries) && Distinct(entries, next)
    ensures Distinct(Delete(entries, path), next)
  {
    var after := Delete(entries, path);
    DeleteFinds(entries, path);
  }

  // ----- listing a directory

  function Prefix(path: string): string { if path == "" then "" else path + "/" }

  predicate Immediate(prefix: string, key: string) {
    prefix <= key && key != prefix && '/' !in key[|prefix|..]
  }

  // The range from `prefix` on.
  function From(entries: Entries, prefix: string): Entries {
    if entries == [] || !Before(entries[0].0, prefix) then entries else From(entries[1..], prefix)
  }

  function TakeWhile(entries: Entries, prefix: string): Entries {
    if entries == [] || !(prefix <= entries[0].0) then [] else [entries[0]] + TakeWhile(entries[1..], prefix)
  }

  function Children(entries: Entries, prefix: string): seq<DirEntry>
    requires forall e <- entries :: prefix <= e.0
  {
    if entries == [] then []
    else
      var key := entries[0].0;
      var rest := Children(entries[1..], prefix);
      if Immediate(prefix, key) then [DirEntry(key[|prefix|..], entries[0].1)] + rest else rest
  }

  lemma {:induction false} TakeWhilePrefixed(entries: Entries, prefix: string)
    ensures forall e <- TakeWhile(entries, prefix) :: prefix <= e.0
    decreases |entries|
  {
    if entries != [] { TakeWhilePrefixed(entries[1..], prefix); }
  }

  function Listing(entries: Entries, path: string): seq<DirEntry> {
    var prefix := Prefix(path);
    TakeWhilePrefixed(From(entries, prefix), prefix);
    Children(TakeWhile(From(entries, prefix), prefix), prefix)
  }

  lemma {:induction false} FromKeeps(entries: Entries, prefix: string, key: string)
    requires Sorted(entries) && prefix <= key
    ensures Find(From(entries, prefix), key) == Find(entries, key)
    ensures Sorted(From(entries, prefix))
    ensures From(entries, prefix) != [] ==> !Before(From(entries, prefix)[0].0, prefix)
    decreases |entries|
  {
    if entries != [] && Before(entries[0].0, prefix) {
      TailSorted(entries);
      FromKeeps(entries[1..], prefix, key);
      PrefixFirst(prefix, key);
      BeforeTotal(entries[0].0, prefix);
      if entries[0].0 == key { BeforeTotal(key, prefix); }
    }
  }

  lemma {:induction false} TakeWhileKeeps(entries: Entries, prefix: string, key: string)
    requires Sorted(entries) && prefix <= key
    requires entries != [] ==> !Before(entries[0].0, prefix)
    ensures Find(TakeWhile(entries, prefix), key) == Find(entries, key)
    ensures Sorted(TakeWhile(entries, prefix))
    ensures forall e <- TakeWhile(entries, prefix) :: e in entries
    decreases |entries|
  {
    if entries != [] {
      var first := entries[0].0;
      TailSorted(entries);
      if prefix <= first {
        if |entries| > 1 {
          PrefixFirst(prefix, first);
          assert Before(first, entries[1..][0].0);
          if Before(entries[1].0, prefix) {
            if prefix != first { BeforeTransitive(first, entries[1].0, prefix); }
            BeforeTotal(prefix, first);
            BeforeTotal(prefix, entries[1].0);
          }
        }
        TakeWhileKeeps(entries[1..], prefix, key);
        var rest := TakeWhile(entries[1..], prefix);
        forall i | 0 <= i < |rest| ensures Before(first, rest[i].0) { assert rest[i] in entries[1..]; }
        ConsSorted(entries[0], rest);
        assert TakeWhile(entries, prefix)[1..] == rest;
      } else {
        forall i | 0 <= i < |entries| ensures entries[i].0 != key {
          if entries[i].0 == key && i > 0 {
            assert Before(first, entries[i].0);
            PrefixConvex(prefix, first, key);
          }
        }
        FindAbsent(entries, key);
      }
    }
  }

  lemma {:induction false} BeforeSuffix(prefix: string, a: string, b: string)
    requires prefix <= a && prefix <= b && Before(a, b)
    ensures Before(a[|prefix|..], b[|prefix|..])
    decreases |prefix|
  {
    if prefix == "" {
      assert a[0..] == a && b[0..] == b;
    } else {
      assert a[0] == b[0];
      BeforeSuffix(prefix[1..], a[1..], b[1..]);
      assert a[1..][|prefix| - 1..] == a[|prefix|..] && b[1..][|prefix| - 1..] == b[|prefix|..];
    }
  }

  ghost predicate Ascending(list: seq<DirEntry>) {
    forall i, j | 0 <= i < j < |list| :: Before(list[i].name, list[j].name)
  }

  lemma {:induction false} ChildrenOrdered(entries: Entries, prefix: string, below: string)
    requires Sorted(entries) && forall e <- entries :: prefix <= e.0
    ensures Ascending(Children(entries, prefix))
    ensures prefix <= below && (forall i | 0 <= i < |entries| :: Before(below, entries[i].0)) ==>
              forall c <- Children(entries, prefix) :: Before(below[|prefix|..], c.name)
    decreases |entries|
  {
    if entries != [] {
      var key := entries[0].0;
      TailSorted(entries);
      ChildrenOrdered(entries[1..], prefix, key);
      ChildrenOrdered(entries[1..], prefix, below);
      if prefix <= below && forall i | 0 <= i < |entries| :: Before(below, entries[i].0) {
        forall i | 0 <= i < |entries[1..]| ensures Before(below, entries[1..][i].0) {
          assert Before(below, entries[i + 1].0);
        }
        BeforeSuffix(prefix, below, key);
      }
    }
  }

  lemma {:induction false} ChildrenExact(entries: Entries, prefix: string, name: string, node: Node)
    requires Sorted(entries) && forall e <- entries :: prefix <= e.0
    ensures DirEntry(name, node) in Children(entries, prefix) <==>
              Find(entries, prefix + name) == Some(node) && Immediate(prefix, prefix + name)
    decreases |entries|
  {
    if entries != [] {
      var key := entries[0].0;
      TailSorted(entries);
      ChildrenExact(entries[1..], prefix, name, node);
      assert key == prefix + key[|prefix|..];
      if key == prefix + name {
        assert key[|prefix|..] == name;
        BelowAbsent(entries[1..], key);
      }
    }
  }

  /** A listing holds exactly the immediate children, each once, in the order of their names. */
  lemma ListingExact(entries: Entries, path: string, name: string, node: Node)
    requires Sorted(entries)
    ensures Ascending(Listing(entries, path))
    ensures DirEntry(name, node) in Listing(entries, path) <==>
              name != "" && '/' !in name && Find(entries, Prefix(path) + name) == Some(node)
  {
    var prefix := Prefix(path);
    var from := From(entries, prefix);
    TakeWhilePrefixed(from, prefix);
    FromKeeps(entries, prefix, prefix + name);
    TakeWhileKeeps(from, prefix, prefix + name);
    ChildrenOrdered(TakeWhile(from, prefix), prefix, "");
    ChildrenExact(TakeWhile(from, prefix), prefix, name, node);
    assert (prefix + name)[|prefix|..] == name;
  }

  // Something below a directory, at any depth, puts an immediate child into its listing.
  lemma ListedAbove(entries: Entries, path: string, p: string)
    requires Tree(entries) && path != "" && Find(entries, p).Some? && Above(path, p)
    ensures Listing(entries, path) != []
  {
    hide Listing, Find, Split;
    AboveValid(path, p);
    var rest := p[|path| + 1..];
    var name := Split(rest)[0];
    SplitFirst(rest);
    FirstPlain(rest);
    var child := Prefix(path) + name;
    assert p == Prefix(path) + rest && |child| == |path| + 1 + |name| && child == p[..|child|];
    assert child == p || Above(child, p) by { if |name| < |rest| { assert p[|child|] == rest[|name|]; } }
    ListingExact(entries, path, name, Find(entries, child).value);
  }

  /** An empty listing means that nothing at any depth lies below the directory. */
  lemma EmptyListing(entries: Entries, path: string)
    requires Tree(entries) && path != ""
    ensures Listing(entries, path) == [] <==> forall p | Find(entries, p).Some? :: !Above(path, p)
  {
    hide Listing, Find, ValidPath;
    forall p | Find(entries, p).Some? && Above(path, p) ensures Listing(entries, path) != [] {
      ListedAbove(entries, path, p);
    }
    if Listing(entries, path) != [] {
      var c := Listing(entries, path)[0];
      ListingExact(entries, path, c.name, c.node);
      assert c in Listing(entries, path);
      assert Find(entries, Prefix(path) + c.name).Some? && Above(path, Prefix(path) + c.name);
    }
  }

  // ----- creating a directory with its parents

  function AddDirectory(entries: Entries, path: string): Entries {
    if Find(entries, path).None? then Insert(entries, path, Directory) else entries
  }

  /** One directory for each of the first `n` characters of `path` that ends a component. */
  function WithDirectories(entries: Entries, path: string, n: nat): Entries
    requires n <= |path|
  {
    if n == 0 then entries
    else
      var before := WithDirectories(entries, path, n - 1);
      if n == |path| || path[n] == '/' then AddDirectory(before, path[..n]) else before
  }

  /** Nothing is added but the missing directories on the way, and nothing present changes. */
  lemma {:induction false} DirectoriesExact(entries: Entries, path: string, n: nat, p: string)
    requires n <= |path|
    ensures Find(WithDirectories(entries, path, n), p) ==
              if p != "" && Reaches(p, path) && |p| <= n && Find(entries, p).None? then Some(Directory)
              else Find(entries, p)
  {
    if n > 0 {
      var before := WithDirectories(entries, path, n - 1);
      DirectoriesExact(entries, path, n - 1, p);
      if n == |path| || path[n] == '/' {
        DirectoriesExact(entries, path, n - 1, path[..n]);
        InsertFind(before, path[..n], Directory, p);
      }
      assert p <= path ==> p == path[..|p|];
    }
  }

  lemma {:induction false} DirectoriesPresent(entries: Entries, path: string, n: nat)
    requires n <= |path|
    requires forall p | p != "" && Reaches(p, path) && |p| <= n :: Find(entries, p).Some?
    ensures WithDirectories(entries, path, n) == entries
  {
    if n > 0 {
      DirectoriesPresent(entries, path, n - 1);
      if n == |path| || path[n] == '/' { assert Reaches(path[..n], path) && |path[..n]| <= n; }
    }
  }

  // Between two separators nothing is added.
  lemma {:induction false} DirectoriesSkip(entries: Entries, path: string, m: nat, n: nat)
    requires m <= n < |path|
    requires forall i | m < i <= n :: path[i] != '/'
    ensures WithDirectories(entries, path, n) == WithDirectories(entries, path, m)
    decreases n
  {
    if m < n { DirectoriesSkip(entries, path, m, n - 1); }
  }

  ghost predicate FileOnTheWay(entries: Entries, path: string) {
    exists p :: Reaches(p, path) && IsFile(entries, p)
  }

  // What `create_dir_all` has still to go through below `directory`.
  function Rest(path: string, directory: string): string
    requires directory == "" || Above(directory, path)
  {
    if directory == "" then path else path[|directory| + 1..]
  }

  ghost predicate WayClear(entries: Entries, path: string, n: nat) {
    forall p | Reaches(p, path) && |p| <= n :: IsDir(entries, p)
  }

  function Extended(before: string, first: string): string {
    if before == "" then first else before + "/" + first
  }

  lemma RestSplits(path: string, before: string)
    requires path != "" && ValidPath(path) && (before == "" || Above(before, path))
    ensures Rest(path, before) != "" && ValidPath(Rest(path, before))
  {
    if before != "" { AboveValid(before, path); }
  }

  // The next component extends the directory to the next separator or the end.
  lemma NextReaches(path: string, before: string, first: string)
    requires path != "" && (before == "" || Above(before, path))
    requires first != "" && Reaches(first, Rest(path, before)) && '/' !in first
    ensures |before| < |Extended(before, first)| <= |path|
    ensures Reaches(Extended(before, first), path)
    ensures |first| == |Rest(path, before)| <==> Extended(before, first) == path
    ensures |first| < |Rest(path, before)| ==>
              Rest(path, before)[|first| + 1..] == path[|Extended(before, first)| + 1..]
    ensures forall i | |before| < i < |Extended(before, first)| :: path[i] != '/'
  {
    var rest, after := Rest(path, before), Extended(before, first);
    if before != "" {
      assert path == before + "/" + rest;
      assert after == path[..|after|];
      assert path[|after|..] == rest[|first|..];
      forall i | |before| < i < |after| ensures path[i] != '/' {
        assert path[i] == first[i - |before| - 1];
      }
      if |first| < |rest| {
        assert rest[|first| + 1..] == path[|after| + 1..];
        assert path[|after|] == path[|after|..][0] == rest[|first|..][0];
      }
    }
  }

  lemma NextDirectory(path: string, before: string, pending: seq<string>, after: string)
    requires path != "" && ValidPath(path) && (before == "" || Above(before, path))
    requires pending == Split(Rest(path, before)) && after == Extended(before, pending[0])
    ensures |before| < |after| <= |path| && Reaches(after, path) && ValidPath(after)
    ensures pending[1..] == [] ==> after == path
    ensures pending[1..] != [] ==> Above(after, path) && pending[1..] == Split(Rest(path, after))
    ensures forall i | |before| < i < |after| :: path[i] != '/'
  {
    hide Split, Plain, ValidPath, Rest, Extended;
    var rest, first := Rest(path, before), pending[0];
    RestSplits(path, before);
    SplitFirst(rest);
    FirstPlain(rest);
    NextReaches(path, before, first);
    if |first| < |rest| {
      AboveValid(after, path);
      RestBelow(path, after);
    }
  }

  lemma WayStarts(entries: Entries, path: string)
    requires Tree(entries)
    ensures entries == WithDirectories(entries, path, 0) && WayClear(entries, path, 0) && !FileOnTheWay(entries, "")
  {
    forall p | Reaches(p, path) && |p| <= 0 ensures IsDir(entries, p) { assert p == ""; }
    forall p | Reaches(p, "") ensures !IsFile(entries, p) { assert p == ""; }
  }

  lemma RestBelow(path: string, directory: string)
    requires directory != "" && Above(directory, path)
    ensures Rest(path, directory) == path[|directory| + 1..]
  {}

  lemma FirstPlain(path: string)
    requires path != "" && ValidPath(path)
    ensures Split(path)[0] != ""
  {
    assert Split(path)[0] in Split(path);
  }

  lemma WithStep(entries: Entries, path: string, n: nat)
    requires 0 < n <= |path| && (n == |path| || path[n] == '/')
    ensures WithDirectories(entries, path, n) == AddDirectory(WithDirectories(entries, path, n - 1), path[..n])
  {}

  lemma WithNext(entries: Entries, path: string, before: string, after: string)
    requires |before| < |after| <= |path| && Reaches(after, path)
    requires forall i | |before| < i < |after| :: path[i] != '/'
    ensures WithDirectories(entries, path, |after|) == AddDirectory(WithDirectories(entries, path, |before|), after)
  {
    hide WithDirectories, AddDirectory;
    WithStep(entries, path, |after|);
    DirectoriesSkip(entries, path, |before|, |after| - 1);
    assert after == path[..|after|];
  }

  lemma DirectoriesFind(entries: Entries, path: string, n: nat)
    requires n <= |path|
    ensures forall p :: Find(WithDirectories(entries, path, n), p) ==
              if p != "" && Reaches(p, path) && |p| <= n && Find(entries, p).None? then Some(Directory)
              else Find(entries, p)
  {
    forall p { DirectoriesExact(entries, path, n, p); }
  }

  lemma WayOk(entries: Entries, path: string, before: string, after: string)
    requires |before| < |after| <= |path| && Reaches(after, path)
    requires forall i | |before| < i < |after| :: path[i] != '/'
    requires WayClear(entries, path, |before|)
    ensures ParentsOk(entries, after)
    ensures forall p | Reaches(p, path) && |before| < |p| <= |after| :: p == after
  {
    assert after == path[..|after|];
    forall a | Above(a, after) ensures IsDir(entries, a) {
      assert a == path[..|a|] && path[|a|] == '/';
      assert Reaches(a, path) && |a| <= |before|;
    }
    forall p | Reaches(p, path) && |before| < |p| <= |after| ensures p == after {
      assert p == path[..|p|];
    }
  }

  lemma OnlyExists(entries: Entries, path: string)
    requires ValidPath(path) && ParentsOk(entries, path)
    ensures Vacant(entries, path) == if Find(entries, path).Some? then Err(AlreadyExists) else Ok(())
  {
    PathErrorNone(entries, path);
  }

  lemma WayGrows(
      was: Entries, there: Entries, entries: Entries, path: string, before: string, after: string)
    requires |before| < |after| <= |path| && Reaches(after, path)
    requires forall i | |before| < i < |after| :: path[i] != '/'
    requires there == WithDirectories(was, path, |before|) && WayClear(there, path, |before|)
    requires entries == AddDirectory(there, after) && IsDir(entries, after)
    ensures entries == WithDirectories(was, path, |after|) && WayClear(entries, path, |after|)
  {
    hide Find, Insert, WithDirectories;
    WithNext(was, path, before, after);
    WayOk(there, path, before, after);
    InsertFinds(there, after, Directory);
  }

  // A file on the way means that nothing above it was missing.
  lemma FileStops(was: Entries, entries: Entries, path: string, before: string, after: string)
    requires Tree(entries) && |before| < |after| <= |path| && Reaches(after, path)
    requires entries == WithDirectories(was, path, |before|)
    requires Tree(was) && IsFile(entries, after)
    ensures FileOnTheWay(was, path) && entries == was
  {
    hide Find, WithDirectories;
    DirectoriesFind(was, path, |before|);
    assert after == path[..|after|];
    forall p | p != "" && Reaches(p, path) && |p| <= |before| ensures Find(was, p).Some? {
      assert p == path[..|p|] && Above(p, after);
    }
    DirectoriesPresent(was, path, |before|);
  }

  lemma WayEnds(was: Entries, entries: Entries, path: string)
    requires entries == WithDirectories(was, path, |path|) && WayClear(entries, path, |path|)
    ensures !FileOnTheWay(was, path)
    ensures forall p :: Find(entries, p) ==
              if Reaches(p, path) && Find(was, p).None? && p != "" then Some(Directory) else Find(was, p)
  {
    hide Find, WithDirectories;
    DirectoriesFind(was, path, |path|);
  }

  class MemoryFileSystem {
    var entries: Entries
    // The next file allocated; stands for the host allocator.
    var next: nat

    ghost predicate Valid() reads this { Tree(entries) && Distinct(entries, next) }

    constructor ()
      ensures Valid()
      ensures forall p :: Find(entries, p) == if p == "" then Some(Directory) else None
    {
      entries := [("", Directory)];
      next := 0;
      new;
      forall p ensures Find(entries, p) == if p == "" then Some(Directory) else None {}
    }

    // The loop over separators of every operation that takes a path.
    method RequireParents(path: string) returns (error: Option<ErrorKind>)
      ensures error == ParentError(entries, path, 0)
    {
      var i := 0;
      while i < |path|
        invariant i <= |path|
        invariant ParentError(entries, path, 0) == ParentError(entries, path, i)
      {
        if path[i] == '/' {
          var node := Find(entries, path[..i]);
          if node.None? { return Some(NotFound); }
          if node.value.File? { return Some(NotADirectory); }
        }
        i := i + 1;
      }
      return None;
    }

    method Metadata(path: string) returns (r: Result<Node, ErrorKind>)
      ensures r == Lookup(entries, path)
    {
      if !ValidPath(path) { return Err(InvalidInput); }
      var error := RequireParents(path);
      if error.Some? { return Err(error.value); }
      match Find(entries, path) {
        case Some(node) => return Ok(node);
        case None => return Err(NotFound);
      }
    }

    method ReadDir(path: string) returns (r: Result<seq<DirEntry>, ErrorKind>)
      ensures r == ReadResult(entries, path)
    {
      var node := Metadata(path);
      if node.Err? { return Err(node.error); }
      if !node.value.Directory? { return Err(NotADirectory); }
      return Ok(Listing(entries, path));
    }

    method CreateNew(path: string) returns (r: Result<nat, ErrorKind>)
      requires Valid()
      modifies this
      ensures Valid()
      ensures r == if Vacant(old(entries), path).Ok? then Ok(old(next)) else Err(Vacant(old(entries), path).error)
      ensures forall p :: Find(entries, p) ==
                if r.Ok? && p == path then Some(File(r.value)) else Find(old(entries), p)
    {
      if !ValidPath(path) { return Err(InvalidInput); }
      var error := RequireParents(path);
      PathErrorNone(entries, path);
      if error.Some? { return Err(error.value); }
      if Find(entries, path).Some? { return Err(AlreadyExists); }
      InsertKeepsTree(entries, path, File(next));
      InsertKeepsDistinct(entries, path, next);
      InsertFinds(entries, path, File(next));
      entries := Insert(entries, path, File(next));
      next := next + 1;
      return Ok(next - 1);
    }

    method CreateDir(path: string) returns (r: Result<(), ErrorKind>)
      requires Valid()
      modifies this
      ensures Valid() && next == old(next)
      ensures r == Vacant(old(entries), path)
      ensures entries == if r.Ok? then Insert(old(entries), path, Directory) else old(entries)
      ensures forall p :: Find(entries, p) ==
                if r.Ok? && p == path then Some(Directory) else Find(old(entries), p)
    {
      if !ValidPath(path) { return Err(InvalidInput); }
      var error := RequireParents(path);
      PathErrorNone(entries, path);
      if error.Some? { return Err(error.value); }
      if Find(entries, path).Some? { return Err(AlreadyExists); }
      InsertKeepsTree(entries, path, Directory);
      InsertDirectoryKeepsDistinct(entries, path, next);
      InsertFinds(entries, path, Directory);
      entries := Insert(entries, path, Directory);
      return Ok(());
    }

    /** Adds exactly the missing directories on the way, or nothing when a file stands in it. */
    method CreateDirAll(path: string) returns (r: Result<(), ErrorKind>)
      requires Valid()
      modifies this
      ensures Valid() && next == old(next)
      ensures r == if !ValidPath(path) then Err(InvalidInput)
                   else if FileOnTheWay(old(entries), path) then Err(NotADirectory)
                   else Ok(())
      ensures forall p :: Find(entries, p) ==
                if r.Ok? && Reaches(p, path) && Find(old(entries), p).None? && p != "" then Some(Directory)
                else Find(old(entries), p)
    {
      hide Tree, Distinct, ParentsOk, ValidPath, WithDirectories, Split, Insert, Find, PathError;
      hide WayClear, FileOnTheWay, Vacant;
      WayStarts(entries, path);
      if !ValidPath(path) { return Err(InvalidInput); }
      if path == "" { return Ok(()); }
      ghost var was := entries;
      var directory, pending := "", Split(path);
      while pending != []
        invariant Valid() && next == old(next)
        invariant |directory| <= |path| && directory == path[..|directory|]
        invariant pending == [] ==> |directory| == |path|
        invariant pending != [] ==>
          (directory == "" || Above(directory, path)) && pending == Split(Rest(path, directory))
        invariant entries == WithDirectories(was, path, |directory|)
        invariant WayClear(entries, path, |directory|)
        decreases |pending|
      {
        ghost var before, there := directory, entries;
        if directory != "" { directory := directory + "/"; }
        directory := directory + pending[0];
        NextDirectory(path, before, pending, directory);
        WayOk(entries, path, before, directory);
        OnlyExists(entries, directory);
        var made := CreateDir(directory);
        if made.Err? {
          // Nothing else can come back from a directory whose parents were just made.
          assert made.error == AlreadyExists;
          if !IsDir(entries, directory) {
            FileStops(was, entries, path, before, directory);
            return Err(NotADirectory);
          }
        }
        WayGrows(was, there, entries, path, before, directory);
        pending := pending[1..];
      }
      WayEnds(was, entries, path);
      return Ok(());
    }

    method RemoveFile(path: string) returns (r: Result<(), ErrorKind>)
      requires Valid()
      modifies this
      ensures Valid() && next == old(next)
      ensures r == match Lookup(old(entries), path)
                   case Err(error) => Err(error)
                   case Ok(Directory) => Err(IsADirectory)
                   case Ok(_) => Ok(())
      ensures forall p :: Find(entries, p) == if r.Ok? && p == path then None else Find(old(entries), p)
    {
      if !ValidPath(path) { return Err(InvalidInput); }
      var error := RequireParents(path);
      if error.Some? { return Err(error.value); }
      var node := Find(entries, path);
      if node.None? { return Err(NotFound); }
      if node.value.Directory? { return Err(IsADirectory); }
      NothingBelowFile(entries, path);
      DeleteKeepsTree(entries, path);
      DeleteKeepsDistinct(entries, path, next);
      DeleteFinds(entries, path);
      entries := Delete(entries, path);
      return Ok(());
    }

    /** Moves a file's identity, dropping whatever file stood at the destination. */
    method RenameFile(from: string, target: string) returns (r: Result<(), ErrorKind>)
      requires Valid()
      modifies this
      ensures Valid() && next == old(next)
      ensures r == match Lookup(old(entries), from)
                   case Err(error) => Err(error)
                   case Ok(Directory) => Err(IsADirectory)
                   case Ok(_) => Replaceable(old(entries), target)
      ensures forall p :: Find(entries, p) ==
                if r.Err? then Find(old(entries), p)
                else if p == target then Find(old(entries), from)
                else if p == from then None
                else Find(old(entries), p)
    {
      var node := Metadata(from);
      if node.Err? { return Err(node.error); }
      if node.value.Directory? { return Err(IsADirectory); }
      if !ValidPath(target) { return Err(InvalidInput); }
      var error := RequireParents(target);
      PathErrorNone(entries, target);
      if error.Some? { return Err(error.value); }
      if IsDir(entries, target) { return Err(IsADirectory); }
      ghost var was := entries;
      NothingBelowFile(entries, from);
      DeleteKeepsTree(entries, from);
      DeleteKeepsDistinct(entries, from, next);
      DeleteFinds(entries, from);
      entries := Delete(entries, from);
      InsertKeepsTree(entries, target, node.value);
      InsertFinds(entries, target, node.value);
      entries := Insert(entries, target, node.value);
      return Ok(());
    }

    /** Succeeds exactly on a directory below which nothing exists at any depth. */
    method RemoveDir(path: string) returns (r: Result<(), ErrorKind>)
      requires Valid()
      modifies this
      ensures Valid() && next == old(next)
      ensures r.Ok? <==>
                path != "" && IsDir(old(entries), path) && forall p | Find(old(entries), p).Some? :: !Above(path, p)
      ensures r.Err? ==> r.error == if path == "" then PermissionDenied
                                    else if ReadResult(old(entries), path).Err? then
                                      ReadResult(old(entries), path).error
                                    else DirectoryNotEmpty
      ensures forall p :: Find(entries, p) == if r.Ok? && p == path then None else Find(old(entries), p)
    {
      if path == "" { return Err(PermissionDenied); }
      var children := ReadDir(path);
      LookupExact(entries, path);
      EmptyListing(entries, path);
      if children.Err? { return Err(children.error); }
      if children.value != [] { return Err(DirectoryNotEmpty); }
      DeleteKeepsTree(entries, path);
      DeleteKeepsDistinct(entries, path, next);
      DeleteFinds(entries, path);
      entries := Delete(entries, path);
      return Ok(());
    }

    /** Gives the path a file of its own; handles to the file it named before keep theirs. */
    method ReplaceFile(path: string) returns (r: Result<nat, ErrorKind>)
      requires Valid()
      modifies this
      ensures Valid()
      ensures r == if Replaceable(old(entries), path).Ok? then Ok(old(next))
                   else Err(Replaceable(old(entries), path).error)
      ensures r.Ok? ==> forall p :: Find(old(entries), p) != Some(File(r.value))
      ensures forall p :: Find(entries, p) ==
                if r.Ok? && p == path then Some(File(r.value)) else Find(old(entries), p)
    {
      if !ValidPath(path) { return Err(InvalidInput); }
      var error := RequireParents(path);
      PathErrorNone(entries, path);
      if error.Some? { return Err(error.value); }
      if IsDir(entries, path) { return Err(IsADirectory); }
      InsertKeepsTree(entries, path, File(next));
      InsertKeepsDistinct(entries, path, next);
      InsertFinds(entries, path, File(next));
      entries := Insert(entries, path, File(next));
      next := next + 1;
      return Ok(next - 1);
    }
  }
}
