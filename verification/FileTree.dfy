/**
 A finite file tree with directories, files and symbolic links, and the kernel's
 pathname resolution over it (POSIX.1-2017 Base Definitions, section 4.13).

 A path is the list of its components below "/"; ".." is the only special
 component, since Rust's Path::components drops "." and repeated slashes.
 */
module FileTree {
  const UP := ".."
  const LINK_LIMIT: nat := 40 // symbolic links followed in one resolution

  type Path = seq<string>
  type Bytes = string // one char per byte

  datatype LinkTarget = LinkTarget(absolute: bool, components: Path)

  datatype Node =
    | Directory
    | File(contents: Bytes)
    | Link(target: LinkTarget)

  // The keys are canonical locations; the root is [].
  type Tree = map<Path, Node>

  predicate Plain(path: Path) {
    UP !in path
  }

  function Parent(path: Path): Path {
    if path == [] then [] else path[..|path| - 1]
  }

  predicate IsDirectory(tree: Tree, at: Path) {
    at in tree && tree[at] == Directory
  }

  predicate Hangs(tree: Tree, at: Path) {
    Plain(at) && IsDirectory(tree, Parent(at))
  }

  // Every entry hangs under directories, up to the root.
  ghost predicate WellFormed(tree: Tree) {
    && IsDirectory(tree, [])
    && forall at {:trigger Hangs(tree, at)} | at in tree :: Hangs(tree, at)
  }

  datatype Walked =
    | Found(at: Path, node: Node)
    | Missing       // ENOENT
    | NotADirectory // ENOTDIR
    | TooManyLinks  // ELOOP

  // Where a link's target is resolved from, when the link is an entry of `directory`.
  function Base(target: LinkTarget, directory: Path): Path {
    if target.absolute then [] else directory
  }

  // Resolves `rest` from the directory `at`, following at most `budget` links;
  // the last component is followed only if `follow`.
  function Walk(tree: Tree, at: Path, rest: Path, follow: bool, budget: nat): Walked
    decreases budget, |rest|
  {
    if rest == [] then
      if at in tree then Found(at, tree[at]) else Missing
    else if rest[0] == UP then
      Walk(tree, Parent(at), rest[1..], follow, budget)
    else
      var next := at + [rest[0]];
      if next !in tree then Missing
      else
        match tree[next]
        case Directory => Walk(tree, next, rest[1..], follow, budget)
        case File(_) => if |rest| == 1 then Found(next, tree[next]) else NotADirectory
        case Link(target) =>
          if |rest| == 1 && !follow then Found(next, tree[next])
          else if budget == 0 then TooManyLinks
          else Walk(tree, Base(target, at), target.components + rest[1..], follow, budget - 1)
  }

  // lstat(2), and realpath(3) with the entry it finds.
  function Lstat(tree: Tree, path: Path): Walked {
    Walk(tree, [], path, false, LINK_LIMIT)
  }

  function Canonicalize(tree: Tree, path: Path): Walked {
    Walk(tree, [], path, true, LINK_LIMIT)
  }

  datatype Destination =
    | Existing(at: Path)
    | Absent(at: Path)
    | Nowhere

  /** What open(2) with O_CREAT denotes: the existing file a path leads to through
      its links, or the place where the missing one would appear. Read left to
      right; once a component is missing, the rest must be plain names. */
  function Locate(tree: Tree, at: Path, rest: Path, budget: nat): Destination
    decreases budget, |rest|
  {
    if rest == [] then
      Existing(at)
    else if rest[0] == UP then
      Locate(tree, Parent(at), rest[1..], budget)
    else
      var next := at + [rest[0]];
      if next !in tree then
        if Plain(rest) then Absent(at + rest) else Nowhere
      else
        match tree[next]
        case Directory => Locate(tree, next, rest[1..], budget)
        case File(_) => if |rest| == 1 then Existing(next) else Nowhere
        case Link(target) =>
          if budget == 0 then Nowhere
          else Locate(tree, Base(target, at), target.components + rest[1..], budget - 1)
  }

  // No existing proper prefix of the path is anything but a directory.
  ghost predicate Direct(tree: Tree, path: Path) {
    && Plain(path)
    && forall k | 0 <= k < |path| && path[..k] in tree :: tree[path[..k]] == Directory
  }

  lemma ParentIsDirectory(tree: Tree, at: Path)
    requires WellFormed(tree) && IsDirectory(tree, at)
    ensures IsDirectory(tree, Parent(at))
  {
    assert Hangs(tree, at);
  }

  lemma {:induction false} PrefixesAreDirectories(tree: Tree, at: Path, k: nat)
    requires WellFormed(tree) && at in tree && k < |at|
    ensures IsDirectory(tree, at[..k])
    decreases |at|
  {
    assert Hangs(tree, at);
    if k < |at| - 1 {
      PrefixesAreDirectories(tree, Parent(at), k);
      assert Parent(at)[..k] == at[..k];
    }
  }

  // Nothing exists below a missing entry.
  lemma MissingBelow(tree: Tree, at: Path, k: nat)
    requires WellFormed(tree) && k <= |at| && at[..k] !in tree
    ensures at !in tree
  {
    assert k == |at| ==> at[..k] == at;
    if at in tree {
      PrefixesAreDirectories(tree, at, k);
    }
  }

  lemma ExistingIsDirect(tree: Tree, at: Path)
    requires WellFormed(tree) && at in tree
    ensures Direct(tree, at)
  {
    assert Hangs(tree, at);
    forall k | 0 <= k < |at| && at[..k] in tree
      ensures tree[at[..k]] == Directory
    {
      PrefixesAreDirectories(tree, at, k);
    }
  }

  lemma AppendToMissing(tree: Tree, at: Path, rest: Path)
    requires WellFormed(tree) && IsDirectory(tree, at) && rest != [] && Plain(rest)
    requires at + rest[..1] !in tree
    ensures Direct(tree, at + rest) && at + rest !in tree
  {
    var path := at + rest;
    assert Hangs(tree, at);
    forall k | |at| < k <= |path|
      ensures path[..k] !in tree
    {
      assert path[..k][..|at| + 1] == at + rest[..1];
      MissingBelow(tree, path[..k], |at| + 1);
    }
    assert path[..|path|] == path;
    forall k | 0 <= k < |path| && path[..k] in tree
      ensures tree[path[..k]] == Directory
    {
      assert path[..k] == at[..k];
      if k < |at| {
        PrefixesAreDirectories(tree, at, k);
      } else {
        assert at[..k] == at;
      }
    }
  }

  /** What `Locate` finds is link-free: an existing non-link, or a missing place
      whose existing prefixes are all directories. */
  lemma {:induction false} LocateIsDirect(tree: Tree, at: Path, rest: Path, budget: nat)
    requires WellFormed(tree) && IsDirectory(tree, at)
    ensures match Locate(tree, at, rest, budget)
      case Existing(to) => to in tree && !tree[to].Link? && Direct(tree, to)
      case Absent(to) => to !in tree && Direct(tree, to)
      case Nowhere => true
    decreases budget, |rest|
  {
    if rest == [] {
      ExistingIsDirect(tree, at);
    } else if rest[0] == UP {
      ParentIsDirectory(tree, at);
      LocateIsDirect(tree, Parent(at), rest[1..], budget);
    } else {
      var next := at + [rest[0]];
      if next !in tree {
        if Plain(rest) {
          assert rest[..1] == [rest[0]];
          AppendToMissing(tree, at, rest);
        }
      } else {
        ExistingIsDirect(tree, next);
        match tree[next]
        case Directory => LocateIsDirect(tree, next, rest[1..], budget);
        case File(_) =>
        case Link(target) =>
          if budget > 0 {
            LocateIsDirect(tree, Base(target, at), target.components + rest[1..], budget - 1);
          }
      }
    }
  }

  // A larger link budget never changes an answer.
  lemma {:induction false} LocateMonotone(tree: Tree, at: Path, rest: Path, small: nat, large: nat)
    requires small <= large && Locate(tree, at, rest, small) != Nowhere
    ensures Locate(tree, at, rest, large) == Locate(tree, at, rest, small)
    decreases small, |rest|
  {
    if rest != [] {
      if rest[0] == UP {
        LocateMonotone(tree, Parent(at), rest[1..], small, large);
      } else {
        var next := at + [rest[0]];
        if next in tree {
          match tree[next]
          case Directory => LocateMonotone(tree, next, rest[1..], small, large);
          case File(_) =>
          case Link(target) =>
            LocateMonotone(tree, Base(target, at), target.components + rest[1..], small - 1, large - 1);
        }
      }
    }
  }

  // Two budgets that both give an answer give the same one.
  lemma LocateDeterministic(tree: Tree, path: Path, b1: nat, b2: nat)
    requires Locate(tree, [], path, b1) != Nowhere && Locate(tree, [], path, b2) != Nowhere
    ensures Locate(tree, [], path, b1) == Locate(tree, [], path, b2)
  {
    if b1 <= b2 {
      LocateMonotone(tree, [], path, b1, b2);
    } else {
      LocateMonotone(tree, [], path, b2, b1);
    }
  }

  // realpath(3) succeeds exactly where `Locate` finds an existing entry.
  lemma {:induction false} LocateIsCanonical(tree: Tree, at: Path, rest: Path, budget: nat)
    requires WellFormed(tree) && IsDirectory(tree, at)
    ensures var walked := Walk(tree, at, rest, true, budget);
      match Locate(tree, at, rest, budget)
      case Existing(to) => to in tree && walked == Found(to, tree[to])
      case Absent(_) => walked == Missing
      case Nowhere => !walked.Found?
    decreases budget, |rest|
  {
    if rest != [] {
      if rest[0] == UP {
        ParentIsDirectory(tree, at);
        LocateIsCanonical(tree, Parent(at), rest[1..], budget);
      } else {
        var next := at + [rest[0]];
        if next in tree {
          match tree[next]
          case Directory => LocateIsCanonical(tree, next, rest[1..], budget);
          case File(_) =>
          case Link(target) =>
            if budget > 0 {
              LocateIsCanonical(tree, Base(target, at), target.components + rest[1..], budget - 1);
            }
        }
      }
    }
  }

  /** Resolving a longer path goes through what its prefix leads to: forwards ... */
  lemma {:induction false} LocateThrough(
    tree: Tree, at: Path, prefix: Path, rest: Path, budget: nat, restBudget: nat)
    requires Locate(tree, at, prefix, budget).Existing?
    requires IsDirectory(tree, Locate(tree, at, prefix, budget).at)
    requires Locate(tree, Locate(tree, at, prefix, budget).at, rest, restBudget) != Nowhere
    ensures Locate(tree, at, prefix + rest, budget + restBudget)
         == Locate(tree, Locate(tree, at, prefix, budget).at, rest, restBudget)
    decreases budget, |prefix|
  {
    if prefix == [] {
      assert prefix + rest == rest;
      LocateMonotone(tree, at, rest, restBudget, budget + restBudget);
    } else {
      var path := prefix + rest;
      assert path[0] == prefix[0] && path[1..] == prefix[1..] + rest;
      if prefix[0] == UP {
        LocateThrough(tree, Parent(at), prefix[1..], rest, budget, restBudget);
      } else {
        var next := at + [prefix[0]];
        match tree[next]
        case Directory => LocateThrough(tree, next, prefix[1..], rest, budget, restBudget);
        case Link(target) => LocateThroughLink(tree, at, prefix, rest, budget, restBudget, target);
      }
    }
  }

  lemma {:induction false} LocateThroughLink(
    tree: Tree, at: Path, prefix: Path, rest: Path, budget: nat, restBudget: nat, target: LinkTarget)
    requires prefix != [] && prefix[0] != UP
    requires at + [prefix[0]] in tree && tree[at + [prefix[0]]] == Link(target)
    requires Locate(tree, at, prefix, budget).Existing?
    requires IsDirectory(tree, Locate(tree, at, prefix, budget).at)
    requires Locate(tree, Locate(tree, at, prefix, budget).at, rest, restBudget) != Nowhere
    ensures Locate(tree, at, prefix + rest, budget + restBudget)
         == Locate(tree, Locate(tree, at, prefix, budget).at, rest, restBudget)
    decreases budget, 0
  {
    assert (prefix + rest)[1..] == prefix[1..] + rest;
    LocateThrough(tree, Base(target, at), target.components + prefix[1..], rest, budget - 1, restBudget);
    assert target.components + prefix[1..] + rest == target.components + (prefix[1..] + rest);
  }

  /** ... and backwards. */
  lemma {:induction false} LocateBack(
    tree: Tree, at: Path, prefix: Path, rest: Path, budget: nat, whole: nat)
    requires Locate(tree, at, prefix, budget).Existing?
    requires IsDirectory(tree, Locate(tree, at, prefix, budget).at)
    requires Locate(tree, at, prefix + rest, whole) != Nowhere
    ensures Locate(tree, Locate(tree, at, prefix, budget).at, rest, whole)
         == Locate(tree, at, prefix + rest, whole)
    decreases budget, |prefix|
  {
    if prefix == [] {
      assert prefix + rest == rest;
    } else {
      assert (prefix + rest)[1..] == prefix[1..] + rest;
      if prefix[0] == UP {
        LocateBack(tree, Parent(at), prefix[1..], rest, budget, whole);
      } else {
        var next := at + [prefix[0]];
        match tree[next]
        case Directory => LocateBack(tree, next, prefix[1..], rest, budget, whole);
        case Link(target) =>
          assert target.components + prefix[1..] + rest == target.components + (prefix[1..] + rest);
          LocateBack(tree, Base(target, at), target.components + prefix[1..], rest, budget - 1, whole - 1);
          LocateMonotone(tree, Locate(tree, at, prefix, budget).at, rest, whole - 1, whole);
      }
    }
  }

  // A missing prefix stays missing under further plain names.
  lemma {:induction false} LocateAbsentThrough(tree: Tree, at: Path, prefix: Path, rest: Path, budget: nat)
    requires Locate(tree, at, prefix, budget).Absent? && Plain(rest)
    ensures Locate(tree, at, prefix + rest, budget) == Absent(Locate(tree, at, prefix, budget).at + rest)
    decreases budget, |prefix|
  {
    assert prefix != [];
    assert (prefix + rest)[1..] == prefix[1..] + rest;
    if prefix[0] == UP {
      LocateAbsentThrough(tree, Parent(at), prefix[1..], rest, budget);
    } else {
      var next := at + [prefix[0]];
      if next !in tree {
        assert at + (prefix + rest) == at + prefix + rest;
      } else {
        match tree[next]
        case Directory => LocateAbsentThrough(tree, next, prefix[1..], rest, budget);
        case Link(target) =>
          LocateAbsentThrough(tree, Base(target, at), target.components + prefix[1..], rest, budget - 1);
          assert target.components + prefix[1..] + rest == target.components + (prefix[1..] + rest);
      }
    }
  }

  // Looking up one more name below what a prefix leads to.
  lemma {:induction false} WalkThrough(
    tree: Tree, at: Path, prefix: Path, name: string, budget: nat, whole: nat)
    requires WellFormed(tree) && IsDirectory(tree, at) && name != UP
    requires Locate(tree, at, prefix, budget).Existing?
    requires Walk(tree, at, prefix + [name], false, whole) != TooManyLinks
    ensures
      var to := Locate(tree, at, prefix, budget).at;
      var walked := Walk(tree, at, prefix + [name], false, whole);
      if IsDirectory(tree, to) then
        walked == if to + [name] in tree then Found(to + [name], tree[to + [name]]) else Missing
      else
        walked == NotADirectory
    decreases budget, |prefix|
  {
    if prefix != [] {
      assert (prefix + [name])[1..] == prefix[1..] + [name];
      if prefix[0] == UP {
        ParentIsDirectory(tree, at);
        WalkThrough(tree, Parent(at), prefix[1..], name, budget, whole);
      } else {
        var next := at + [prefix[0]];
        match tree[next]
        case Directory => WalkThrough(tree, next, prefix[1..], name, budget, whole);
        case File(_) =>
        case Link(target) =>
          assert target.components + prefix[1..] + [name] == target.components + (prefix[1..] + [name]);
          WalkThrough(tree, Base(target, at), target.components + prefix[1..], name, budget - 1, whole - 1);
      }
    } else {
      assert prefix + [name] == [name];
    }
  }

  // The entry lstat reports for a link sits in the directory its parent path leads to.
  lemma {:induction false} LinkParent(tree: Tree, at: Path, path: Path, budget: nat)
    requires WellFormed(tree) && IsDirectory(tree, at)
    requires Walk(tree, at, path, false, budget).Found? && Walk(tree, at, path, false, budget).node.Link?
    ensures path != [] && path[|path| - 1] != UP
    ensures
      var to := Walk(tree, at, path, false, budget).at;
      var up := Locate(tree, at, Parent(path), budget);
      up.Existing? && IsDirectory(tree, up.at) && to == up.at + [path[|path| - 1]] && to in tree
      && tree[to] == Walk(tree, at, path, false, budget).node
    decreases budget, |path|
  {
    assert path != [];
    if path[0] == UP {
      ParentIsDirectory(tree, at);
      LinkParent(tree, Parent(at), path[1..], budget);
      assert Parent(path)[1..] == Parent(path[1..]);
    } else {
      var next := at + [path[0]];
      match tree[next]
      case Directory =>
        LinkParent(tree, next, path[1..], budget);
        assert Parent(path)[1..] == Parent(path[1..]);
      case File(_) =>
      case Link(target) =>
        if |path| > 1 {
          assert Parent(target.components + path[1..]) == target.components + Parent(path[1..]);
          assert Parent(path)[1..] == Parent(path[1..]);
          LinkParent(tree, Base(target, at), target.components + path[1..], budget - 1);
        }
    }
  }

  // A direct path is where the kernel itself would look: no link takes part.
  lemma {:induction false} DirectWalk(tree: Tree, path: Path, k: nat, follow: bool, budget: nat)
    requires WellFormed(tree) && Direct(tree, path) && k <= |path| && IsDirectory(tree, path[..k])
    requires !follow || path !in tree || !tree[path].Link?
    ensures var walked := Walk(tree, path[..k], path[k..], follow, budget);
      (path in tree ==> walked == Found(path, tree[path])) && (path !in tree ==> walked == Missing)
    decreases |path| - k
  {
    if k == |path| {
      assert path[..k] == path;
    } else {
      assert path[..k] + [path[k]] == path[..k + 1];
      assert path[k..][1..] == path[k + 1..];
      if path[..k + 1] in tree {
        if k + 1 < |path| {
          DirectWalk(tree, path, k + 1, follow, budget);
        } else {
          assert path[..k + 1] == path && path[k + 1..] == [];
        }
      } else {
        MissingBelow(tree, path, k + 1);
      }
    }
  }

  // Likewise, creating a direct path creates it at that very place.
  lemma {:induction false} DirectLocate(tree: Tree, path: Path, k: nat)
    requires WellFormed(tree) && Direct(tree, path) && k <= |path| && IsDirectory(tree, path[..k])
    requires path !in tree || !tree[path].Link?
    ensures Locate(tree, path[..k], path[k..], 0) == if path in tree then Existing(path) else Absent(path)
    decreases |path| - k
  {
    if k == |path| {
      assert path[..k] == path;
    } else {
      assert path[..k] + [path[k]] == path[..k + 1];
      assert path[k..][1..] == path[k + 1..];
      if path[..k + 1] in tree {
        if k + 1 < |path| {
          DirectLocate(tree, path, k + 1);
        } else {
          assert path[..k + 1] == path;
        }
      } else {
        MissingBelow(tree, path, k + 1);
        assert path[..k] + path[k..] == path;
      }
    }
  }

  lemma DirectParent(tree: Tree, path: Path)
    requires Direct(tree, path)
    ensures Direct(tree, Parent(path))
    ensures path != [] && Parent(path) in tree ==> IsDirectory(tree, Parent(path))
  {
    if path != [] {
      assert path[..|path| - 1] == Parent(path);
      forall k | 0 <= k < |Parent(path)| && Parent(path)[..k] in tree
        ensures tree[Parent(path)[..k]] == Directory
      {
        assert Parent(path)[..k] == path[..k];
      }
    }
  }
}
