/**
 The supervisor's path resolver: where a root-relative path may be read, written
 or created, and why that place is inside the root.
 */
module PathResolver {
  import opened Wrappers
  import opened ExecutionErrors
  import opened FileTree

  datatype RootEntry = RootEntry(canonicalPath: Path, readOnly: bool)

  datatype SupervisorRoot = SupervisorRoot(id: string, nameIsBlank: bool, path: Path, readOnly: bool)

  datatype ExecutionPath = ExecutionPath(rootId: string, path: string)

  type Roots = map<string, RootEntry>

  type Resolved = Result<Path, ErrorCode>

  // ---------- validated paths ----------

  // str::split: the pieces between separators, at least one.
  function Split(s: string, separator: char): (pieces: seq<string>)
    ensures pieces != []
    ensures forall piece | piece in pieces :: separator !in piece
  {
    if s == "" then [""]
    else
      var rest := Split(s[1..], separator);
      if s[0] == separator then [""] + rest
      else [[s[0]] + rest[0]] + rest[1..]
  }

  predicate ValidPath(path: string) {
    && path != ""
    && '\0' !in path
    && path[0] != '/' && path[0] != '\\'
    && '\\' !in path
    && !(|path| >= 2 && path[1] == ':')
    && (path != "." ==>
          && path[|path| - 1] != '/'
          && forall segment | segment in Split(path, '/') ::
               segment != "" && segment != "." && segment != UP)
  }

  function Components(path: string): Path {
    if path == "." then [] else Split(path, '/')
  }

  // The native path to look up, with its root.
  function Candidate(roots: Roots, spec: ExecutionPath): Result<(Path, RootEntry), ErrorCode> {
    if !ValidPath(spec.path) then Failure(InvalidPath)
    else if spec.rootId !in roots then Failure(RootNotFound)
    else
      var root := roots[spec.rootId];
      Success((root.canonicalPath + Components(spec.path), root))
  }

  function IoError(walked: Walked): ErrorCode {
    if walked == Missing then NotFound else Io
  }

  function EnsureContained(path: Path, boundary: Path): Resolved {
    if boundary <= path then Success(path) else Failure(PathOutsideRoot)
  }

  function CanonicalOrError(tree: Tree, path: Path): Resolved {
    match Canonicalize(tree, path)
    case Found(at, _) => Success(at)
    case failed => Failure(IoError(failed))
  }

  // The canonical parent, checked, with the candidate's own last name.
  function BesideCanonicalParent(tree: Tree, candidate: Path, boundary: Path): Resolved {
    if candidate == [] then Failure(InvalidPath)
    else
      match CanonicalOrError(tree, Parent(candidate))
      case Failure(code) => Failure(code)
      case Success(parent) =>
        if !(boundary <= parent) then Failure(PathOutsideRoot)
        else if candidate[|candidate| - 1] == UP then Failure(InvalidPath)
        else Success(parent + [candidate[|candidate| - 1]])
  }

  function ResolveExisting(tree: Tree, roots: Roots, spec: ExecutionPath, follow: bool): Resolved {
    match Candidate(roots, spec)
    case Failure(code) => Failure(code)
    case Success((candidate, root)) =>
      var boundary := root.canonicalPath;
      if follow || candidate == boundary then
        match CanonicalOrError(tree, candidate)
        case Failure(code) => Failure(code)
        case Success(path) => EnsureContained(path, boundary)
      else
        match BesideCanonicalParent(tree, candidate, boundary)
        case Failure(code) => Failure(code)
        case Success(path) =>
          var there := Lstat(tree, path);
          if !there.Found? then Failure(IoError(there))
          else EnsureContained(path, boundary)
  }

  function ResolveForWrite(tree: Tree, roots: Roots, spec: ExecutionPath, follow: bool): Resolved {
    match Candidate(roots, spec)
    case Failure(code) => Failure(code)
    case Success((candidate, root)) =>
      var boundary := root.canonicalPath;
      if root.readOnly then Failure(ReadOnlyRoot)
      else
        var resolved :=
          match Lstat(tree, candidate)
          case Found(_, _) =>
            if follow then CanonicalOrError(tree, candidate)
            else BesideCanonicalParent(tree, candidate, boundary)
          case Missing => ThroughExistingAncestor(tree, candidate, boundary)
          case failed => Failure(IoError(failed));
        match resolved
        case Failure(code) => Failure(code)
        case Success(path) => EnsureContained(path, boundary)
  }

  function ResolveForInPlaceWrite(tree: Tree, roots: Roots, spec: ExecutionPath): Resolved {
    match Candidate(roots, spec)
    case Failure(code) => Failure(code)
    case Success((candidate, root)) =>
      if root.readOnly then Failure(ReadOnlyRoot)
      else ResolveForCreation(tree, candidate, root.canonicalPath, 0)
  }

  // The logical spelling, once its eventual target is known to be inside.
  function ResolveForDirectoryCreation(tree: Tree, roots: Roots, spec: ExecutionPath): Resolved {
    match ResolveForInPlaceWrite(tree, roots, spec)
    case Failure(code) => Failure(code)
    case Success(_) =>
      match Candidate(roots, spec)
      case Failure(code) => Failure(code)
      case Success((candidate, _)) => Success(candidate)
  }

  // What `ResolveThroughExistingAncestor` computes, as a recursion on the candidate.
  function ThroughExistingAncestor(tree: Tree, candidate: Path, boundary: Path): Resolved
    decreases |candidate|
  {
    if Lstat(tree, candidate).Found? then
      match CanonicalOrError(tree, candidate)
      case Failure(code) => Failure(code)
      case Success(path) => EnsureContained(path, boundary)
    else if candidate == [] || candidate[|candidate| - 1] == UP then
      Failure(InvalidPath)
    else
      match ThroughExistingAncestor(tree, Parent(candidate), boundary)
      case Failure(code) => Failure(code)
      case Success(path) => Success(path + [candidate[|candidate| - 1]])
  }

  /** Climbs to the nearest ancestor that exists, then puts the missing names back. */
  method ResolveThroughExistingAncestor(tree: Tree, candidate: Path, boundary: Path) returns (r: Resolved)
    ensures r == ThroughExistingAncestor(tree, candidate, boundary)
  {
    var ancestor := candidate;
    var missing: seq<string> := [];
    while !Lstat(tree, ancestor).Found?
      invariant ThroughExistingAncestor(tree, candidate, boundary)
             == Extend(ThroughExistingAncestor(tree, ancestor, boundary), missing)
      decreases |ancestor|
    {
      if ancestor == [] || ancestor[|ancestor| - 1] == UP {
        return Failure(InvalidPath);
      }
      missing := missing + [ancestor[|ancestor| - 1]];
      ExtendOnce(ThroughExistingAncestor(tree, Parent(ancestor), boundary), missing);
      ancestor := Parent(ancestor);
    }
    var canonical := CanonicalOrError(tree, ancestor);
    if canonical.Failure? || !(boundary <= canonical.value) {
      return if canonical.Failure? then canonical else Failure(PathOutsideRoot);
    }
    var resolved := canonical.value;
    while missing != []
      invariant ThroughExistingAncestor(tree, candidate, boundary) == Extend(Success(resolved), missing)
      decreases |missing|
    {
      resolved := resolved + [missing[|missing| - 1]];
      missing := missing[..|missing| - 1];
    }
    return Success(resolved);
  }

  // Appends names collected leaf first.
  function Extend(resolved: Resolved, missing: seq<string>): Resolved
    decreases |missing|
  {
    if resolved.Failure? || missing == [] then resolved
    else Extend(Success(resolved.value + [missing[|missing| - 1]]), missing[..|missing| - 1])
  }

  lemma ExtendOnce(resolved: Resolved, missing: seq<string>)
    requires missing != []
    ensures resolved.Success? ==>
      Extend(resolved, missing)
      == Extend(Success(resolved.value + [missing[|missing| - 1]]), missing[..|missing| - 1])
  {}

  /** Follows a link at the end of the candidate to wherever it points, existing or
      not. */
  function ResolveForCreation(tree: Tree, candidate: Path, boundary: Path, links: nat): Resolved
    decreases LINK_LIMIT + 1 - links, |candidate|
  {
    if links > LINK_LIMIT then Failure(InvalidPath)
    else
      var resolved :=
        match Lstat(tree, candidate)
        case Found(_, Link(target)) =>
          if !target.absolute && candidate == [] then Failure(InvalidPath)
          else ResolveForCreation(tree, Base(target, Parent(candidate)) + target.components, boundary, links + 1)
        case Found(_, _) => CanonicalOrError(tree, candidate)
        case Missing =>
          if candidate == [] || candidate[|candidate| - 1] == UP then Failure(InvalidPath)
          else
            (match ResolveForCreation(tree, Parent(candidate), boundary, links)
             case Failure(code) => Failure(code)
             case Success(parent) => Success(parent + [candidate[|candidate| - 1]]))
        case failed => Failure(IoError(failed));
      match resolved
      case Failure(code) => Failure(code)
      case Success(path) => EnsureContained(path, boundary)
  }

  // ---------- what the resolved path denotes ----------

  // The path leads to `to`, whatever the number of links on the way.
  ghost predicate LeadsTo(tree: Tree, path: Path, to: Destination) {
    to != Nowhere && exists budget: nat :: Locate(tree, [], path, budget) == to
  }

  function Place(tree: Tree, at: Path): Destination {
    if at in tree then Existing(at) else Absent(at)
  }

  lemma LeadsToOnce(tree: Tree, path: Path, d1: Destination, d2: Destination)
    requires LeadsTo(tree, path, d1) && LeadsTo(tree, path, d2)
    ensures d1 == d2
  {
    var b1: nat :| Locate(tree, [], path, b1) == d1;
    var b2: nat :| Locate(tree, [], path, b2) == d2;
    LocateDeterministic(tree, path, b1, b2);
  }

  lemma CanonicalLeadsTo(tree: Tree, path: Path)
    requires WellFormed(tree) && Canonicalize(tree, path).Found?
    ensures Canonicalize(tree, path).at in tree
    ensures LeadsTo(tree, path, Existing(Canonicalize(tree, path).at))
  {
    LocateIsCanonical(tree, [], path, LINK_LIMIT);
  }

  // One name further, below what the parent leads to.
  lemma ChildLeadsTo(tree: Tree, candidate: Path, up: Destination)
    requires WellFormed(tree) && candidate != [] && candidate[|candidate| - 1] != UP
    requires Lstat(tree, candidate) == Missing
    requires LeadsTo(tree, Parent(candidate), up)
    ensures LeadsTo(tree, candidate, Absent(up.at + [candidate[|candidate| - 1]]))
    ensures up.at + [candidate[|candidate| - 1]] !in tree
  {
    var name := candidate[|candidate| - 1];
    assert candidate == Parent(candidate) + [name];
    var budget: nat :| Locate(tree, [], Parent(candidate), budget) == up;
    if up.Existing? {
      WalkThrough(tree, [], Parent(candidate), name, budget, LINK_LIMIT);
      LocateThrough(tree, [], Parent(candidate), [name], budget, 0);
      assert Locate(tree, [], candidate, budget + 0) == Absent(up.at + [name]);
    } else {
      LocateAbsentThrough(tree, [], Parent(candidate), [name], budget);
      assert Locate(tree, [], candidate, budget) == Absent(up.at + [name]);
    }
    var whole: nat :| Locate(tree, [], candidate, whole) == Absent(up.at + [name]);
    LocateIsDirect(tree, [], candidate, whole);
  }

  // A link leads where its target leads.
  lemma LinkLeadsTo(tree: Tree, candidate: Path, target: LinkTarget, to: Destination)
    requires WellFormed(tree)
    requires Lstat(tree, candidate).Found? && Lstat(tree, candidate).node == Link(target)
    requires LeadsTo(tree, Base(target, Parent(candidate)) + target.components, to)
    ensures candidate != [] && LeadsTo(tree, candidate, to)
  {
    LinkParent(tree, [], candidate, LINK_LIMIT);
    var name := candidate[|candidate| - 1];
    assert candidate == Parent(candidate) + [name];
    var directory := Locate(tree, [], Parent(candidate), LINK_LIMIT).at;
    var next := Base(target, Parent(candidate)) + target.components;
    var budget: nat :| Locate(tree, [], next, budget) == to;
    if target.absolute {
      assert next == target.components;
    } else {
      LocateBack(tree, [], Parent(candidate), target.components, LINK_LIMIT, budget);
    }
    assert target.components + [name][1..] == target.components;
    assert Locate(tree, directory, [name], budget + 1) == to;
    LocateThrough(tree, [], Parent(candidate), [name], LINK_LIMIT, budget + 1);
    assert Locate(tree, [], candidate, LINK_LIMIT + (budget + 1)) == to;
  }

  /** Soundness: what is returned is inside the boundary and is exactly the file
      the candidate denotes, or the place where it would be created. */
  lemma {:induction false} CreationIsSound(tree: Tree, candidate: Path, boundary: Path, links: nat)
    requires WellFormed(tree)
    ensures match ResolveForCreation(tree, candidate, boundary, links)
      case Success(path) => boundary <= path && LeadsTo(tree, candidate, Place(tree, path))
      case Failure(_) => true
    decreases LINK_LIMIT + 1 - links, |candidate|
  {
    if ResolveForCreation(tree, candidate, boundary, links).Success? {
      match Lstat(tree, candidate)
      case Found(_, Link(target)) =>
        var next := Base(target, Parent(candidate)) + target.components;
        CreationIsSound(tree, next, boundary, links + 1);
        var path := ResolveForCreation(tree, next, boundary, links + 1).value;
        LinkLeadsTo(tree, candidate, target, Place(tree, path));
      case Found(_, _) =>
        CanonicalLeadsTo(tree, candidate);
      case Missing =>
        CreationIsSound(tree, Parent(candidate), boundary, links);
        var path := ResolveForCreation(tree, Parent(candidate), boundary, links).value;
        ChildLeadsTo(tree, candidate, Place(tree, path));
    }
  }

  // A link found by lstat costs one unit of budget.
  lemma {:induction false} LinkCosts(tree: Tree, at: Path, path: Path, budget: nat)
    requires WellFormed(tree) && IsDirectory(tree, at)
    requires Walk(tree, at, path, false, budget).Found? && Walk(tree, at, path, false, budget).node.Link?
    requires Locate(tree, at, path, budget) != Nowhere
    ensures budget > 0
    ensures var target := Walk(tree, at, path, false, budget).node.target;
      Locate(tree, at, path, budget)
      == if target.absolute then Locate(tree, [], target.components, budget - 1)
         else Locate(tree, at, Parent(path) + target.components, budget - 1)
    decreases budget, |path|
  {
    var link := Walk(tree, at, path, false, budget).node.target;
    if path[0] == UP {
      ParentIsDirectory(tree, at);
      LinkCosts(tree, Parent(at), path[1..], budget);
      assert (Parent(path) + link.components)[1..] == Parent(path[1..]) + link.components;
    } else {
      var next := at + [path[0]];
      match tree[next]
      case Directory =>
        LinkCosts(tree, next, path[1..], budget);
        assert (Parent(path) + link.components)[1..] == Parent(path[1..]) + link.components;
      case File(_) =>
      case Link(target) =>
        if |path| == 1 {
          assert target.components + path[1..] == target.components;
          assert Parent(path) + target.components == target.components;
        } else {
          var expanded := target.components + path[1..];
          assert Parent(expanded) == target.components + Parent(path[1..]);
          LinkCosts(tree, Base(target, at), expanded, budget - 1);
          assert (Parent(path) + link.components)[1..] == Parent(path[1..]) + link.components;
          assert Parent(expanded) + link.components == target.components + (Parent(path[1..]) + link.components);
          if link.absolute {
            LocateMonotone(tree, [], link.components, budget - 2, budget - 1);
          }
        }
    }
  }

  // What lstat misses, `Locate` places next to where it places the parent.
  lemma {:induction false} MissingCosts(tree: Tree, at: Path, path: Path, budget: nat)
    requires WellFormed(tree) && IsDirectory(tree, at)
    requires Walk(tree, at, path, false, budget) == Missing
    requires Locate(tree, at, path, budget) != Nowhere
    ensures path != [] && path[|path| - 1] != UP
    ensures
      var up := Locate(tree, at, Parent(path), budget);
      up != Nowhere && Locate(tree, at, path, budget) == Absent(up.at + [path[|path| - 1]])
    decreases budget, |path|
  {
    if path[0] == UP {
      ParentIsDirectory(tree, at);
      assert Parent(path)[1..] == Parent(path[1..]);
      MissingCosts(tree, Parent(at), path[1..], budget);
    } else {
      var next := at + [path[0]];
      if next !in tree {
        assert path == Parent(path) + [path[|path| - 1]];
        assert at + path == at + Parent(path) + [path[|path| - 1]];
      } else {
        match tree[next]
        case Directory =>
          assert |path| > 1 ==> Parent(path)[1..] == Parent(path[1..]);
          MissingCosts(tree, next, path[1..], budget);
        case Link(target) =>
          var expanded := target.components + path[1..];
          assert Parent(expanded) == target.components + Parent(path[1..]);
          assert Parent(path)[1..] == Parent(path[1..]);
          MissingCosts(tree, Base(target, at), expanded, budget - 1);
      }
    }
  }

  lemma {:induction false} WalkMonotone(tree: Tree, at: Path, rest: Path, follow: bool, small: nat, large: nat)
    requires small <= large && Walk(tree, at, rest, follow, small) != TooManyLinks
    ensures Walk(tree, at, rest, follow, large) == Walk(tree, at, rest, follow, small)
    decreases small, |rest|
  {
    if rest != [] {
      if rest[0] == UP {
        WalkMonotone(tree, Parent(at), rest[1..], follow, small, large);
      } else {
        var next := at + [rest[0]];
        if next in tree {
          match tree[next]
          case Directory => WalkMonotone(tree, next, rest[1..], follow, small, large);
          case File(_) =>
          case Link(target) =>
            if |rest| > 1 || follow {
              WalkMonotone(tree, Base(target, at), target.components + rest[1..], follow, small - 1, large - 1);
            }
        }
      }
    }
  }

  // lstat agrees with `Locate` on everything but a final link.
  lemma {:induction false} LstatOfLocated(tree: Tree, at: Path, rest: Path, budget: nat)
    requires WellFormed(tree) && IsDirectory(tree, at)
    requires Locate(tree, at, rest, budget) != Nowhere
    ensures var walked := Walk(tree, at, rest, false, budget);
      || walked == Missing
      || (walked.Found? && (walked.node.Link? || Locate(tree, at, rest, budget) == Existing(walked.at)))
    decreases budget, |rest|
  {
    if rest != [] {
      if rest[0] == UP {
        ParentIsDirectory(tree, at);
        LstatOfLocated(tree, Parent(at), rest[1..], budget);
      } else {
        var next := at + [rest[0]];
        if next in tree {
          match tree[next]
          case Directory => LstatOfLocated(tree, next, rest[1..], budget);
          case File(_) =>
          case Link(target) =>
            if |rest| > 1 {
              LstatOfLocated(tree, Base(target, at), target.components + rest[1..], budget - 1);
            }
        }
      }
    }
  }

  /** Completeness: whatever can be located inside the boundary with the kernel's
      link limit is returned. */
  lemma {:induction false} CreationIsComplete(
    tree: Tree, candidate: Path, boundary: Path, links: nat, budget: nat)
    requires WellFormed(tree) && IsDirectory(tree, boundary)
    requires links + budget <= LINK_LIMIT
    requires Locate(tree, [], candidate, budget) != Nowhere
    requires boundary <= Locate(tree, [], candidate, budget).at
    ensures ResolveForCreation(tree, candidate, boundary, links)
         == Success(Locate(tree, [], candidate, budget).at)
    decreases LINK_LIMIT + 1 - links, |candidate|
  {
    var to := Locate(tree, [], candidate, budget);
    LstatOfLocated(tree, [], candidate, budget);
    WalkMonotone(tree, [], candidate, false, budget, LINK_LIMIT);
    match Lstat(tree, candidate)
    case Found(_, Link(target)) =>
      LinkParent(tree, [], candidate, budget);
      LinkCosts(tree, [], candidate, budget);
      var next := Base(target, Parent(candidate)) + target.components;
      assert target.absolute ==> next == target.components;
      CreationIsComplete(tree, next, boundary, links + 1, budget - 1);
    case Found(_, _) =>
      LocateIsCanonical(tree, [], candidate, budget);
      WalkMonotone(tree, [], candidate, true, budget, LINK_LIMIT);
    case Missing =>
      MissingCosts(tree, [], candidate, budget);
      LocateIsDirect(tree, [], candidate, budget);
      var up := Locate(tree, [], Parent(candidate), budget);
      assert boundary != to.at;
      assert boundary <= up.at;
      CreationIsComplete(tree, Parent(candidate), boundary, links, budget);
  }

  /** The write path resolution is exact. */
  lemma CreationIsExact(tree: Tree, candidate: Path, boundary: Path)
    requires WellFormed(tree) && IsDirectory(tree, boundary)
    ensures match ResolveForCreation(tree, candidate, boundary, 0)
      case Success(path) =>
        && boundary <= path && Direct(tree, path)
        && (path in tree ==> !tree[path].Link? && LeadsTo(tree, candidate, Existing(path)))
        && (path !in tree ==> LeadsTo(tree, candidate, Absent(path)))
      case Failure(_) =>
        var to := Locate(tree, [], candidate, LINK_LIMIT);
        to == Nowhere || !(boundary <= to.at)
    ensures var canonical := Canonicalize(tree, candidate);
      canonical.Found? && boundary <= canonical.at ==>
      ResolveForCreation(tree, candidate, boundary, 0) == Success(canonical.at)
  {
    match ResolveForCreation(tree, candidate, boundary, 0) {
      case Success(path) =>
        CreationIsSound(tree, candidate, boundary, 0);
        var budget: nat :| Locate(tree, [], candidate, budget) == Place(tree, path);
        LocateIsDirect(tree, [], candidate, budget);
      case Failure(_) =>
    }
    LocateIsCanonical(tree, [], candidate, LINK_LIMIT);
    if Locate(tree, [], candidate, LINK_LIMIT) != Nowhere
       && boundary <= Locate(tree, [], candidate, LINK_LIMIT).at {
      CreationIsComplete(tree, candidate, boundary, 0, LINK_LIMIT);
    }
  }

  // ---------- the other resolvers ----------

  // lstat of a parent can fail only in a way lstat of the child fails too.
  lemma {:induction false} ParentOfMissing(tree: Tree, at: Path, path: Path, budget: nat)
    requires WellFormed(tree) && IsDirectory(tree, at)
    requires path != [] && Walk(tree, at, path, false, budget) == Missing
    ensures var up := Walk(tree, at, Parent(path), false, budget);
      up.Found? || up == Missing
    decreases budget, |path|
  {
    if |path| > 1 {
      assert Parent(path)[1..] == Parent(path[1..]);
      if path[0] == UP {
        ParentIsDirectory(tree, at);
        ParentOfMissing(tree, Parent(at), path[1..], budget);
      } else {
        var next := at + [path[0]];
        if next in tree {
          match tree[next]
          case Directory => ParentOfMissing(tree, next, path[1..], budget);
          case Link(target) =>
            if |path| > 2 {
              var expanded := target.components + path[1..];
              assert Parent(expanded) == target.components + Parent(path[1..]);
              ParentOfMissing(tree, Base(target, at), expanded, budget - 1);
            }
        }
      }
    }
  }

  /** Climbing past missing entries only, the older algorithm also lands where the
      candidate leads. */
  lemma {:induction false} AncestorIsSound(tree: Tree, candidate: Path, boundary: Path)
    requires WellFormed(tree)
    requires Lstat(tree, candidate).Found? || Lstat(tree, candidate) == Missing
    ensures match ThroughExistingAncestor(tree, candidate, boundary)
      case Success(path) => boundary <= path && LeadsTo(tree, candidate, Place(tree, path))
      case Failure(_) => true
    decreases |candidate|
  {
    var climbed := ThroughExistingAncestor(tree, candidate, boundary);
    if climbed.Success? {
      if Lstat(tree, candidate).Found? {
        CanonicalLeadsTo(tree, candidate);
      } else {
        ParentOfMissing(tree, [], candidate, LINK_LIMIT);
        AncestorIsSound(tree, Parent(candidate), boundary);
        var path := ThroughExistingAncestor(tree, Parent(candidate), boundary).value;
        ChildLeadsTo(tree, candidate, Place(tree, path));
      }
    }
  }

  /** Both creation resolvers return the same path whenever both succeed. */
  lemma ResolversAgree(tree: Tree, candidate: Path, boundary: Path)
    requires WellFormed(tree)
    ensures
      var older := ThroughExistingAncestor(tree, candidate, boundary);
      var newer := ResolveForCreation(tree, candidate, boundary, 0);
      older.Success? && newer.Success? ==> older == newer
  {
    var older := ThroughExistingAncestor(tree, candidate, boundary);
    var newer := ResolveForCreation(tree, candidate, boundary, 0);
    if older.Success? && newer.Success? {
      CreationIsSound(tree, candidate, boundary, 0);
      AncestorIsSound(tree, candidate, boundary);
      LeadsToOnce(tree, candidate, Place(tree, older.value), Place(tree, newer.value));
    }
  }

  // An entry next to a canonical directory is reached without links.
  lemma ChildIsDirect(tree: Tree, directory: Path, name: string)
    requires WellFormed(tree) && directory in tree && name != UP
    requires IsDirectory(tree, directory)
    ensures Direct(tree, directory + [name])
  {
    var path := directory + [name];
    ExistingIsDirect(tree, directory);
    forall k | 0 <= k < |path| && path[..k] in tree
      ensures tree[path[..k]] == Directory
    {
      assert path[..k] == directory[..k];
      assert k == |directory| ==> path[..k] == directory;
    }
  }

  lemma BesideIsDirect(tree: Tree, candidate: Path, boundary: Path)
    requires WellFormed(tree) && Lstat(tree, candidate).Found?
    ensures match BesideCanonicalParent(tree, candidate, boundary)
      case Success(path) => boundary <= path && Direct(tree, path)
      case Failure(_) => true
  {
    var beside := BesideCanonicalParent(tree, candidate, boundary);
    if beside.Success? {
      var name := candidate[|candidate| - 1];
      assert candidate == Parent(candidate) + [name];
      var parent := CanonicalOrError(tree, Parent(candidate)).value;
      LocateIsCanonical(tree, [], Parent(candidate), LINK_LIMIT);
      WalkThrough(tree, [], Parent(candidate), name, LINK_LIMIT, LINK_LIMIT);
      ChildIsDirect(tree, parent, name);
    }
  }

  lemma PlaceIsDirect(tree: Tree, candidate: Path, path: Path)
    requires WellFormed(tree) && LeadsTo(tree, candidate, Place(tree, path))
    ensures Direct(tree, path) && (path in tree ==> !tree[path].Link?)
  {
    var budget: nat :| Locate(tree, [], candidate, budget) == Place(tree, path);
    LocateIsDirect(tree, [], candidate, budget);
  }

  // Inside the root of the request, and reached by the kernel without any link.
  ghost predicate Inside(tree: Tree, roots: Roots, spec: ExecutionPath, path: Path) {
    && spec.rootId in roots
    && roots[spec.rootId].canonicalPath <= path
    && Direct(tree, path)
  }

  lemma WriteIsInside(tree: Tree, roots: Roots, spec: ExecutionPath, follow: bool)
    requires WellFormed(tree) && ResolveForWrite(tree, roots, spec, follow).Success?
    ensures var at := ResolveForWrite(tree, roots, spec, follow).value;
      && Inside(tree, roots, spec, at)
      && !roots[spec.rootId].readOnly
      && (follow && at in tree ==> !tree[at].Link?)
  {
    var (candidate, root) := Candidate(roots, spec).value;
    var boundary := root.canonicalPath;
    if Canonicalize(tree, candidate).Found? {
      LocateIsCanonical(tree, [], candidate, LINK_LIMIT);
      LocateIsDirect(tree, [], candidate, LINK_LIMIT);
    }
    if Lstat(tree, candidate).Found? {
      BesideIsDirect(tree, candidate, boundary);
    } else if Lstat(tree, candidate) == Missing {
      AncestorIsSound(tree, candidate, boundary);
      PlaceIsDirect(tree, candidate, ResolveForWrite(tree, roots, spec, follow).value);
    }
  }

  lemma InPlaceIsInside(tree: Tree, roots: Roots, spec: ExecutionPath)
    requires WellFormed(tree) && ResolveForInPlaceWrite(tree, roots, spec).Success?
    ensures var at := ResolveForInPlaceWrite(tree, roots, spec).value;
      && Inside(tree, roots, spec, at)
      && !roots[spec.rootId].readOnly
      && (at in tree ==> !tree[at].Link?)
  {
    var (candidate, root) := Candidate(roots, spec).value;
    CreationIsSound(tree, candidate, root.canonicalPath, 0);
    PlaceIsDirect(tree, candidate, ResolveForCreation(tree, candidate, root.canonicalPath, 0).value);
  }

  lemma ExistingIsInside(tree: Tree, roots: Roots, spec: ExecutionPath, follow: bool)
    requires WellFormed(tree) && ResolveExisting(tree, roots, spec, follow).Success?
    ensures var at := ResolveExisting(tree, roots, spec, follow).value;
      && Inside(tree, roots, spec, at)
      && at in tree
      && (follow ==> !tree[at].Link?)
  {
    var (candidate, root) := Candidate(roots, spec).value;
    if follow || candidate == root.canonicalPath {
      LocateIsCanonical(tree, [], candidate, LINK_LIMIT);
      LocateIsDirect(tree, [], candidate, LINK_LIMIT);
    } else {
      var parent := CanonicalOrError(tree, Parent(candidate)).value;
      LocateIsCanonical(tree, [], Parent(candidate), LINK_LIMIT);
      LocateIsDirect(tree, [], Parent(candidate), LINK_LIMIT);
      LookedUp(tree, parent, candidate[|candidate| - 1]);
    }
  }

  /** Every resolver returns only paths under the canonical root, reached without
      links except, when links are not followed, a link as the last entry itself. */
  lemma ResolvedIsInside(tree: Tree, roots: Roots, spec: ExecutionPath, follow: bool)
    requires WellFormed(tree)
    ensures var r := ResolveForWrite(tree, roots, spec, follow);
      r.Success? ==>
        && Inside(tree, roots, spec, r.value)
        && !roots[spec.rootId].readOnly
        && (follow && r.value in tree ==> !tree[r.value].Link?)
    ensures var r := ResolveForInPlaceWrite(tree, roots, spec);
      r.Success? ==>
        && Inside(tree, roots, spec, r.value)
        && !roots[spec.rootId].readOnly
        && (r.value in tree ==> !tree[r.value].Link?)
    ensures var r := ResolveExisting(tree, roots, spec, follow);
      r.Success? ==>
        && Inside(tree, roots, spec, r.value)
        && r.value in tree
        && (follow ==> !tree[r.value].Link?)
  {
    if ResolveForWrite(tree, roots, spec, follow).Success? {
      WriteIsInside(tree, roots, spec, follow);
    }
    if ResolveForInPlaceWrite(tree, roots, spec).Success? {
      InPlaceIsInside(tree, roots, spec);
    }
    if ResolveExisting(tree, roots, spec, follow).Success? {
      ExistingIsInside(tree, roots, spec, follow);
    }
  }

  // Below a link-free entry, lstat finds only real children.
  lemma LookedUp(tree: Tree, parent: Path, name: string)
    requires WellFormed(tree) && parent in tree && !tree[parent].Link? && name != UP
    requires Lstat(tree, parent + [name]).Found?
    ensures parent + [name] in tree && Direct(tree, parent + [name])
  {
    ExistingIsDirect(tree, parent);
    DirectWalk(tree, parent, 0, true, LINK_LIMIT);
    LocateIsCanonical(tree, [], parent, LINK_LIMIT);
    WalkThrough(tree, [], parent, name, LINK_LIMIT, LINK_LIMIT);
    ChildIsDirect(tree, parent, name);
  }

  // ---------- validated paths ----------

  function Join(pieces: seq<string>, separator: char): string
    requires pieces != []
  {
    if |pieces| == 1 then pieces[0]
    else pieces[0] + [separator] + Join(pieces[1..], separator)
  }

  // Splitting loses nothing.
  lemma {:induction false} JoinSplit(s: string, separator: char)
    ensures Join(Split(s, separator), separator) == s
  {
    if s != "" {
      JoinSplit(s[1..], separator);
      var rest := Split(s[1..], separator);
      if s[0] == separator {
        assert ([""] + rest)[1..] == rest;
      } else {
        var pieces := [[s[0]] + rest[0]] + rest[1..];
        assert pieces[1..] == rest[1..];
        assert [s[0]] + s[1..] == s;
      }
    }
  }

  // Splitting undoes joining.
  lemma {:induction false} SplitJoin(pieces: seq<string>, separator: char)
    requires pieces != [] && forall piece | piece in pieces :: separator !in piece
    ensures Split(Join(pieces, separator), separator) == pieces
    decreases |pieces|, |pieces[0]|
  {
    var joined := Join(pieces, separator);
    if pieces[0] == "" {
      if |pieces| > 1 {
        assert joined[1..] == Join(pieces[1..], separator);
        SplitJoin(pieces[1..], separator);
        assert [""] + pieces[1..] == pieces;
      }
    } else {
      var shorter := [pieces[0][1..]] + pieces[1..];
      assert separator !in pieces[0];
      assert shorter[1..] == pieces[1..];
      assert joined[1..] == Join(shorter, separator);
      assert forall piece | piece in shorter :: separator !in piece;
      SplitJoin(shorter, separator);
      assert [pieces[0][0]] + pieces[0][1..] == pieces[0];
      assert joined[0] == pieces[0][0];
    }
  }

  lemma JoinHas(pieces: seq<string>, separator: char)
    requires |pieces| > 1
    ensures separator in Join(pieces, separator)
  {
    assert Join(pieces, separator)[|pieces[0]|] == separator;
  }

  /** A validated path names an entry below its root by plain components, and two
      validated paths name the same one only if they are the same string. */
  lemma ValidPathsAreCanonical(roots: Roots, spec: ExecutionPath, other: ExecutionPath)
    requires Candidate(roots, spec).Success?
    ensures var (candidate, root) := Candidate(roots, spec).value;
      && root.canonicalPath <= candidate
      && Plain(candidate[|root.canonicalPath|..])
      && (candidate == root.canonicalPath <==> spec.path == ".")
      && (spec.path != "." ==> Join(candidate[|root.canonicalPath|..], '/') == spec.path)
    ensures other.rootId == spec.rootId && Candidate(roots, other) == Candidate(roots, spec) ==> other == spec
  {
    var (candidate, root) := Candidate(roots, spec).value;
    assert candidate[|root.canonicalPath|..] == Components(spec.path);
    JoinSplit(spec.path, '/');
    JoinSplit(other.path, '/');
    if other.rootId == spec.rootId && Candidate(roots, other) == Candidate(roots, spec) {
      var (same, _) := Candidate(roots, other).value;
      assert same[|root.canonicalPath|..] == Components(other.path);
    }
  }

  // ---------- start-up ----------

  /** The registry of roots: each canonical path is an existing directory, and
      identifiers are unique; otherwise the supervisor does not start. */
  method New(tree: Tree, roots: seq<SupervisorRoot>) returns (r: Option<Roots>)
    requires WellFormed(tree)
    ensures r.Some? <==>
      && roots != []
      && (forall i | 0 <= i < |roots| :: Usable(tree, roots[i]))
      && (forall i, j | 0 <= i < j < |roots| :: roots[i].id != roots[j].id)
    ensures r.Some? ==> forall i | 0 <= i < |roots| ::
      && roots[i].id in r.value
      && IsDirectory(tree, r.value[roots[i].id].canonicalPath)
      && LeadsTo(tree, roots[i].path, Existing(r.value[roots[i].id].canonicalPath))
      && r.value[roots[i].id].readOnly == roots[i].readOnly
    ensures r.Some? ==> forall id | id in r.value :: exists i :: 0 <= i < |roots| && roots[i].id == id
  {
    if roots == [] {
      return None;
    }
    var entries: Roots := map[];
    for k := 0 to |roots|
      invariant forall i | 0 <= i < k ::
        && Usable(tree, roots[i])
        && roots[i].id in entries
        && entries[roots[i].id] == RootEntry(Canonicalize(tree, roots[i].path).at, roots[i].readOnly)
      invariant forall i, j | 0 <= i < j < k :: roots[i].id != roots[j].id
      invariant forall id | id in entries :: exists i :: 0 <= i < k && roots[i].id == id
    {
      var root := roots[k];
      if root.nameIsBlank {
        return None;
      }
      var canonical := Canonicalize(tree, root.path);
      if !canonical.Found? || canonical.node != Directory || root.id in entries {
        return None;
      }
      entries := entries[root.id := RootEntry(canonical.at, root.readOnly)];
    }
    forall i | 0 <= i < |roots|
      ensures IsDirectory(tree, entries[roots[i].id].canonicalPath)
      ensures LeadsTo(tree, roots[i].path, Existing(entries[roots[i].id].canonicalPath))
    {
      CanonicalLeadsTo(tree, roots[i].path);
      LocateIsCanonical(tree, [], roots[i].path, LINK_LIMIT);
    }
    return Some(entries);
  }

  predicate Usable(tree: Tree, root: SupervisorRoot) {
    && !root.nameIsBlank
    && Canonicalize(tree, root.path).Found?
    && Canonicalize(tree, root.path).node == Directory
  }
}
