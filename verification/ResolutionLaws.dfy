/**
 Which place each resolver returns, and when: stated by what lstat(2) and the
 location function say of the requested path, and by nothing else.
 */
module ResolutionLaws {
  import opened Wrappers
  import opened ExecutionErrors
  import opened FileTree
  import opened PathResolver

  // ---------- one lookup ----------

  // What lstat finds lies in something its parent path leads to.
  lemma {:induction false} FoundHasParent(tree: Tree, at: Path, prefix: Path, name: string, budget: nat)
    requires WellFormed(tree) && IsDirectory(tree, at) && name != UP
    requires Walk(tree, at, prefix + [name], false, budget).Found?
    ensures Locate(tree, at, prefix, budget).Existing?
    decreases budget, |prefix|
  {
    if prefix != [] {
      assert (prefix + [name])[1..] == prefix[1..] + [name];
      if prefix[0] == UP {
        ParentIsDirectory(tree, at);
        FoundHasParent(tree, Parent(at), prefix[1..], name, budget);
      } else {
        var next := at + [prefix[0]];
        match tree[next]
        case Directory => FoundHasParent(tree, next, prefix[1..], name, budget);
        case Link(target) =>
          assert target.components + prefix[1..] + [name] == target.components + (prefix[1..] + [name]);
          FoundHasParent(tree, Base(target, at), target.components + prefix[1..], name, budget - 1);
      }
    }
  }

  // A last name that is not followed costs no link.
  lemma {:induction false} LastNameIsFree(tree: Tree, at: Path, prefix: Path, name: string, budget: nat)
    requires name != UP && Locate(tree, at, prefix, budget).Existing?
    ensures Walk(tree, at, prefix + [name], false, budget) != TooManyLinks
    decreases budget, |prefix|
  {
    if prefix == [] {
      assert prefix + [name] == [name];
      if at + [name] in tree && tree[at + [name]].Directory? {
        assert [name][1..] == [];
        assert Walk(tree, at + [name], [], false, budget) != TooManyLinks;
      }
    } else {
      assert (prefix + [name])[1..] == prefix[1..] + [name];
      if prefix[0] == UP {
        LastNameIsFree(tree, Parent(at), prefix[1..], name, budget);
      } else {
        var next := at + [prefix[0]];
        match tree[next]
        case Directory => LastNameIsFree(tree, next, prefix[1..], name, budget);
        case File(_) =>
        case Link(target) =>
          assert target.components + prefix[1..] + [name] == target.components + (prefix[1..] + [name]);
          LastNameIsFree(tree, Base(target, at), target.components + prefix[1..], name, budget - 1);
      }
    }
  }

  /** lstat finds an entry exactly when its parent path leads to a directory that has
      an entry of that name, and it reports that entry, be it a link or not. */
  lemma LstatOfChild(tree: Tree, path: Path, name: string)
    requires WellFormed(tree) && name != UP
    ensures
      var up := Locate(tree, [], path, LINK_LIMIT);
      var there := Lstat(tree, path + [name]);
      if up.Existing? && IsDirectory(tree, up.at) && up.at + [name] in tree then
        there == Found(up.at + [name], tree[up.at + [name]])
      else
        !there.Found?
  {
    var up := Locate(tree, [], path, LINK_LIMIT);
    if Lstat(tree, path + [name]).Found? {
      FoundHasParent(tree, [], path, name, LINK_LIMIT);
    }
    if up.Existing? {
      LastNameIsFree(tree, [], path, name, LINK_LIMIT);
      WalkThrough(tree, [], path, name, LINK_LIMIT, LINK_LIMIT);
    }
  }

  // ---------- existing entries ----------

  // A place is returned if it is the boundary or below it.
  predicate IsContained(r: Resolved, to: Destination, boundary: Path) {
    if to.Existing? && boundary <= to.at then r == Success(to.at)
    else
      && r.Failure?
      && (to.Existing? ==> r.error == PathOutsideRoot)
      && (to.Absent? ==> r.error == NotFound)
  }

  // Only below the boundary: no request can name the root's own entry.
  predicate IsBelow(r: Resolved, at: Path, boundary: Path) {
    if boundary < at then r == Success(at) else r.Failure?
  }

  lemma CanonicalIsExact(tree: Tree, candidate: Path, boundary: Path)
    requires WellFormed(tree)
    ensures
      var canonical := CanonicalOrError(tree, candidate);
      var r := if canonical.Success? then EnsureContained(canonical.value, boundary) else canonical;
      IsContained(r, Locate(tree, [], candidate, LINK_LIMIT), boundary)
  {
    LocateIsCanonical(tree, [], candidate, LINK_LIMIT);
  }

  // The last name beside the canonical parent is the entry lstat finds.
  lemma BesideIsExact(tree: Tree, candidate: Path, boundary: Path, at: Path)
    requires WellFormed(tree) && candidate != [] && candidate[|candidate| - 1] != UP
    requires Lstat(tree, candidate).Found? && Lstat(tree, candidate).at == at
    ensures IsBelow(BesideCanonicalParent(tree, candidate, boundary), at, boundary)
    ensures !(boundary < at) ==>
      BesideCanonicalParent(tree, candidate, boundary) == Failure(PathOutsideRoot)
  {
    var name := candidate[|candidate| - 1];
    assert candidate == Parent(candidate) + [name];
    LstatOfChild(tree, Parent(candidate), name);
    LocateIsCanonical(tree, [], Parent(candidate), LINK_LIMIT);
    var parent := CanonicalOrError(tree, Parent(candidate)).value;
    assert boundary < parent + [name] <==> boundary <= parent;
  }

  // A root that exists is found where it is.
  lemma RootIsFound(tree: Tree, boundary: Path)
    requires WellFormed(tree) && boundary in tree
    ensures Lstat(tree, boundary) == Found(boundary, tree[boundary])
  {
    ExistingIsDirect(tree, boundary);
    assert boundary[..0] == [] && boundary[0..] == boundary;
    DirectWalk(tree, boundary, 0, false, LINK_LIMIT);
  }

  // Nothing of the root's own entry is below the root.
  lemma RootIsNotBelow(tree: Tree, boundary: Path)
    requires WellFormed(tree) && Lstat(tree, boundary).Found?
    ensures IsBelow(BesideCanonicalParent(tree, boundary, boundary), Lstat(tree, boundary).at, boundary)
  {
    var at := Lstat(tree, boundary).at;
    FoundIsInTree(tree, [], boundary, LINK_LIMIT);
    if boundary < at {
      InTreeBelow(tree, at, boundary);
      RootIsFound(tree, boundary);
    }
    var beside := BesideCanonicalParent(tree, boundary, boundary);
    if beside.Success? {
      var parent := CanonicalOrError(tree, Parent(boundary)).value;
      CanonicalLeadsTo(tree, Parent(boundary));
      InTreeBelow(tree, parent, boundary);
      assert Hangs(tree, boundary);
      InTreeBelow(tree, boundary, Parent(boundary));
      RootIsFound(tree, Parent(boundary));
      DirectoryIsCanonical(tree, Parent(boundary));
    }
  }

  lemma {:induction false} FoundIsInTree(tree: Tree, at: Path, path: Path, budget: nat)
    requires WellFormed(tree) && IsDirectory(tree, at) && Walk(tree, at, path, false, budget).Found?
    ensures Walk(tree, at, path, false, budget).at in tree
    decreases budget, |path|
  {
    if path != [] {
      if path[0] == UP {
        ParentIsDirectory(tree, at);
        FoundIsInTree(tree, Parent(at), path[1..], budget);
      } else {
        var next := at + [path[0]];
        match tree[next]
        case Directory => FoundIsInTree(tree, next, path[1..], budget);
        case File(_) =>
        case Link(target) =>
          if |path| > 1 {
            FoundIsInTree(tree, Base(target, at), target.components + path[1..], budget - 1);
          }
      }
    }
  }

  lemma InTreeBelow(tree: Tree, at: Path, prefix: Path)
    requires WellFormed(tree) && at in tree && prefix <= at
    ensures prefix in tree && (prefix != at ==> IsDirectory(tree, prefix))
  {
    assert prefix == at[..|prefix|] && at == at[..|at|];
    if |prefix| < |at| {
      PrefixesAreDirectories(tree, at, |prefix|);
    }
  }

  lemma EntryHasParent(tree: Tree, parent: Path, name: string)
    requires WellFormed(tree) && parent + [name] in tree
    ensures IsDirectory(tree, parent)
  {
    assert Hangs(tree, parent + [name]);
    assert Parent(parent + [name]) == parent;
  }

  lemma DirectoryIsCanonical(tree: Tree, path: Path)
    requires WellFormed(tree) && IsDirectory(tree, path)
    ensures Canonicalize(tree, path) == Found(path, Directory)
  {
    ExistingIsDirect(tree, path);
    assert path[..0] == [] && path[0..] == path;
    DirectWalk(tree, path, 0, true, LINK_LIMIT);
  }

  /** Reading: a followed path resolves to exactly the existing place it leads to, a
      path that is not followed to exactly the entry of its own, be it a link; each
      only inside the root. */
  lemma ExistingIsExact(tree: Tree, roots: Roots, spec: ExecutionPath, follow: bool)
    requires WellFormed(tree) && Candidate(roots, spec).Success?
    ensures
      var (candidate, root) := Candidate(roots, spec).value;
      var r := ResolveExisting(tree, roots, spec, follow);
      if follow || candidate == root.canonicalPath then
        IsContained(r, Locate(tree, [], candidate, LINK_LIMIT), root.canonicalPath)
      else if Lstat(tree, candidate).Found? then
        IsBelow(r, Lstat(tree, candidate).at, root.canonicalPath)
      else
        r.Failure?
  {
    var (candidate, root) := Candidate(roots, spec).value;
    var boundary := root.canonicalPath;
    if follow || candidate == boundary {
      CanonicalIsExact(tree, candidate, boundary);
    } else {
      HasOwnName(roots, spec);
      var name := candidate[|candidate| - 1];
      assert candidate == Parent(candidate) + [name];
      LstatOfChild(tree, Parent(candidate), name);
      LocateIsCanonical(tree, [], Parent(candidate), LINK_LIMIT);
      if Lstat(tree, candidate).Found? {
        BesideIsExact(tree, candidate, boundary, Lstat(tree, candidate).at);
        FoundIsInTree(tree, [], candidate, LINK_LIMIT);
        RootIsFound(tree, Lstat(tree, candidate).at);
      } else if ResolveExisting(tree, roots, spec, follow).Success? {
        var parent := CanonicalOrError(tree, Parent(candidate)).value;
        LocateIsDirect(tree, [], Parent(candidate), LINK_LIMIT);
        LookedUp(tree, parent, name);
        EntryHasParent(tree, parent, name);
      }
    }
  }

  lemma HasOwnName(roots: Roots, spec: ExecutionPath)
    requires Candidate(roots, spec).Success?
    requires Candidate(roots, spec).value.0 != roots[spec.rootId].canonicalPath
    ensures var candidate := Candidate(roots, spec).value.0;
      candidate != [] && candidate[|candidate| - 1] != UP
  {
    ValidPathsAreCanonical(roots, spec, spec);
    var candidate := Candidate(roots, spec).value.0;
    var below := candidate[|roots[spec.rootId].canonicalPath|..];
    assert candidate == roots[spec.rootId].canonicalPath + below;
    assert below[|below| - 1] in below;
  }

  // ---------- missing entries ----------

  // The longest part of a path that lstat finds has k components.
  ghost predicate NearestAncestor(tree: Tree, candidate: Path, k: nat) {
    && k <= |candidate|
    && Lstat(tree, candidate[..k]).Found?
    && forall j | k < j <= |candidate| :: !Lstat(tree, candidate[..j]).Found?
  }

  lemma {:induction false} SomeAncestor(tree: Tree, candidate: Path) returns (k: nat)
    requires WellFormed(tree)
    ensures NearestAncestor(tree, candidate, k)
    decreases |candidate|
  {
    assert candidate[..|candidate|] == candidate;
    if Lstat(tree, candidate).Found? {
      k := |candidate|;
    } else {
      assert candidate != [];
      var up := Parent(candidate);
      k := SomeAncestor(tree, up);
      assert candidate[..k] == up[..k];
      forall j | k < j <= |candidate|
        ensures !Lstat(tree, candidate[..j]).Found?
      {
        if j < |candidate| {
          assert candidate[..j] == up[..j];
        }
      }
    }
  }

  /** A missing path resolves below the nearest part of it that exists: to what that
      leads to, with the other names put back. */
  lemma {:induction false} AncestorIsExact(tree: Tree, candidate: Path, boundary: Path, k: nat)
    requires WellFormed(tree) && NearestAncestor(tree, candidate, k)
    ensures
      var to := Locate(tree, [], candidate[..k], LINK_LIMIT);
      var r := ThroughExistingAncestor(tree, candidate, boundary);
      if to.Existing? && boundary <= to.at && Plain(candidate[k..]) then r == Success(to.at + candidate[k..])
      else r.Failure?
    decreases |candidate|
  {
    assert candidate[..|candidate|] == candidate;
    if k == |candidate| {
      CanonicalIsExact(tree, candidate, boundary);
      assert candidate[k..] == [];
      assert forall path: Path :: path + [] == path;
    } else {
      assert !Lstat(tree, candidate[..|candidate|]).Found?;
      var name := candidate[|candidate| - 1];
      var up := Parent(candidate);
      assert forall j | 0 <= j <= |up| :: up[..j] == candidate[..j];
      AncestorIsExact(tree, up, boundary, k);
      assert candidate[k..] == up[k..] + [name];
      var to := Locate(tree, [], candidate[..k], LINK_LIMIT);
      if to.Existing? {
        assert to.at + up[k..] + [name] == to.at + candidate[k..];
      }
    }
  }

  // The place of a request to change an entry.
  ghost predicate IsWriteTarget(tree: Tree, candidate: Path, boundary: Path, follow: bool, r: Resolved) {
    match Lstat(tree, candidate)
    case Found(at, _) =>
      if follow then IsContained(r, Locate(tree, [], candidate, LINK_LIMIT), boundary)
      else IsBelow(r, at, boundary)
    case Missing =>
      && (r.Success? ==> LeadsTo(tree, candidate, Absent(r.value)))
      && exists k: nat ::
           && NearestAncestor(tree, candidate, k)
           && var to := Locate(tree, [], candidate[..k], LINK_LIMIT);
           if to.Existing? && boundary <= to.at && Plain(candidate[k..]) then
             r == Success(to.at + candidate[k..])
           else
             r.Failure?
    case failed => r.Failure?
  }

  /** Changing an entry: the entry of its own where links are not followed, and the
      existing place it leads to where they are; a missing one below its nearest
      existing ancestor, at the place it denotes. */
  lemma WriteTargetIsExact(tree: Tree, roots: Roots, spec: ExecutionPath, follow: bool)
    requires WellFormed(tree) && Candidate(roots, spec).Success?
    ensures
      var (candidate, root) := Candidate(roots, spec).value;
      var r := ResolveForWrite(tree, roots, spec, follow);
      if root.readOnly then r == Failure(ReadOnlyRoot)
      else IsWriteTarget(tree, candidate, root.canonicalPath, follow, r)
  {
    var (candidate, root) := Candidate(roots, spec).value;
    var boundary := root.canonicalPath;
    if !root.readOnly {
      match Lstat(tree, candidate)
      case Found(at, _) =>
        if follow {
          CanonicalIsExact(tree, candidate, boundary);
        } else if candidate == boundary {
          RootIsNotBelow(tree, boundary);
          BesideIsDirect(tree, candidate, boundary);
        } else {
          HasOwnName(roots, spec);
          BesideIsExact(tree, candidate, boundary, at);
        }
      case Missing =>
        MissingTargetIsExact(tree, roots, spec, follow);
      case failed =>
    }
  }

  lemma MissingTargetIsExact(tree: Tree, roots: Roots, spec: ExecutionPath, follow: bool)
    requires WellFormed(tree) && Candidate(roots, spec).Success?
    requires !Candidate(roots, spec).value.1.readOnly
    requires Lstat(tree, Candidate(roots, spec).value.0) == Missing
    ensures
      var (candidate, root) := Candidate(roots, spec).value;
      IsWriteTarget(tree, candidate, root.canonicalPath, follow, ResolveForWrite(tree, roots, spec, follow))
  {
    var (candidate, root) := Candidate(roots, spec).value;
    var boundary := root.canonicalPath;
    var r := ResolveForWrite(tree, roots, spec, follow);
    var k := SomeAncestor(tree, candidate);
    AncestorIsExact(tree, candidate, boundary, k);
    AncestorIsSound(tree, candidate, boundary);
    if r.Success? {
      AbsentPlace(tree, candidate, r.value);
    }
  }

  // What lstat misses leads nowhere that exists.
  lemma AbsentPlace(tree: Tree, candidate: Path, at: Path)
    requires WellFormed(tree) && Lstat(tree, candidate) == Missing && LeadsTo(tree, candidate, Place(tree, at))
    ensures Place(tree, at) == Absent(at)
  {
    var budget: nat :| Locate(tree, [], candidate, budget) == Place(tree, at);
    LstatOfLocated(tree, [], candidate, budget);
    var large := if budget <= LINK_LIMIT then LINK_LIMIT else budget;
    WalkMonotone(tree, [], candidate, false, LINK_LIMIT, large);
    LocateMonotone(tree, [], candidate, budget, large);
    MissingCosts(tree, [], candidate, large);
  }

  /** In-place writes and directory creations: only the place the path denotes, and
      that whenever the kernel itself could locate it inside the root. */
  lemma InPlaceTargetIsExact(tree: Tree, roots: Roots, spec: ExecutionPath)
    requires WellFormed(tree) && Candidate(roots, spec).Success?
    ensures
      var (candidate, root) := Candidate(roots, spec).value;
      var r := ResolveForInPlaceWrite(tree, roots, spec);
      var to := Locate(tree, [], candidate, LINK_LIMIT);
      if root.readOnly then r == Failure(ReadOnlyRoot)
      else
        && (r.Success? ==> root.canonicalPath <= r.value && LeadsTo(tree, candidate, Place(tree, r.value)))
        && (IsDirectory(tree, root.canonicalPath) && to != Nowhere ==>
              if root.canonicalPath <= to.at then r == Success(to.at) else r.Failure?)
    ensures
      var r := ResolveForInPlaceWrite(tree, roots, spec);
      ResolveForDirectoryCreation(tree, roots, spec)
      == if r.Success? then Success(Candidate(roots, spec).value.0) else r
  {
    var (candidate, root) := Candidate(roots, spec).value;
    CreationIsSound(tree, candidate, root.canonicalPath, 0);
    var to := Locate(tree, [], candidate, LINK_LIMIT);
    if !root.readOnly && IsDirectory(tree, root.canonicalPath) && to != Nowhere {
      if root.canonicalPath <= to.at {
        CreationIsComplete(tree, candidate, root.canonicalPath, 0, LINK_LIMIT);
      } else {
        var r := ResolveForInPlaceWrite(tree, roots, spec);
        if r.Success? {
          LocateIsDirect(tree, [], candidate, LINK_LIMIT);
          LeadsToOnce(tree, candidate, Place(tree, r.value), to);
        }
      }
    }
  }

  // ---------- validated paths ----------

  predicate PlainName(name: string) {
    && name != "" && name != "." && name != UP
    && '\0' !in name && '\\' !in name
  }

  // A first name that reads as a drive.
  predicate DriveName(name: string) {
    |name| >= 2 && name[1] == ':'
  }

  /** The valid spellings are exactly the plain names joined by slashes, and ".";
      each names the path of those names below its root. */
  lemma ValidPathsArePlainNames(roots: Roots, id: string, names: seq<string>)
    requires names != [] && forall name | name in names :: '/' !in name
    ensures
      Candidate(roots, ExecutionPath(id, Join(names, '/')))
      == if !Spellable(names) then Failure(InvalidPath)
         else if id !in roots then Failure(RootNotFound)
         else Success((roots[id].canonicalPath + if names == ["."] then [] else names, roots[id]))
  {
    SpellableExactly(names);
    assert Join(["."], '/') == ".";
  }

  predicate Spellable(names: seq<string>)
    requires names != []
  {
    names == ["."] || (!DriveName(names[0]) && forall name | name in names :: PlainName(name))
  }

  lemma SpellableExactly(names: seq<string>)
    requires names != [] && forall name | name in names :: '/' !in name
    ensures ValidPath(Join(names, '/')) <==> Spellable(names)
    ensures Split(Join(names, '/'), '/') == names
  {
    var path := Join(names, '/');
    SplitJoin(names, '/');
    if |names| > 1 {
      JoinHas(names, '/');
    }
    JoinedChars(names);
    if path != "" {
      JoinedFirst(names);
      JoinedLast(names);
    }
    if forall name | name in names :: PlainName(name) {
      assert PlainName(names[0]) && PlainName(names[|names| - 1]);
      assert '\\' !in names[0];
    }
  }

  // The characters of a joined path are those of its names, and slashes.
  lemma {:induction false} JoinedChars(names: seq<string>)
    requires names != []
    ensures forall c | c != '/' :: c in Join(names, '/') <==> exists name :: name in names && c in name
  {
    forall c | c != '/'
      ensures c in Join(names, '/') <==> exists name :: name in names && c in name
    {
      if |names| == 1 {
        assert names[0] in names;
      } else {
        JoinedChars(names[1..]);
        assert names == [names[0]] + names[1..];
        assert forall name :: name in names <==> name == names[0] || name in names[1..];
      }
    }
  }

  lemma JoinedFirst(names: seq<string>)
    requires names != [] && Join(names, '/') != ""
    requires forall name | name in names :: '/' !in name
    ensures Join(names, '/')[0] == if names[0] == "" then '/' else names[0][0]
    ensures DriveName(names[0]) ==> DriveName(Join(names, '/'))
    ensures names[0] != "" && DriveName(Join(names, '/')) ==> DriveName(names[0])
  {}

  lemma {:induction false} JoinedLast(names: seq<string>)
    requires names != [] && Join(names, '/') != ""
    requires forall name | name in names :: '/' !in name
    ensures var path := Join(names, '/');
      path[|path| - 1] == '/' <==> names[|names| - 1] == ""
  {
    var last := names[|names| - 1];
    if |names| == 1 {
      assert last in names;
      assert last[|last| - 1] in last;
    } else if Join(names[1..], '/') != "" {
      JoinedLast(names[1..]);
    } else {
      assert |names| == 2;
    }
  }
}
