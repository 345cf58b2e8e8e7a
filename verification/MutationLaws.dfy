/**
 When each file mutation succeeds and what it then leaves, as long as no I/O
 operation fails: success is decided by the tree and the request alone, and
 whatever is refused leaves the tree as it was.
 */
module MutationLaws {
  import opened Wrappers
  import opened ExecutionErrors
  import opened FileTree
  import opened PathResolver
  import opened FileMutations
  import opened MutationSafety
  import opened ResolutionLaws

  // ---------- removals ----------

  // No check stands in the way of removing the entry.
  ghost predicate Removable(tree: Tree, roots: Roots, request: Request, at: Path)
    requires request.Remove?
  {
    && at in tree
    && (request.expectedRevision.Some? ==> RevisionAt(tree, at) == request.expectedRevision)
    && (request.targetKind == FileTarget ==>
          var followed := ResolveExisting(tree, roots, request.path, true);
          followed.Success? && !IsDirectory(tree, followed.value))
    && (IsDirectory(tree, at) && !request.recursive ==> forall p | p in tree :: !(at < p))
  }

  // All at or below a place is gone, all else as it was.
  ghost predicate LacksOnly(tree: Tree, after: Tree, at: Path) {
    forall p :: (p in after <==> p in tree && !(at <= p)) && (p in after ==> after[p] == tree[p])
  }

  lemma WriteTargetHasName(tree: Tree, roots: Roots, spec: ExecutionPath)
    requires WellFormed(tree) && ResolveForWrite(tree, roots, spec, false).Success?
    ensures ResolveForWrite(tree, roots, spec, false).value != []
  {
    WriteTargetIsExact(tree, roots, spec, false);
    var candidate := Candidate(roots, spec).value.0;
    var at := ResolveForWrite(tree, roots, spec, false).value;
    if Lstat(tree, candidate) == Missing {
      AbsentIsMissing(tree, candidate, at);
    }
  }

  lemma AbsentIsMissing(tree: Tree, candidate: Path, at: Path)
    requires WellFormed(tree) && LeadsTo(tree, candidate, Absent(at))
    ensures at !in tree
  {
    var budget: nat :| Locate(tree, [], candidate, budget) == Absent(at);
    LocateIsDirect(tree, [], candidate, budget);
  }

  // A followed entry reaches a directory only by being one.
  lemma FollowedKind(tree: Tree, roots: Roots, spec: ExecutionPath)
    requires WellFormed(tree) && ResolveExisting(tree, roots, spec, true).Success?
    ensures var at := ResolveExisting(tree, roots, spec, true).value;
      ReachesDirectory(tree, at) <==> IsDirectory(tree, at)
  {
    ResolvedIsInside(tree, roots, spec, true);
    var at := ResolveExisting(tree, roots, spec, true).value;
    assert at[..0] == [] && at[0..] == at;
    DirectWalk(tree, at, 0, true, LINK_LIMIT);
  }

  // The checks of a removal, but for the one on what the entry holds.
  lemma ChecksAre(tree: Tree, roots: Roots, request: Request, at: Path)
    requires WellFormed(tree) && request.Remove? && at in tree
    ensures RemovalFailure(tree, roots, request, tree[at]).None? <==>
      && (request.expectedRevision.Some? ==> RevisionAt(tree, at) == request.expectedRevision)
      && (request.targetKind == FileTarget ==>
            var followed := ResolveExisting(tree, roots, request.path, true);
            followed.Success? && !IsDirectory(tree, followed.value))
  {
    if ResolveExisting(tree, roots, request.path, true).Success? {
      FollowedKind(tree, roots, request.path);
    }
  }

  lemma UnlinkIsExact(tree: Tree, at: Path, recursive: bool)
    requires WellFormed(tree) && Direct(tree, at) && at != [] && at in tree
    ensures
      var m := Unlink(tree, at, IsDirectory(tree, at), recursive, NoFault);
      if IsDirectory(tree, at) && !recursive && exists p :: p in tree && at < p then
        m.outcome.Failed? && m.tree == tree && m.effect == NoEffect
      else
        m.outcome == Removed(true) && LacksOnly(tree, m.tree, at)
  {
    EntryOfDirect(tree, at);
  }

  /** A removal succeeds exactly when the entry exists in the expected revision and
      kind and, unless the removal is recursive, holds nothing; then that entry and
      all below it is gone, and in every other case nothing changed. */
  lemma RemovalIsExact(tree: Tree, roots: Roots, request: Request)
    requires WellFormed(tree) && request.Remove?
    ensures
      var m := RemoveInner(tree, roots, request, NoFault);
      var r := ResolveForWrite(tree, roots, request.path, false);
      var resolved := request.path.path != "." && r.Success?;
      && (m.outcome == Removed(true) <==> resolved && Removable(tree, roots, request, r.value))
      && (m.outcome == Removed(true) ==> LacksOnly(tree, m.tree, r.value))
      && (m.outcome == Removed(false) <==> resolved && r.value !in tree && request.ignoreMissing)
      && (m.outcome != Removed(true) ==> m.tree == tree && m.effect == NoEffect)
      && (m.outcome.Removed? || m.outcome.Failed?)
  {
    var r := ResolveForWrite(tree, roots, request.path, false);
    if r.Success? {
      var at := r.value;
      ResolvedTarget(tree, roots, request, false);
      WriteTargetHasName(tree, roots, request.path);
      LstatOfDirect(tree, at);
      if at in tree {
        ChecksAre(tree, roots, request, at);
        UnlinkIsExact(tree, at, request.recursive);
      }
    }
  }

  /** What a refused removal reports. */
  lemma RemovalRefusals(tree: Tree, roots: Roots, request: Request, fault: Fault)
    requires WellFormed(tree) && request.Remove?
    requires request.path.path != "." && ResolveForWrite(tree, roots, request.path, false).Success?
    ensures
      var outcome := RemoveInner(tree, roots, request, fault).outcome;
      var at := ResolveForWrite(tree, roots, request.path, false).value;
      && (at !in tree && !request.ignoreMissing ==> outcome == Failed(NotFound, NoDetail))
      && (at in tree && request.targetKind == AnyTarget && request.expectedRevision.Some? ==>
            && (IsDirectory(tree, at) ==> outcome == Failed(InvalidRequest, NoDetail))
            && (!IsDirectory(tree, at) && RevisionAt(tree, at) != request.expectedRevision ==>
                  outcome == Failed(RevisionConflict, NoDetail)))
      && (at in tree && request.targetKind == FileTarget ==>
            match ResolveExisting(tree, roots, request.path, true)
            case Failure(code) => outcome == Failed(code, NoDetail)
            case Success(to) => IsDirectory(tree, to) ==> outcome == Failed(IsADirectory, NoDetail))
  {
    var at := ResolveForWrite(tree, roots, request.path, false).value;
    ResolvedTarget(tree, roots, request, false);
    LstatOfDirect(tree, at);
    if ResolveExisting(tree, roots, request.path, true).Success? {
      FollowedKind(tree, roots, request.path);
    }
  }

  // ---------- making directories ----------

  // The directories on the way to a place, and all that was there, but no more.
  ghost predicate HasDirectoriesTo(tree: Tree, after: Tree, at: Path) {
    forall p ::
      if p <= at then IsDirectory(after, p)
      else (p in after <==> p in tree) && (p in tree ==> after[p] == tree[p])
  }

  lemma HasThem(tree: Tree, after: Tree, at: Path)
    requires WellFormed(after) && OnlyDirectoriesAdded(tree, after, at) && IsDirectory(after, at)
    ensures HasDirectoriesTo(tree, after, at)
  {
    forall p
      ensures if p <= at then IsDirectory(after, p)
              else (p in after <==> p in tree) && (p in tree ==> after[p] == tree[p])
    {
      if p <= at {
        InTreeBelow(after, at, p);
      }
    }
  }

  lemma LocatesItself(tree: Tree, path: Path)
    requires WellFormed(tree) && Direct(tree, path) && (path in tree ==> !tree[path].Link?)
    ensures Locate(tree, [], path, 0) == Place(tree, path)
    ensures Locate(tree, [], path, LINK_LIMIT) == Place(tree, path)
  {
    assert path[..0] == [] && path[0..] == path;
    DirectLocate(tree, path, 0);
    LocateMonotone(tree, [], path, 0, LINK_LIMIT);
  }

  // Without links on the way, nothing stops the making of directories.
  lemma {:induction false} DirectIsMade(tree: Tree, path: Path)
    requires WellFormed(tree) && Direct(tree, path) && (path in tree ==> IsDirectory(tree, path))
    ensures var (after, failed) := CreateDirAll(tree, path);
      && failed.None? && WellFormed(after)
      && OnlyDirectoriesAdded(tree, after, path)
      && IsDirectory(after, path)
    decreases |path|
  {
    LocatesItself(tree, path);
    CreateDirAllKeeps(tree, path, 0);
    if path in tree {
      DirectoryIsCanonical(tree, path);
      if path != [] {
        EntryOfDirect(tree, path);
      }
    } else {
      EntryOfDirect(tree, path);
      DirectParent(tree, path);
      if !IsDirectory(tree, Parent(path)) {
        assert Parent(path)[..0] == [] && Parent(path)[0..] == Parent(path);
        DirectWalk(tree, Parent(path), 0, true, LINK_LIMIT);
        DirectIsMade(tree, Parent(path));
        var above := CreateDirAll(tree, Parent(path)).0;
        StaysDirect(tree, above, path);
        EntryOfDirect(above, path);
      }
    }
  }

  /** A directory is created exactly when nothing is at the resolved place and its
      parent exists or is to be made, or when, recursively, one is there already or
      reached from there. */
  lemma DirectoryCreationIsExact(tree: Tree, roots: Roots, request: Request)
    requires WellFormed(tree) && request.CreateDirectory?
    ensures
      var m := CreateDirectoryInner(tree, roots, request, NoFault);
      var r := ResolveForWrite(tree, roots, request.path, false);
      && (m.outcome == DirectoryCreated <==>
            && r.Success?
            && if r.value in tree then request.recursive && ReachesDirectory(tree, r.value)
               else request.recursive || IsDirectory(tree, Parent(r.value)))
      && (m.outcome == DirectoryCreated && r.value !in tree ==> HasDirectoriesTo(tree, m.tree, r.value))
      && (m.outcome != DirectoryCreated || r.value in tree ==> m.tree == tree)
      && (m.outcome == DirectoryCreated || m.outcome.Failed?)
  {
    var m := CreateDirectoryInner(tree, roots, request, NoFault);
    var r := ResolveForWrite(tree, roots, request.path, false);
    if r.Success? {
      var at := r.value;
      ResolvedTarget(tree, roots, request, false);
      WriteTargetHasName(tree, roots, request.path);
      EntryOfDirect(tree, at);
      MakeKeeps(tree, roots, request, at);
      MakingAtDirect(tree, at);
      if at !in tree && m.outcome == DirectoryCreated {
        HasThem(tree, m.tree, at);
      }
    }
  }

  lemma MakingAtDirect(tree: Tree, at: Path)
    requires WellFormed(tree) && Direct(tree, at) && at != []
    ensures MakeDirectory(tree, at).Success? <==> at !in tree && IsDirectory(tree, Parent(at))
    ensures MakeDirectory(tree, at).Success? ==> WellFormed(MakeDirectory(tree, at).value)
    ensures var (after, failed) := CreateDirAll(tree, at);
      && WellFormed(after)
      && (failed.None? <==> at !in tree || ReachesDirectory(tree, at))
  {
    assert at[|at| - 1] in at;
    EntryOfDirect(tree, at);
    if at in tree {
      assert MakeDirectory(tree, at) == Failure(AlreadyExists);
    } else {
      DirectIsMade(tree, at);
      if IsDirectory(tree, Parent(at)) {
        AddDirectoryKeeps(tree, at);
      }
    }
  }

  // ---------- writes ----------

  // The bytes at a place, directories on the way to it, and all else as it was.
  ghost predicate Holds(tree: Tree, after: Tree, at: Path, data: Bytes) {
    forall p ::
      if p == at then p in after && after[p] == File(data)
      else if p < at then IsDirectory(after, p)
      else (p in after <==> p in tree) && (p in tree ==> after[p] == tree[p])
  }

  lemma HoldsAfterStore(tree: Tree, ready: Tree, at: Path, data: Bytes)
    requires WellFormed(ready) && at != [] && IsDirectory(ready, Parent(at))
    requires OnlyDirectoriesAdded(tree, ready, Parent(at))
    ensures Holds(tree, ready[at := File(data)], at, data)
  {
    HasThem(tree, ready, Parent(at));
    forall p
      ensures
        var after := ready[at := File(data)];
        if p == at then p in after && after[p] == File(data)
        else if p < at then IsDirectory(after, p)
        else (p in after <==> p in tree) && (p in tree ==> after[p] == tree[p])
    {
      if p < at {
        assert p <= Parent(at);
      }
    }
  }

  // What a write needs beyond passing its checks.
  ghost predicate HasPlace(tree: Tree, roots: Roots, request: Request, at: Path)
    requires request.Write? && Candidate(roots, request.path).Success?
  {
    || IsDirectory(tree, Parent(at))
    || (request.createParents && (request.strategy == AtomicReplace || CanMakeParents(tree, roots, request)))
  }

  // The spelled parents can be made: the entry itself is not a link, and the nearest
  // spelled ancestor reaches a directory.
  ghost predicate CanMakeParents(tree: Tree, roots: Roots, request: Request)
    requires Candidate(roots, request.path).Success?
  {
    var candidate := Candidate(roots, request.path).value.0;
    && Lstat(tree, candidate) == Missing
    && exists k: nat :: NearestAncestor(tree, candidate, k) && ReachesDirectory(tree, candidate[..k])
  }

  lemma NotTheRoot(tree: Tree, at: Path)
    requires WellFormed(tree) && !IsDirectory(tree, at)
    ensures at != []
  {}

  lemma AtomicIsExact(tree: Tree, roots: Roots, request: Request, at: Path, written: Outcome)
    requires WellFormed(tree) && request.Write? && Direct(tree, at) && !IsDirectory(tree, at)
    requires written.Written?
    ensures
      var m := CommitAtomic(tree, at, request, NoFault, written);
      if request.createParents || IsDirectory(tree, Parent(at)) then
        m.outcome == written && Holds(tree, m.tree, at, request.data)
      else
        m.outcome.Failed? && m.tree == tree
  {
    NotTheRoot(tree, at);
    DirectParent(tree, at);
    assert at[..|at| - 1] == Parent(at);
    EntryOfDirect(tree, at);
    if request.createParents {
      DirectIsMade(tree, Parent(at));
      var ready := CreateDirAll(tree, Parent(at)).0;
      StaysDirect(tree, ready, at);
      EntryOfDirect(ready, at);
      HoldsAfterStore(tree, ready, at, request.data);
    } else if IsDirectory(tree, Parent(at)) {
      HoldsAfterStore(tree, tree, at, request.data);
    }
  }

  // Writing at a place without links needs its parent only.
  lemma StoreIsExact(tree: Tree, at: Path, data: Bytes, written: Outcome)
    requires WellFormed(tree) && Direct(tree, at) && !IsDirectory(tree, at)
    requires at in tree ==> !tree[at].Link?
    requires written.Written?
    ensures
      WriteThrough(tree, at, data)
      == if IsDirectory(tree, Parent(at)) then Success((tree[at := File(data)], at)) else Failure(NotFound)
    ensures
      var m := StoreInPlace(tree, at, data, NoFault, written);
      if IsDirectory(tree, Parent(at)) then m.outcome == written && m.tree == tree[at := File(data)]
      else m.outcome.Failed? && m.tree == tree
  {
    LocatesItself(tree, at);
    if at in tree {
      assert Hangs(tree, at);
    }
  }

  // ---------- the parents of an in-place write ----------

  // Whatever can be canonicalized can be found without following its last name.
  lemma ReachedIsFound(tree: Tree, path: Path)
    requires WellFormed(tree) && Canonicalize(tree, path).Found?
    ensures Lstat(tree, path).Found?
  {
    LocateIsCanonical(tree, [], path, LINK_LIMIT);
    LstatOfLocated(tree, [], path, LINK_LIMIT);
    if Lstat(tree, path) == Missing {
      MissingCosts(tree, [], path, LINK_LIMIT);
    }
  }

  // The parent of a found entry is no missing path.
  lemma ParentOfFound(tree: Tree, path: Path)
    requires WellFormed(tree) && path != [] && path[|path| - 1] != UP && Lstat(tree, path).Found?
    ensures ReachesDirectory(tree, Parent(path))
    ensures EntryOf(tree, path).Success? && EntryOf(tree, path).value in tree
  {
    var name := path[|path| - 1];
    assert path == Parent(path) + [name];
    LstatOfChild(tree, Parent(path), name);
    LocateIsCanonical(tree, [], Parent(path), LINK_LIMIT);
  }

  lemma AncestorOfParent(tree: Tree, path: Path, k: nat)
    requires NearestAncestor(tree, path, k) && k < |path|
    ensures NearestAncestor(tree, Parent(path), k)
    ensures Parent(path)[..k] == path[..k] && Parent(path)[k..] == path[k..|path| - 1]
    ensures path[k..] == Parent(path)[k..] + [path[|path| - 1]]
  {
    assert forall j | 0 <= j <= |path| - 1 :: Parent(path)[..j] == path[..j];
  }

  // An existing spelled path is made, at no change, if it reaches a directory.
  lemma ExistingIsNotMade(tree: Tree, path: Path)
    requires WellFormed(tree) && Lstat(tree, path).Found?
    ensures CreateDirAll(tree, path).0 == tree
    ensures CreateDirAll(tree, path).1.None? <==> ReachesDirectory(tree, path)
  {
    if path != [] && path[|path| - 1] != UP {
      ParentOfFound(tree, path);
    }
    assert MakeDirectory(tree, path) == Failure(AlreadyExists);
  }

  // Below an ancestor that reaches no directory, nothing is made.
  lemma {:induction false} NothingIsMade(tree: Tree, path: Path, k: nat)
    requires WellFormed(tree) && NearestAncestor(tree, path, k) && !ReachesDirectory(tree, path[..k])
    ensures CreateDirAll(tree, path).0 == tree && CreateDirAll(tree, path).1.Some?
    decreases |path|
  {
    if k == |path| {
      assert path[..k] == path;
      ExistingIsNotMade(tree, path);
    } else {
      AncestorOfParent(tree, path, k);
      assert path[..|path|] == path;
      NothingIsMade(tree, Parent(path), k);
      assert path[..|path| - 1] == Parent(path);
      if k < |path| - 1 && ReachesDirectory(tree, Parent(path)) {
        ReachedIsFound(tree, Parent(path));
      }
      if ReachesDirectory(tree, path) {
        ReachedIsFound(tree, path);
      }
    }
  }

  // Where a missing path leads, below the directory its nearest ancestor reaches.
  lemma {:induction false} LeadsBelow(tree: Tree, path: Path, k: nat)
    requires WellFormed(tree) && NearestAncestor(tree, path, k) && ReachesDirectory(tree, path[..k])
    requires k < |path| && Plain(path[k..])
    ensures var base := Canonicalize(tree, path[..k]).at;
      Locate(tree, [], path, LINK_LIMIT) == Absent(base + path[k..])
  {
    var base := Canonicalize(tree, path[..k]).at;
    var name := path[k];
    assert name == path[k..][0];
    LocateIsCanonical(tree, [], path[..k], LINK_LIMIT);
    LstatOfChild(tree, path[..k], name);
    assert path[..k] + [name] == path[..k + 1];
    LocateThrough(tree, [], path[..k], path[k..], LINK_LIMIT, 0);
    assert path[..k] + path[k..] == path;
  }

  // All missing parents below it are made.
  lemma {:induction false} MissingAreMade(tree: Tree, path: Path, k: nat)
    requires WellFormed(tree) && NearestAncestor(tree, path, k) && ReachesDirectory(tree, path[..k])
    requires Plain(path[k..])
    ensures var (after, failed) := CreateDirAll(tree, path);
      && failed.None? && WellFormed(after)
      && Locate(tree, [], path, LINK_LIMIT) != Nowhere
      && var to := Locate(tree, [], path, LINK_LIMIT).at;
      && OnlyDirectoriesAdded(tree, after, to)
      && Locate(after, [], path, LINK_LIMIT) == Existing(to)
      && IsDirectory(after, to)
    decreases |path|
  {
    if k == |path| {
      assert path[..k] == path;
      ExistingIsNotMade(tree, path);
      LocateIsCanonical(tree, [], path, LINK_LIMIT);
      CreateDirAllKeeps(tree, path, LINK_LIMIT);
    } else {
      LeadsBelow(tree, path, k);
      CreateDirAllKeeps(tree, path, LINK_LIMIT);
      AncestorOfParent(tree, path, k);
      var name := path[|path| - 1];
      assert name == path[k..][|path| - k - 1];
      assert Plain(Parent(path)[k..]);
      MissingAreMade(tree, Parent(path), k);
      LocateIsCanonical(tree, [], Parent(path), LINK_LIMIT);
      LastIsMade(tree, path, k);
    }
  }

  lemma LastIsMade(tree: Tree, path: Path, k: nat)
    requires WellFormed(tree) && NearestAncestor(tree, path, k) && ReachesDirectory(tree, path[..k])
    requires k < |path| && path[|path| - 1] != UP && Plain(path[k..])
    requires var (above, failed) := CreateDirAll(tree, Parent(path));
      && failed.None? && WellFormed(above)
      && Locate(tree, [], Parent(path), LINK_LIMIT) != Nowhere
      && var up := Locate(tree, [], Parent(path), LINK_LIMIT).at;
      && OnlyDirectoriesAdded(tree, above, up)
      && Locate(above, [], Parent(path), LINK_LIMIT) == Existing(up)
      && IsDirectory(above, up)
    ensures CreateDirAll(tree, path).1.None?
  {
    var name := path[|path| - 1];
    var above := CreateDirAll(tree, Parent(path)).0;
    var up := Locate(tree, [], Parent(path), LINK_LIMIT).at;
    assert path == Parent(path) + [name];
    LocateIsCanonical(tree, [], Parent(path), LINK_LIMIT);
    LocateIsCanonical(above, [], Parent(path), LINK_LIMIT);
    LstatOfChild(tree, Parent(path), name);
    assert path[..|path|] == path;
    LeadsBelow(tree, path, k);
    LocateIsDirect(tree, [], path, LINK_LIMIT);
    LocatePrefix(tree, [], Parent(path), [name], LINK_LIMIT);
    assert up + [name] !in above;
  }

  // ---------- in-place writes ----------

  lemma OneNearest(tree: Tree, candidate: Path, j: nat, k: nat)
    requires NearestAncestor(tree, candidate, j) && NearestAncestor(tree, candidate, k)
    ensures j == k
  {}

  // The parent of a valid path is a valid path.
  lemma ParentIsSpellable(roots: Roots, spec: ExecutionPath)
    requires Candidate(roots, spec).Success? && spec.path != "."
    ensures var parent := ExecutionPath(spec.rootId, ParentSpelling(spec.path));
      Candidate(roots, parent) == Success((Parent(Candidate(roots, spec).value.0), roots[spec.rootId]))
  {
    var names := Split(spec.path, '/');
    JoinSplit(spec.path, '/');
    SpellableExactly(names);
    assert names != ["."];
    if |names| > 1 {
      var above := names[..|names| - 1];
      assert forall name | name in above :: name in names;
      SpellableExactly(above);
    } else {
      assert ValidPath(".");
    }
    ParentSpellingIsParent(roots, spec);
  }

  // All names below the nearest existing ancestor of a request are plain.
  lemma MissingNamesArePlain(tree: Tree, roots: Roots, spec: ExecutionPath, k: nat)
    requires WellFormed(tree) && Candidate(roots, spec).Success?
    requires roots[spec.rootId].canonicalPath in tree
    requires NearestAncestor(tree, Candidate(roots, spec).value.0, k)
    ensures Plain(Candidate(roots, spec).value.0[k..])
  {
    var candidate := Candidate(roots, spec).value.0;
    var boundary := roots[spec.rootId].canonicalPath;
    ValidPathsAreCanonical(roots, spec, spec);
    RootIsFound(tree, boundary);
    assert candidate[..|boundary|] == boundary;
    assert candidate[k..] == candidate[|boundary|..][k - |boundary|..];
  }

  // An in-place target that is missing lies below what the nearest ancestor reaches.
  lemma MissingPlace(tree: Tree, roots: Roots, request: Request, at: Path, k: nat)
    requires WellFormed(tree) && Target(tree, roots, request, at) && at !in tree
    requires ResolveForInPlaceWrite(tree, roots, request.path) == Success(at)
    requires
      var candidate := Candidate(roots, request.path).value.0;
      && Lstat(tree, candidate) == Missing
      && NearestAncestor(tree, candidate, k) && ReachesDirectory(tree, candidate[..k])
    ensures
      var candidate := Candidate(roots, request.path).value.0;
      && k < |candidate| && Plain(candidate[k..])
      && Locate(tree, [], candidate, LINK_LIMIT) == Absent(at)
      && at == Canonicalize(tree, candidate[..k]).at + candidate[k..]
  {
    var candidate := Candidate(roots, request.path).value.0;
    assert candidate[..|candidate|] == candidate;
    MissingNamesArePlain(tree, roots, request.path, k);
    LeadsBelow(tree, candidate, k);
    CreationIsSound(tree, candidate, roots[request.path.rootId].canonicalPath, 0);
    LeadsToOnce(tree, candidate,
      Absent(Canonicalize(tree, candidate[..k]).at + candidate[k..]), Absent(at));
  }

  // So does its missing parent.
  lemma MissingParent(tree: Tree, candidate: Path, at: Path, k: nat)
    requires WellFormed(tree) && !IsDirectory(tree, Parent(at))
    requires NearestAncestor(tree, candidate, k) && ReachesDirectory(tree, candidate[..k])
    requires k < |candidate| && Plain(candidate[k..])
    requires at == Canonicalize(tree, candidate[..k]).at + candidate[k..]
    ensures candidate[|candidate| - 1] != UP
    ensures Locate(tree, [], Parent(candidate), LINK_LIMIT) == Absent(Parent(at))
    ensures at == Parent(at) + [candidate[|candidate| - 1]]
    ensures NearestAncestor(tree, Parent(candidate), k)
    ensures Parent(candidate)[..k] == candidate[..k] && Plain(Parent(candidate)[k..])
  {
    var base := Canonicalize(tree, candidate[..k]).at;
    var name := candidate[|candidate| - 1];
    assert name == candidate[k..][|candidate| - k - 1];
    AncestorOfParent(tree, candidate, k);
    assert at == base + Parent(candidate)[k..] + [name];
    assert Parent(at) == base + Parent(candidate)[k..];
    LocateIsCanonical(tree, [], candidate[..k], LINK_LIMIT);
    assert base + [] == base;
    assert forall name | name in Parent(candidate)[k..] :: name in candidate[k..];
    LeadsBelow(tree, Parent(candidate), k);
  }

  // The retry finds the same place, once its parents are made.
  lemma RetryFinds(tree: Tree, ready: Tree, roots: Roots, request: Request, at: Path)
    requires WellFormed(tree) && WellFormed(ready) && Target(tree, roots, request, at) && at !in tree
    requires Candidate(roots, request.path).Success?
    requires
      var candidate := Candidate(roots, request.path).value.0;
      && candidate != [] && candidate[|candidate| - 1] != UP
      && at == Parent(at) + [candidate[|candidate| - 1]]
      && OnlyDirectoriesAdded(tree, ready, Parent(at))
      && IsDirectory(ready, Parent(at))
      && Locate(ready, [], Parent(candidate), LINK_LIMIT) == Existing(Parent(at))
    ensures ResolveForInPlaceWrite(ready, roots, request.path) == Success(at)
    ensures Direct(ready, at) && at !in ready
  {
    var (candidate, root) := Candidate(roots, request.path).value;
    var boundary := root.canonicalPath;
    var name := candidate[|candidate| - 1];
    StaysDirect(tree, ready, at);
    assert candidate == Parent(candidate) + [name];
    LocateThrough(ready, [], Parent(candidate), [name], LINK_LIMIT, 0);
    assert boundary == at[..|boundary|] && boundary != at;
    assert IsDirectory(tree, boundary);
    CreationIsComplete(ready, candidate, boundary, 0, LINK_LIMIT);
  }

  lemma ParentsAreMade(tree: Tree, roots: Roots, request: Request, at: Path, k: nat, written: Outcome)
    requires WellFormed(tree) && request.Write? && Target(tree, roots, request, at) && written.Written?
    requires at !in tree && !IsDirectory(tree, Parent(at))
    requires ResolveForInPlaceWrite(tree, roots, request.path) == Success(at)
    requires
      var candidate := Candidate(roots, request.path).value.0;
      && Lstat(tree, candidate) == Missing
      && NearestAncestor(tree, candidate, k) && ReachesDirectory(tree, candidate[..k])
    ensures
      var directory := Parent(Candidate(roots, request.path).value.0);
      var m := RetryInPlace(tree, roots, directory, request, NoFault, written);
      m.outcome == written && Holds(tree, m.tree, at, request.data)
  {
    var directory := Parent(Candidate(roots, request.path).value.0);
    MissingPlace(tree, roots, request, at, k);
    MissingParent(tree, Candidate(roots, request.path).value.0, at, k);
    MissingAreMade(tree, directory, k);
    var ready := CreateDirAll(tree, directory).0;
    RetryFinds(tree, ready, roots, request, at);
    StoreIsExact(ready, at, request.data, written);
    HoldsAfterStore(tree, ready, at, request.data);
  }

  // A link without its target's parent, or an ancestor that reaches no directory.
  lemma ParentsAreNotMade(tree: Tree, roots: Roots, request: Request, at: Path, written: Outcome)
    requires WellFormed(tree) && request.Write? && Target(tree, roots, request, at) && written.Written?
    requires at !in tree && !IsDirectory(tree, Parent(at))
    requires ResolveForInPlaceWrite(tree, roots, request.path) == Success(at)
    requires !CanMakeParents(tree, roots, request)
    ensures
      var directory := Parent(Candidate(roots, request.path).value.0);
      var m := RetryInPlace(tree, roots, directory, request, NoFault, written);
      m.outcome.Failed? && m.tree == tree
  {
    var candidate := Candidate(roots, request.path).value.0;
    MissingTargetHasName(tree, roots, request, at);
    if Lstat(tree, candidate) == Missing {
      var k := SomeAncestor(tree, candidate);
      assert candidate[..|candidate|] == candidate;
      AncestorOfParent(tree, candidate, k);
      NothingIsMade(tree, Parent(candidate), k);
    } else {
      ParentOfFound(tree, candidate);
      ReachedIsFound(tree, Parent(candidate));
      ExistingIsNotMade(tree, Parent(candidate));
      StoreIsExact(tree, at, request.data, written);
    }
  }

  // The parent of a missing candidate resolves if the candidate does.
  lemma ParentResolves(tree: Tree, roots: Roots, spec: ExecutionPath)
    requires Candidate(roots, spec).Success? && spec.path != "."
    requires ResolveForInPlaceWrite(tree, roots, spec).Success?
    requires Lstat(tree, Candidate(roots, spec).value.0) == Missing
    ensures
      var parent := ExecutionPath(spec.rootId, ParentSpelling(spec.path));
      ResolveForDirectoryCreation(tree, roots, parent) == Success(Parent(Candidate(roots, spec).value.0))
  {
    ParentIsSpellable(roots, spec);
  }

  lemma InPlaceIsExact(tree: Tree, roots: Roots, request: Request, at: Path, written: Outcome)
    requires WellFormed(tree) && request.Write? && written.Written?
    requires ResolveForInPlaceWrite(tree, roots, request.path) == Success(at) && !IsDirectory(tree, at)
    ensures
      var m := CommitInPlace(tree, roots, at, request, NoFault, written);
      if IsDirectory(tree, Parent(at)) || (request.createParents && CanMakeParents(tree, roots, request)) then
        m.outcome == written && Holds(tree, m.tree, at, request.data)
      else
        m.outcome.Failed? && m.tree == tree
  {
    ResolvedTarget(tree, roots, request, true);
    StoreIsExact(tree, at, request.data, written);
    NotTheRoot(tree, at);
    if IsDirectory(tree, Parent(at)) {
      HoldsAfterStore(tree, tree, at, request.data);
    } else if request.createParents {
      assert at in tree ==> Hangs(tree, at);
      MissingTargetHasName(tree, roots, request, at);
      ParentIsSpellable(roots, request.path);
      if CanMakeParents(tree, roots, request) {
        var candidate := Candidate(roots, request.path).value.0;
        var k: nat :| NearestAncestor(tree, candidate, k) && ReachesDirectory(tree, candidate[..k]);
        ParentResolves(tree, roots, request.path);
        ParentsAreMade(tree, roots, request, at, k, written);
      } else {
        ParentsAreNotMade(tree, roots, request, at, written);
      }
    }
  }

  /** A write succeeds exactly when it passes every check and its place has a parent
      directory or is given one; then the bytes are there, under directories, and all
      else is as it was. Otherwise nothing changed. */
  lemma WriteIsExact(tree: Tree, roots: Roots, maxWriteBytes: nat, request: Request)
    requires WellFormed(tree) && request.Write?
    ensures
      var m := WriteInner(tree, roots, maxWriteBytes, request, NoFault);
      var r := ResolveTarget(tree, roots, request);
      if Admitted(tree, roots, maxWriteBytes, request) && HasPlace(tree, roots, request, r.value) then
        && m.outcome == Written(request.path, r.value in tree, Sha256(request.data), |request.data|)
        && m.effect == Stored(r.value, request.data)
        && Holds(tree, m.tree, r.value, request.data)
      else
        m.outcome.Failed? && m.tree == tree && m.effect == NoEffect
  {
    WriteAdmits(tree, roots, maxWriteBytes, request, NoFault);
    if Admitted(tree, roots, maxWriteBytes, request) {
      var at := ResolveTarget(tree, roots, request).value;
      var written := Written(request.path, at in tree, Sha256(request.data), |request.data|);
      ResolvedTarget(tree, roots, request, request.followSymlinks);
      if request.strategy == AtomicReplace {
        AtomicIsExact(tree, roots, request, at, written);
      } else {
        InPlaceIsExact(tree, roots, request, at, written);
      }
      CommitKeeps(tree, roots, request, at, NoFault);
      EffectWhenFailed(tree, roots, request, at);
    }
  }

  // Without a fault, only a success has an effect.
  lemma EffectWhenFailed(tree: Tree, roots: Roots, request: Request, at: Path)
    requires request.Write?
    ensures Commit(tree, roots, request, at, NoFault).outcome.Failed? ==>
      Commit(tree, roots, request, at, NoFault).effect == NoEffect
  {}

  /** What a refused write reports, checked in this order. */
  lemma WriteRefusals(tree: Tree, roots: Roots, maxWriteBytes: nat, request: Request, fault: Fault)
    requires WellFormed(tree) && request.Write?
    ensures
      var outcome := WriteInner(tree, roots, maxWriteBytes, request, fault).outcome;
      if |request.data| > maxWriteBytes then outcome == Failed(ResourceExhausted, NoDetail)
      else
        match ResolveTarget(tree, roots, request)
        case Failure(code) => outcome == Failed(code, NoDetail)
        case Success(at) =>
          if IsDirectory(tree, at) then outcome == Failed(IsADirectory, NoDetail)
          else
            && (request.condition == MustNotExist && at in tree ==> outcome == Failed(AlreadyExists, NoDetail))
            && (request.condition.MatchRevision? && !ConditionMet(tree, request.condition, at) ==>
                  outcome == Failed(RevisionConflict, NoDetail))
  {
    ResolvedTarget(tree, roots, request, request.followSymlinks);
    if ResolveTarget(tree, roots, request).Success? {
      LstatOfDirect(tree, ResolveTarget(tree, roots, request).value);
    }
  }

  // ---------- failing writes ----------

  /** A failing write owns up to what it may have done: without a detail the contents
      are untouched; where it stopped half-way the failure says so and what was
      written is at the place; and one that could not commit stored nothing. */
  lemma FailingWritesAreHonest(tree: Tree, roots: Roots, maxWriteBytes: nat, request: Request, fault: Fault)
    requires WellFormed(tree) && request.Write?
    ensures
      var m := WriteInner(tree, roots, maxWriteBytes, request, fault);
      && (m.outcome.Written? || m.outcome.Failed?)
      && (m.outcome.Failed? && m.outcome.detail == NoDetail ==> m.effect == NoEffect)
      && (m.outcome.Failed? && m.effect != NoEffect ==>
            && m.outcome == Failed(Io, PossiblyPartial)
            && fault.WriteStops? && m.effect.Stored? && m.effect.contents == fault.contents
            && ResolveTarget(tree, roots, request) == Success(m.effect.at))
      && (fault == CommitFails ==> m.outcome.Failed? && m.effect == NoEffect)
  {
    WriteAdmits(tree, roots, maxWriteBytes, request, fault);
    if Admitted(tree, roots, maxWriteBytes, request) {
      var at := ResolveTarget(tree, roots, request).value;
      var written := Written(request.path, at in tree, Sha256(request.data), |request.data|);
      ResolvedTarget(tree, roots, request, request.followSymlinks);
      if request.strategy == AtomicReplace {
        AtomicKeeps(tree, roots, request, at, fault, written);
      } else {
        InPlaceKeeps(tree, roots, request, at, fault, written);
        InPlaceFailures(tree, roots, at, request, fault, written);
      }
    }
  }

  // What is known of an in-place store, however it went.
  ghost predicate StoresHonestly(m: Mutation, fault: Fault) {
    && (m.outcome.Failed? && m.effect != NoEffect ==>
          && m.outcome == Failed(Io, PossiblyPartial)
          && fault.WriteStops? && m.effect.Stored? && m.effect.contents == fault.contents)
    && (fault == CommitFails ==> m.outcome.Failed? && m.effect == NoEffect)
    && (m.outcome.Written? || m.outcome.Failed?)
  }

  lemma StoreFailures(tree: Tree, target: Path, data: Bytes, fault: Fault, written: Outcome)
    requires written.Written?
    ensures StoresHonestly(StoreInPlace(tree, target, data, fault, written), fault)
  {}

  lemma RetryFailures(
    tree: Tree, roots: Roots, directory: Path, request: Request, fault: Fault, written: Outcome)
    requires request.Write? && written.Written?
    ensures StoresHonestly(RetryInPlace(tree, roots, directory, request, fault, written), fault)
  {
    var stopped := fault.DirectoriesFail? && fault.depth < |directory|;
    var (ready, failed) := CreateDirAll(tree, if stopped then directory[..fault.depth] else directory);
    var again := ResolveForInPlaceWrite(ready, roots, request.path);
    if again.Success? {
      StoreFailures(ready, again.value, request.data, fault, written);
    }
  }

  lemma InPlaceFailures(tree: Tree, roots: Roots, target: Path, request: Request, fault: Fault, written: Outcome)
    requires request.Write? && written.Written?
    ensures StoresHonestly(CommitInPlace(tree, roots, target, request, fault, written), fault)
  {
    StoreFailures(tree, target, request.data, fault, written);
    var parent := ExecutionPath(request.path.rootId, ParentSpelling(request.path.path));
    var directory := ResolveForDirectoryCreation(tree, roots, parent);
    if directory.Success? {
      RetryFailures(tree, roots, directory.value, request, fault, written);
    }
  }
}
