/**
 What every file mutation keeps: the tree stays well formed, nothing outside the
 root of the request is touched, and the contents at each location change exactly
 as the mutation's effect says.
 */
module MutationSafety {
  import opened Wrappers
  import opened ExecutionErrors
  import opened FileTree
  import opened PathResolver
  import opened FileMutations

  // The revision a location has after an effect.
  function After(effect: Effect, at: Path, before: Option<Revision>): Option<Revision> {
    match effect
    case NoEffect => before
    case Stored(to, contents) => if at == to then Some(Sha256(contents)) else before
    case Deleted(subtrees) => if exists q :: q in subtrees && q <= at then None else before
  }

  // Entries that are not below the boundary are the same in both trees.
  ghost predicate SameOutside(tree: Tree, after: Tree, boundary: Path) {
    forall at | !(boundary <= at) ::
      (at in tree <==> at in after) && (at in tree ==> tree[at] == after[at])
  }

  // An entry is as it was, and a new one is a directory.
  predicate KeptAt(tree: Tree, after: Tree, at: Path) {
    && (at in tree ==> at in after && after[at] == tree[at])
    && (at in after && at !in tree ==> after[at] == Directory)
  }

  // A location is what the effect made it, or is kept.
  predicate TracksAt(tree: Tree, after: Tree, effect: Effect, at: Path) {
    match effect
    case NoEffect => KeptAt(tree, after, at)
    case Stored(to, contents) =>
      if at == to then at in after && after[at] == File(contents) else KeptAt(tree, after, at)
    case Deleted(subtrees) =>
      if exists q :: q in subtrees && q <= at then at !in after
      else KeptAt(tree, after, at) && (at in after ==> at in tree)
  }

  // All that changed, but for new directories, is what the effect says.
  ghost predicate Tracks(tree: Tree, after: Tree, effect: Effect) {
    forall at :: TracksAt(tree, after, effect, at)
  }

  lemma TracksRevisions(tree: Tree, after: Tree, effect: Effect)
    requires Tracks(tree, after, effect)
    ensures forall at :: RevisionAt(after, at) == After(effect, at, RevisionAt(tree, at))
  {
    forall at
      ensures RevisionAt(after, at) == After(effect, at, RevisionAt(tree, at))
    {
      assert TracksAt(tree, after, effect, at);
    }
  }

  // ---------- creating directories ----------

  // Only directories were added, all of them on the way to `to`.
  ghost predicate OnlyDirectoriesAdded(tree: Tree, after: Tree, to: Path) {
    && (forall at | at in tree :: at in after && after[at] == tree[at])
    && (forall at | at in after && at !in tree :: after[at] == Directory && at <= to)
  }

  // A prefix of a path that leads somewhere leads somewhere; if it is missing, so is
  // all below it.
  predicate PrefixFits(whole: Destination, up: Destination, rest: Path) {
    up != Nowhere && (up.Absent? ==> whole == Absent(up.at + rest))
  }

  lemma {:induction false} LocatePrefix(tree: Tree, at: Path, prefix: Path, rest: Path, budget: nat)
    requires Locate(tree, at, prefix + rest, budget) != Nowhere
    ensures PrefixFits(Locate(tree, at, prefix + rest, budget), Locate(tree, at, prefix, budget), rest)
    decreases budget, |prefix|
  {
    if prefix != [] {
      var path := prefix + rest;
      assert path[0] == prefix[0] && path[1..] == prefix[1..] + rest;
      if prefix[0] == UP {
        LocatePrefix(tree, Parent(at), prefix[1..], rest, budget);
      } else {
        var next := at + [prefix[0]];
        if next !in tree {
          LocatePrefixMissing(tree, at, prefix, rest, budget);
        } else if tree[next].Directory? {
          LocatePrefix(tree, next, prefix[1..], rest, budget);
        } else if tree[next].File? {
          assert |path| == 1 && prefix[1..] == [] && rest == [];
          assert path == prefix;
        } else {
          LocatePrefixLink(tree, at, prefix, rest, budget, next);
        }
      }
    }
  }

  lemma LocatePrefixMissing(tree: Tree, at: Path, prefix: Path, rest: Path, budget: nat)
    requires prefix != [] && prefix[0] != UP && at + [prefix[0]] !in tree
    requires Locate(tree, at, prefix + rest, budget) != Nowhere
    ensures PrefixFits(Locate(tree, at, prefix + rest, budget), Locate(tree, at, prefix, budget), rest)
  {
    assert Plain(prefix + rest);
    assert forall name | name in prefix :: name in prefix + rest;
    assert at + (prefix + rest) == at + prefix + rest;
  }

  lemma {:induction false} LocatePrefixLink(
    tree: Tree, at: Path, prefix: Path, rest: Path, budget: nat, next: Path)
    requires prefix != [] && prefix[0] != UP && next == at + [prefix[0]] && next in tree && tree[next].Link?
    requires Locate(tree, at, prefix + rest, budget) != Nowhere
    ensures PrefixFits(Locate(tree, at, prefix + rest, budget), Locate(tree, at, prefix, budget), rest)
    decreases budget, 0
  {
    var target := tree[next].target;
    assert (prefix + rest)[1..] == prefix[1..] + rest;
    assert target.components + (prefix[1..] + rest) == (target.components + prefix[1..]) + rest;
    LocatePrefix(tree, Base(target, at), target.components + prefix[1..], rest, budget - 1);
  }

  // Making the missing directory a path denotes makes the path lead there.
  lemma {:induction false} LocateAdded(tree: Tree, at: Path, rest: Path, budget: nat, to: Path)
    requires WellFormed(tree) && IsDirectory(tree, at)
    requires Locate(tree, at, rest, budget) == Absent(to) && IsDirectory(tree, Parent(to))
    ensures Locate(tree[to := Directory], at, rest, budget) == Existing(to)
    decreases budget, |rest|
  {
    LocateIsDirect(tree, at, rest, budget);
    if rest[0] == UP {
      ParentIsDirectory(tree, at);
      LocateAdded(tree, Parent(at), rest[1..], budget, to);
    } else {
      var next := at + [rest[0]];
      if next !in tree {
        if |rest| > 1 {
          assert Parent(to)[..|next|] == next;
          MissingBelow(tree, Parent(to), |next|);
        } else {
          assert rest == [rest[0]] && to == next;
        }
      } else {
        match tree[next]
        case Directory => LocateAdded(tree, next, rest[1..], budget, to);
        case Link(target) =>
          LocateAdded(tree, Base(target, at), target.components + rest[1..], budget - 1, to);
      }
    }
  }

  lemma AddDirectoryKeeps(tree: Tree, at: Path)
    requires WellFormed(tree) && at !in tree && Plain(at) && IsDirectory(tree, Parent(at))
    ensures WellFormed(tree[at := Directory])
    ensures OnlyDirectoriesAdded(tree, tree[at := Directory], at)
  {
    AddedHangs(tree, at);
  }

  lemma AddedHangs(tree: Tree, at: Path)
    requires WellFormed(tree) && at !in tree && Plain(at) && IsDirectory(tree, Parent(at))
    ensures WellFormed(tree[at := Directory])
  {
    var after := tree[at := Directory];
    forall q | q in after
      ensures Hangs(after, q)
    {
      if q != at {
        assert Hangs(tree, q);
      }
    }
  }

  // The entry a path's last component names, when its parent resolves.
  lemma EntryOfLocated(tree: Tree, path: Path, budget: nat)
    requires WellFormed(tree) && EntryOf(tree, path).Success?
    requires Locate(tree, [], path, budget) != Nowhere
    ensures var at := EntryOf(tree, path).value;
      && Plain(at) && IsDirectory(tree, Parent(at))
      && (at !in tree ==> Locate(tree, [], path, budget) == Absent(at))
  {
    var up := Canonicalize(tree, Parent(path)).at;
    var name := path[|path| - 1];
    LocateIsCanonical(tree, [], Parent(path), LINK_LIMIT);
    assert path == Parent(path) + [name];
    LocateBack(tree, [], Parent(path), [name], LINK_LIMIT, budget);
    assert Hangs(tree, up);
    assert Parent(up + [name]) == up;
  }

  lemma ReachedIsLocated(tree: Tree, path: Path, budget: nat)
    requires WellFormed(tree) && ReachesDirectory(tree, path)
    requires Locate(tree, [], path, budget) != Nowhere
    ensures Locate(tree, [], path, budget).Existing? && IsDirectory(tree, Locate(tree, [], path, budget).at)
  {
    LocateIsCanonical(tree, [], path, LINK_LIMIT);
    LocateDeterministic(tree, path, budget, LINK_LIMIT);
  }

  lemma CreateDirAllKeeps(tree: Tree, path: Path, budget: nat)
    requires WellFormed(tree) && Locate(tree, [], path, budget) != Nowhere
    ensures
      var to := Locate(tree, [], path, budget);
      var (after, failed) := CreateDirAll(tree, path);
      && WellFormed(after)
      && OnlyDirectoriesAdded(tree, after, to.at)
      && (to.Existing? ==> after == tree)
      && (failed.None? ==> Locate(after, [], path, budget) == Existing(to.at) && IsDirectory(after, to.at))
    decreases |path|
  {
    var to := Locate(tree, [], path, budget);
    match MakeDirectory(tree, path)
    case Success(made) =>
      var at := EntryOf(tree, path).value;
      EntryOfLocated(tree, path, budget);
      AddDirectoryKeeps(tree, at);
      LocateAdded(tree, [], path, budget, at);
    case Failure(code) =>
      if code != NotFound {
        if ReachesDirectory(tree, path) {
          ReachedIsLocated(tree, path, budget);
        }
      } else {
        var name := path[|path| - 1];
        assert path == Parent(path) + [name];
        LocatePrefix(tree, [], Parent(path), [name], budget);
        var up := Locate(tree, [], Parent(path), budget);
        LocateIsCanonical(tree, [], Parent(path), budget);
        if up.Existing? {
          if budget <= LINK_LIMIT {
            WalkMonotone(tree, [], Parent(path), true, budget, LINK_LIMIT);
          } else {
            WalkMonotone(tree, [], Parent(path), true, LINK_LIMIT, budget);
          }
          assert false;
        } else {
          CreateDirAllKeeps(tree, Parent(path), budget);
          CreateLast(tree, path, budget, up.at);
        }
      }
  }

  // The second attempt at the last component, once its parent was made.
  lemma CreateLast(tree: Tree, path: Path, budget: nat, up: Path)
    requires WellFormed(tree) && path != [] && path[|path| - 1] != UP
    requires MakeDirectory(tree, path) == Failure(NotFound)
    requires Locate(tree, [], Parent(path), budget) == Absent(up)
    requires Locate(tree, [], path, budget) == Absent(up + [path[|path| - 1]])
    requires
      var (above, failed) := CreateDirAll(tree, Parent(path));
      && WellFormed(above)
      && OnlyDirectoriesAdded(tree, above, up)
      && (failed.None? ==> Locate(above, [], Parent(path), budget) == Existing(up) && IsDirectory(above, up))
    ensures
      var to := up + [path[|path| - 1]];
      var (after, failed) := CreateDirAll(tree, path);
      && WellFormed(after)
      && OnlyDirectoriesAdded(tree, after, to)
      && (failed.None? ==> Locate(after, [], path, budget) == Existing(to) && IsDirectory(after, to))
  {
    var name := path[|path| - 1];
    var to := up + [name];
    var (above, failed) := CreateDirAll(tree, Parent(path));
    if failed.None? {
      assert path == Parent(path) + [name];
      LocateIsDirect(tree, [], path, budget);
      assert to !in above;
      LocateThrough(above, [], Parent(path), [name], budget, 0);
      assert Locate(above, [], path, budget) == Absent(to);
      if MakeDirectory(above, path).Success? {
        var at := EntryOf(above, path).value;
        EntryOfLocated(above, path, budget);
        AddDirectoryKeeps(above, at);
        LocateAdded(above, [], path, budget, at);
      } else if ReachesDirectory(above, path) {
        ReachedIsLocated(above, path, budget);
      }
    }
  }

  // ---------- storing and removing ----------

  lemma StoreKeeps(tree: Tree, at: Path, contents: Bytes)
    requires WellFormed(tree) && Plain(at) && at != [] && IsDirectory(tree, Parent(at)) && !IsDirectory(tree, at)
    ensures WellFormed(tree[at := File(contents)])
    ensures Tracks(tree, tree[at := File(contents)], Stored(at, contents))
  {
    var after := tree[at := File(contents)];
    forall q | q in after
      ensures Hangs(after, q)
    {
      if q != at {
        assert Hangs(tree, q);
      }
    }
  }

  lemma PruneKeeps(tree: Tree, at: Path)
    requires WellFormed(tree) && at != []
    ensures WellFormed(Prune(tree, at))
    ensures Tracks(tree, Prune(tree, at), Deleted([at]))
  {
    var after := Prune(tree, at);
    forall q | q in after
      ensures Hangs(after, q)
    {
      assert Hangs(tree, q);
      assert at <= Parent(q) ==> at <= q;
    }
    PruneTracks(tree, at);
  }

  lemma PruneTracks(tree: Tree, at: Path)
    ensures Tracks(tree, Prune(tree, at), Deleted([at]))
  {
    var subtrees := [at];
    assert at in subtrees;
    forall p
      ensures TracksAt(tree, Prune(tree, at), Deleted(subtrees), p)
    {
      if exists q :: q in subtrees && q <= p {
        assert at <= p;
      }
    }
  }

  lemma {:induction false} PruneAllKeeps(tree: Tree, at: Path, subtrees: seq<Path>)
    requires WellFormed(tree) && at != []
    ensures WellFormed(PruneAll(tree, at, subtrees))
    ensures Tracks(tree, PruneAll(tree, at, subtrees), Deleted(Below(at, subtrees)))
    ensures SameOutside(tree, PruneAll(tree, at, subtrees), at)
    decreases |subtrees|
  {
    if subtrees != [] {
      var first := subtrees[0];
      var once := if at <= first then Prune(tree, first) else tree;
      if at <= first {
        PruneKeeps(tree, first);
      }
      PruneAllKeeps(once, at, subtrees[1..]);
      var rest := Below(at, subtrees[1..]);
      var all := Below(at, subtrees);
      assert forall q :: q in all <==> (at <= first && q == first) || q in rest;
      forall p
        ensures TracksAt(tree, PruneAll(tree, at, subtrees), Deleted(all), p)
      {
        assert TracksAt(once, PruneAll(tree, at, subtrees), Deleted(rest), p);
        if at <= first {
          assert TracksAt(tree, once, Deleted([first]), p);
          assert first in all && first in [first];
        }
      }
    }
  }

  lemma DirectoriesTrack(tree: Tree, after: Tree, to: Path)
    requires OnlyDirectoriesAdded(tree, after, to)
    ensures Tracks(tree, after, NoEffect)
  {}

  // Directories added on the way to a place inside the boundary are inside it too.
  lemma AddedInside(tree: Tree, after: Tree, to: Path, boundary: Path)
    requires WellFormed(tree) && OnlyDirectoriesAdded(tree, after, to)
    requires boundary in tree && boundary <= to
    ensures SameOutside(tree, after, boundary)
  {
    forall at | !(boundary <= at)
      ensures (at in tree <==> at in after) && (at in tree ==> tree[at] == after[at])
    {
      if at in after && at !in tree && at <= to {
        assert at == boundary[..|at|];
        if |at| < |boundary| {
          PrefixesAreDirectories(tree, boundary, |at|);
        }
      }
    }
  }

  // A direct path stays direct, and just as missing, while its parents are made.
  lemma StaysDirect(tree: Tree, after: Tree, target: Path)
    requires WellFormed(tree) && Direct(tree, target) && target != []
    requires OnlyDirectoriesAdded(tree, after, Parent(target))
    ensures Direct(after, target) && (target in after <==> target in tree)
  {}

  lemma EntryOfDirect(tree: Tree, target: Path)
    requires WellFormed(tree) && Direct(tree, target) && target != []
    ensures EntryOf(tree, target).Success? <==> IsDirectory(tree, Parent(target))
    ensures EntryOf(tree, target).Success? ==> EntryOf(tree, target).value == target
    ensures target in tree ==> EntryOf(tree, target).Success?
  {
    assert target in tree ==> Hangs(tree, target);
    DirectParent(tree, target);
    assert Parent(target)[..0] == [] && Parent(target)[0..] == Parent(target);
    DirectWalk(tree, Parent(target), 0, true, LINK_LIMIT);
    assert target == Parent(target) + [target[|target| - 1]];
  }

  lemma LstatOfDirect(tree: Tree, target: Path)
    requires WellFormed(tree) && Direct(tree, target)
    ensures Lstat(tree, target) == if target in tree then Found(target, tree[target]) else Missing
  {
    assert target[..0] == [] && target[0..] == target;
    DirectWalk(tree, target, 0, false, LINK_LIMIT);
  }

  // A resolved path proves that its root exists.
  lemma {:induction false} AncestorHasRoot(tree: Tree, candidate: Path, boundary: Path)
    requires WellFormed(tree) && ThroughExistingAncestor(tree, candidate, boundary).Success?
    ensures boundary in tree
    decreases |candidate|
  {
    if Lstat(tree, candidate).Found? {
      CanonicalLeadsTo(tree, candidate);
      PrefixExists(tree, Canonicalize(tree, candidate).at, boundary);
    } else {
      AncestorHasRoot(tree, Parent(candidate), boundary);
    }
  }

  lemma PrefixExists(tree: Tree, at: Path, prefix: Path)
    requires WellFormed(tree) && at in tree && prefix <= at
    ensures prefix in tree
  {
    if |prefix| < |at| {
      PrefixesAreDirectories(tree, at, |prefix|);
      assert at[..|prefix|] == prefix;
    } else {
      assert prefix == at;
    }
  }

  lemma {:induction false} CreationHasRoot(tree: Tree, candidate: Path, boundary: Path, links: nat)
    requires WellFormed(tree) && ResolveForCreation(tree, candidate, boundary, links).Success?
    ensures boundary in tree
    decreases LINK_LIMIT + 1 - links, |candidate|
  {
    match Lstat(tree, candidate)
    case Found(_, Link(target)) =>
      CreationHasRoot(tree, Base(target, Parent(candidate)) + target.components, boundary, links + 1);
    case Found(_, _) =>
      CanonicalLeadsTo(tree, candidate);
      PrefixExists(tree, Canonicalize(tree, candidate).at, boundary);
    case Missing =>
      CreationHasRoot(tree, Parent(candidate), boundary, links);
  }

  lemma WriteHasRoot(tree: Tree, roots: Roots, spec: ExecutionPath, follow: bool)
    requires WellFormed(tree)
    requires ResolveForWrite(tree, roots, spec, follow).Success?
    ensures roots[spec.rootId].canonicalPath in tree
  {
    ResolvedIsInside(tree, roots, spec, follow);
    var (candidate, root) := Candidate(roots, spec).value;
    if Lstat(tree, candidate) == Missing {
      AncestorHasRoot(tree, candidate, root.canonicalPath);
    } else if follow {
      CanonicalLeadsTo(tree, candidate);
      PrefixExists(tree, Canonicalize(tree, candidate).at, root.canonicalPath);
    } else {
      CanonicalLeadsTo(tree, Parent(candidate));
      PrefixExists(tree, Canonicalize(tree, Parent(candidate)).at, root.canonicalPath);
    }
  }

  // ---------- one mutation ----------

  ghost predicate Confined(tree: Tree, roots: Roots, request: Request, m: Mutation) {
    && WellFormed(m.tree)
    && Tracks(tree, m.tree, m.effect)
    && (m.tree != tree ==>
          && request.path.rootId in roots
          && !roots[request.path.rootId].readOnly
          && SameOutside(tree, m.tree, roots[request.path.rootId].canonicalPath))
  }

  lemma Unchanged(tree: Tree, roots: Roots, request: Request, m: Mutation)
    requires WellFormed(tree) && m.tree == tree && m.effect == NoEffect
    ensures Confined(tree, roots, request, m)
  {}

  // What a resolved write target is known to be.
  ghost predicate Target(tree: Tree, roots: Roots, request: Request, target: Path) {
    && request.path.rootId in roots
    && !roots[request.path.rootId].readOnly
    && var boundary := roots[request.path.rootId].canonicalPath;
    && boundary in tree && boundary <= target
    && Direct(tree, target)
  }

  // Making the parents of a target, or some of them.
  lemma ParentsKeep(tree: Tree, roots: Roots, request: Request, target: Path, k: nat)
    requires WellFormed(tree) && Target(tree, roots, request, target) && target != [] && k < |target|
    ensures var (after, failed) := CreateDirAll(tree, target[..k]);
      && WellFormed(after)
      && OnlyDirectoriesAdded(tree, after, target[..k])
      && OnlyDirectoriesAdded(tree, after, Parent(target))
      && SameOutside(tree, after, roots[request.path.rootId].canonicalPath)
  {
    var boundary := roots[request.path.rootId].canonicalPath;
    var part := target[..k];
    assert Direct(tree, part) by {
      forall j | 0 <= j < k && part[..j] in tree
        ensures tree[part[..j]] == Directory
      {
        assert part[..j] == target[..j];
      }
    }
    assert part[..0] == [] && part[0..] == part;
    DirectLocate(tree, part, 0);
    CreateDirAllKeeps(tree, part, 0);
    var (after, failed) := CreateDirAll(tree, part);
    if part !in tree {
      if !(boundary <= part) {
        assert part == boundary[..k];
        PrefixesAreDirectories(tree, boundary, k);
        assert false;
      }
      AddedInside(tree, after, part, boundary);
    }
  }

  lemma TracksAfterDirectories(tree: Tree, ready: Tree, after: Tree, effect: Effect)
    requires Tracks(tree, ready, NoEffect) && Tracks(ready, after, effect) && !effect.Deleted?
    ensures Tracks(tree, after, effect)
  {
    forall at
      ensures TracksAt(tree, after, effect, at)
    {
      assert TracksAt(ready, after, effect, at) && TracksAt(tree, ready, NoEffect, at);
    }
  }

  lemma MakeParentsKeep(
    tree: Tree, roots: Roots, request: Request, target: Path, createParents: bool, fault: Fault)
    requires WellFormed(tree) && Target(tree, roots, request, target)
    ensures var (ready, failed) := MakeParents(tree, target, createParents, fault);
      && WellFormed(ready)
      && Tracks(tree, ready, NoEffect)
      && SameOutside(tree, ready, roots[request.path.rootId].canonicalPath)
      && Direct(ready, target) && (target in ready <==> target in tree)
  {
    if createParents && target != [] {
      var k := if fault.DirectoriesFail? && fault.depth < |target| - 1 then fault.depth else |target| - 1;
      ParentsKeep(tree, roots, request, target, k);
      var ready := CreateDirAll(tree, target[..k]).0;
      StaysDirect(tree, ready, target);
      DirectoriesTrack(tree, ready, Parent(target));
    }
  }

  lemma AtomicKeeps(tree: Tree, roots: Roots, request: Request, target: Path, fault: Fault, written: Outcome)
    requires WellFormed(tree) && request.Write? && Target(tree, roots, request, target) && written.Written?
    requires target != []
    ensures Confined(tree, roots, request, CommitAtomic(tree, target, request, fault, written))
    ensures var m := CommitAtomic(tree, target, request, fault, written);
      && (m.outcome.Written? ==> m.outcome == written && m.effect == Stored(target, request.data))
      && (m.effect != NoEffect ==> m.outcome.Written?)
      && !m.effect.Deleted?
  {
    var m := CommitAtomic(tree, target, request, fault, written);
    MakeParentsKeep(tree, roots, request, target, request.createParents, fault);
    var ready := MakeParents(tree, target, request.createParents, fault).0;
    if m.effect != NoEffect {
      EntryOfDirect(ready, target);
      StoreKeeps(ready, target, request.data);
      TracksAfterDirectories(tree, ready, m.tree, m.effect);
    }
  }

  lemma StoreInPlaceKeeps(
    tree: Tree, roots: Roots, request: Request, target: Path, data: Bytes, fault: Fault, written: Outcome)
    requires WellFormed(tree) && Target(tree, roots, request, target) && written.Written?
    requires target in tree ==> !tree[target].Link?
    ensures var m := StoreInPlace(tree, target, data, fault, written);
      && Confined(tree, roots, request, m)
      && (m.outcome.Written? ==> m.outcome == written && m.effect == Stored(target, data))
      && (m.effect != NoEffect ==> m.effect.Stored? && m.effect.at == target)
  {
    var m := StoreInPlace(tree, target, data, fault, written);
    assert target[..0] == [] && target[0..] == target;
    DirectLocate(tree, target, 0);
    LocateMonotone(tree, [], target, 0, LINK_LIMIT);
    if m.effect != NoEffect {
      if target in tree {
        assert Hangs(tree, target);
      }
      StoreKeeps(tree, target, m.effect.contents);
    }
  }

  lemma ParentSpellingIsParent(roots: Roots, spec: ExecutionPath)
    requires Candidate(roots, spec).Success? && spec.path != "."
    requires var parent := ExecutionPath(spec.rootId, ParentSpelling(spec.path));
      Candidate(roots, parent).Success?
    ensures var parent := ExecutionPath(spec.rootId, ParentSpelling(spec.path));
      Candidate(roots, parent).value == (Parent(Candidate(roots, spec).value.0), Candidate(roots, spec).value.1)
  {
    var pieces := Split(spec.path, '/');
    var boundary := roots[spec.rootId].canonicalPath;
    var above := pieces[..|pieces| - 1];
    assert Parent(boundary + pieces) == boundary + above;
    if |pieces| == 1 {
      assert Components(ParentSpelling(spec.path)) == above;
    } else {
      SplitJoin(above, '/');
      if |above| > 1 {
        JoinHas(above, '/');
      } else {
        assert above[0] in pieces;
      }
      assert Components(ParentSpelling(spec.path)) == above;
    }
  }

  lemma ShorterPrefix(boundary: Path, up: Path, name: string)
    requires boundary <= up + [name] && boundary != up + [name]
    ensures boundary <= up
  {}

  // The root itself exists, so a missing target has a name below it.
  lemma MissingTargetHasName(tree: Tree, roots: Roots, request: Request, target: Path)
    requires WellFormed(tree) && Target(tree, roots, request, target) && target !in tree
    requires ResolveForInPlaceWrite(tree, roots, request.path) == Success(target)
    ensures
      var candidate := Candidate(roots, request.path).value.0;
      request.path.path != "." && candidate != [] && candidate[|candidate| - 1] != UP
  {
    var (candidate, root) := Candidate(roots, request.path).value;
    var boundary := root.canonicalPath;
    ValidPathsAreCanonical(roots, request.path, request.path);
    if candidate == boundary {
      CreationIsSound(tree, candidate, boundary, 0);
      assert boundary != target && boundary == target[..|boundary|];
      assert IsDirectory(tree, target[..|boundary|]);
      ExistingIsDirect(tree, boundary);
      assert boundary[..0] == [] && boundary[0..] == boundary;
      DirectLocate(tree, boundary, 0);
      LeadsToOnce(tree, boundary, Existing(boundary), Absent(target));
    } else {
      var below := candidate[|boundary|..];
      assert candidate == boundary + below;
      assert below[|below| - 1] in below;
    }
  }

  // An in-place target that is missing: where the candidate and its parent lead.
  lemma MissingTarget(tree: Tree, roots: Roots, request: Request, target: Path) returns (budget: nat)
    requires WellFormed(tree) && request.Write? && Target(tree, roots, request, target) && target !in tree
    requires ResolveForInPlaceWrite(tree, roots, request.path) == Success(target)
    ensures
      var candidate := Candidate(roots, request.path).value.0;
      var up := Locate(tree, [], Parent(candidate), budget);
      && Locate(tree, [], candidate, budget) == Absent(target)
      && up != Nowhere
      && (up.Absent? ==> target == up.at + [candidate[|candidate| - 1]]
                         && roots[request.path.rootId].canonicalPath <= up.at)
  {
    var (candidate, root) := Candidate(roots, request.path).value;
    var boundary := root.canonicalPath;
    MissingTargetHasName(tree, roots, request, target);
    CreationIsSound(tree, candidate, boundary, 0);
    budget :| Locate(tree, [], candidate, budget) == Absent(target);
    var name := candidate[|candidate| - 1];
    assert candidate == Parent(candidate) + [name];
    LocatePrefix(tree, [], Parent(candidate), [name], budget);
    var up := Locate(tree, [], Parent(candidate), budget);
    if up.Absent? {
      ShorterPrefix(boundary, up.at, name);
    }
  }

  // The parents made for an in-place write: only missing directories on the way
  // to the target.
  lemma LogicalParentsKeep(tree: Tree, roots: Roots, request: Request, target: Path, budget: nat, k: nat)
    requires WellFormed(tree) && Target(tree, roots, request, target) && target !in tree
    requires Candidate(roots, request.path).Success?
    requires
      var directory := Parent(Candidate(roots, request.path).value.0);
      var up := Locate(tree, [], directory, budget);
      && up != Nowhere && k <= |directory|
      && (up.Absent? ==> up.at < target && roots[request.path.rootId].canonicalPath <= up.at)
    ensures
      var directory := Parent(Candidate(roots, request.path).value.0);
      var (after, failed) := CreateDirAll(tree, directory[..k]);
      && WellFormed(after)
      && Tracks(tree, after, NoEffect)
      && SameOutside(tree, after, roots[request.path.rootId].canonicalPath)
      && target !in after
      && (failed.None? && k == |directory| ==>
            var up := Locate(tree, [], directory, budget);
            Locate(after, [], directory, budget) == Existing(up.at) && IsDirectory(after, up.at)
            && (up.Existing? ==> after == tree))
  {
    var directory := Parent(Candidate(roots, request.path).value.0);
    var up := Locate(tree, [], directory, budget);
    assert directory == directory[..k] + directory[k..];
    LocatePrefix(tree, [], directory[..k], directory[k..], budget);
    CreateDirAllKeeps(tree, directory[..k], budget);
    var (after, failed) := CreateDirAll(tree, directory[..k]);
    var part := Locate(tree, [], directory[..k], budget);
    if part.Absent? {
      assert part.at <= up.at;
      assert OnlyDirectoriesAdded(tree, after, up.at);
      AddedInside(tree, after, up.at, roots[request.path.rootId].canonicalPath);
    }
    DirectoriesTrack(tree, after, part.at);
    if k == |directory| {
      assert directory[..k] == directory;
    }
  }

  // Once they are made, the request still denotes the same target.
  lemma SameTargetAgain(tree: Tree, after: Tree, roots: Roots, request: Request, target: Path, budget: nat)
    requires WellFormed(tree) && WellFormed(after) && target !in after
    requires ResolveForInPlaceWrite(after, roots, request.path).Success?
    requires
      var candidate := Candidate(roots, request.path).value.0;
      var up := Locate(tree, [], Parent(candidate), budget);
      && candidate != [] && candidate[|candidate| - 1] != UP
      && Locate(tree, [], candidate, budget) == Absent(target)
      && up != Nowhere
      && (up.Absent? ==> target == up.at + [candidate[|candidate| - 1]])
      && Locate(after, [], Parent(candidate), budget) == Existing(up.at) && IsDirectory(after, up.at)
      && (up.Existing? ==> after == tree)
    ensures
      var again := ResolveForInPlaceWrite(after, roots, request.path).value;
      again == target && Target(after, roots, request, again)
  {
    var (candidate, root) := Candidate(roots, request.path).value;
    var name := candidate[|candidate| - 1];
    var up := Locate(tree, [], Parent(candidate), budget);
    assert candidate == Parent(candidate) + [name];
    ResolvedIsInside(after, roots, request.path, true);
    CreationHasRoot(after, candidate, root.canonicalPath, 0);
    CreationIsSound(after, candidate, root.canonicalPath, 0);
    if up.Absent? {
      LocateThrough(after, [], Parent(candidate), [name], budget, 0);
    }
    assert Locate(after, [], candidate, budget) == Absent(target);
    var again := ResolveForInPlaceWrite(after, roots, request.path).value;
    LeadsToOnce(after, candidate, Absent(target), Place(after, again));
  }

  lemma RetryKeeps(tree: Tree, roots: Roots, request: Request, target: Path, fault: Fault, written: Outcome)
    requires WellFormed(tree) && request.Write? && Target(tree, roots, request, target) && written.Written?
    requires target !in tree
    requires ResolveForInPlaceWrite(tree, roots, request.path) == Success(target)
    ensures
      var directory := Parent(Candidate(roots, request.path).value.0);
      var m := RetryInPlace(tree, roots, directory, request, fault, written);
      && Confined(tree, roots, request, m)
      && (m.outcome.Written? ==> m.outcome == written && m.effect == Stored(target, request.data))
      && (m.effect != NoEffect ==> m.effect.Stored? && m.effect.at == target)
  {
    var directory := Parent(Candidate(roots, request.path).value.0);
    var m := RetryInPlace(tree, roots, directory, request, fault, written);
    var stopped := fault.DirectoriesFail? && fault.depth < |directory|;
    var k := if stopped then fault.depth else |directory|;
    assert directory[..|directory|] == directory;
    MissingTargetHasName(tree, roots, request, target);
    var budget := MissingTarget(tree, roots, request, target);
    LogicalParentsKeep(tree, roots, request, target, budget, k);
    var (ready, failed) := CreateDirAll(tree, directory[..k]);
    if !stopped && failed.None? && ResolveForInPlaceWrite(ready, roots, request.path).Success? {
      SameTargetAgain(tree, ready, roots, request, target, budget);
      StoreInPlaceKeeps(ready, roots, request, target, request.data, fault, written);
      TracksAfterDirectories(tree, ready, m.tree, m.effect);
    }
  }

  lemma InPlaceKeeps(tree: Tree, roots: Roots, request: Request, target: Path, fault: Fault, written: Outcome)
    requires WellFormed(tree) && request.Write? && Target(tree, roots, request, target) && written.Written?
    requires target in tree ==> !tree[target].Link?
    requires ResolveForInPlaceWrite(tree, roots, request.path) == Success(target)
    ensures var m := CommitInPlace(tree, roots, target, request, fault, written);
      && Confined(tree, roots, request, m)
      && (m.outcome.Written? ==> m.outcome == written && m.effect == Stored(target, request.data))
      && (m.effect != NoEffect ==> m.effect.Stored? && m.effect.at == target)
  {
    var m := CommitInPlace(tree, roots, target, request, fault, written);
    match WriteThrough(tree, target, request.data)
    case Success(_) => StoreInPlaceKeeps(tree, roots, request, target, request.data, fault, written);
    case Failure(code) =>
      if code != NotFound || !request.createParents {
        Unchanged(tree, roots, request, m);
      } else {
        NotFoundIsMissing(tree, roots, request, target);
        RetryKeeps(tree, roots, request, target, fault, written);
        MissingTargetHasName(tree, roots, request, target);
        var parent := ExecutionPath(request.path.rootId, ParentSpelling(request.path.path));
        if ResolveForDirectoryCreation(tree, roots, parent).Success? {
          ParentSpellingIsParent(roots, request.path);
        } else {
          Unchanged(tree, roots, request, m);
        }
      }
  }

  lemma NotFoundIsMissing(tree: Tree, roots: Roots, request: Request, target: Path)
    requires WellFormed(tree) && request.Write? && Target(tree, roots, request, target)
    requires target in tree ==> !tree[target].Link?
    requires WriteThrough(tree, target, request.data) == Failure(NotFound)
    ensures target !in tree
  {
    assert target[..0] == [] && target[0..] == target;
    DirectLocate(tree, target, 0);
    LocateMonotone(tree, [], target, 0, LINK_LIMIT);
  }

  // ---------- the theorems ----------

  // A resolved target is inside an existing, writable root.
  lemma ResolvedTarget(tree: Tree, roots: Roots, request: Request, follow: bool)
    requires WellFormed(tree)
    ensures var r := ResolveForWrite(tree, roots, request.path, follow);
      r.Success? ==> Target(tree, roots, request, r.value)
    ensures var r := ResolveForInPlaceWrite(tree, roots, request.path);
      r.Success? ==> Target(tree, roots, request, r.value) && (r.value in tree ==> !tree[r.value].Link?)
  {
    ResolvedIsInside(tree, roots, request.path, follow);
    if ResolveForWrite(tree, roots, request.path, follow).Success? {
      WriteHasRoot(tree, roots, request.path, follow);
    }
    if ResolveForInPlaceWrite(tree, roots, request.path).Success? {
      var (candidate, root) := Candidate(roots, request.path).value;
      CreationHasRoot(tree, candidate, root.canonicalPath, 0);
    }
  }

  // What a successful write found at the place it stored its bytes.
  ghost predicate ConditionMet(tree: Tree, condition: WriteCondition, at: Path) {
    match condition
    case Any => true
    case MustNotExist => at !in tree
    case MatchRevision(revision) => RevisionAt(tree, at) == Some(revision)
  }

  // The request passed every check before anything is touched.
  ghost predicate Admitted(tree: Tree, roots: Roots, maxWriteBytes: nat, request: Request)
    requires request.Write?
  {
    && |request.data| <= maxWriteBytes
    && ResolveTarget(tree, roots, request).Success?
    && var target := ResolveTarget(tree, roots, request).value;
    && !IsDirectory(tree, target)
    && ConditionMet(tree, request.condition, target)
  }

  function Commit(tree: Tree, roots: Roots, request: Request, target: Path, fault: Fault): Mutation
    requires request.Write?
  {
    var written := Written(request.path, target in tree, Sha256(request.data), |request.data|);
    if request.strategy == AtomicReplace then CommitAtomic(tree, target, request, fault, written)
    else CommitInPlace(tree, roots, target, request, fault, written)
  }

  // A write commits exactly when it is admitted, and is otherwise a no-op.
  lemma WriteAdmits(tree: Tree, roots: Roots, maxWriteBytes: nat, request: Request, fault: Fault)
    requires WellFormed(tree) && request.Write?
    ensures var m := WriteInner(tree, roots, maxWriteBytes, request, fault);
      if Admitted(tree, roots, maxWriteBytes, request) then
        m == Commit(tree, roots, request, ResolveTarget(tree, roots, request).value, fault)
      else
        m.tree == tree && m.outcome.Failed? && m.effect == NoEffect
  {
    ResolvedTarget(tree, roots, request, request.followSymlinks);
    if ResolveTarget(tree, roots, request).Success? {
      LstatOfDirect(tree, ResolveTarget(tree, roots, request).value);
    }
  }

  /** A write is confined; when it succeeds, its condition held at the very place
      where its bytes are now, and its receipt says so. */
  lemma {:induction false} WriteKeeps(tree: Tree, roots: Roots, maxWriteBytes: nat, request: Request, fault: Fault)
    requires WellFormed(tree) && request.Write?
    ensures Confined(tree, roots, request, WriteInner(tree, roots, maxWriteBytes, request, fault))
    ensures var m := WriteInner(tree, roots, maxWriteBytes, request, fault);
      && !m.effect.Deleted?
      && (m.outcome.Written? ==>
            && m.effect.Stored? && m.effect.contents == request.data
            && ResolveTarget(tree, roots, request) == Success(m.effect.at)
            && ConditionMet(tree, request.condition, m.effect.at)
            && m.outcome == Written(request.path, m.effect.at in tree, Sha256(request.data), |request.data|))
      && (m.effect != NoEffect && request.strategy == AtomicReplace ==> m.outcome.Written?)
  {
    WriteAdmits(tree, roots, maxWriteBytes, request, fault);
    var m := WriteInner(tree, roots, maxWriteBytes, request, fault);
    if !Admitted(tree, roots, maxWriteBytes, request) {
      Unchanged(tree, roots, request, m);
    } else {
      ResolvedTarget(tree, roots, request, request.followSymlinks);
      CommitKeeps(tree, roots, request, ResolveTarget(tree, roots, request).value, fault);
    }
  }

  lemma CommitKeeps(tree: Tree, roots: Roots, request: Request, target: Path, fault: Fault)
    requires WellFormed(tree) && request.Write? && Target(tree, roots, request, target)
    requires ResolveTarget(tree, roots, request) == Success(target) && !IsDirectory(tree, target)
    ensures Confined(tree, roots, request, Commit(tree, roots, request, target, fault))
    ensures var m := Commit(tree, roots, request, target, fault);
      && !m.effect.Deleted?
      && (m.outcome.Written? ==>
            && m.effect == Stored(target, request.data)
            && m.outcome == Written(request.path, target in tree, Sha256(request.data), |request.data|))
      && (m.effect != NoEffect && request.strategy == AtomicReplace ==> m.outcome.Written?)
  {
    var written := Written(request.path, target in tree, Sha256(request.data), |request.data|);
    if request.strategy == AtomicReplace {
      AtomicKeeps(tree, roots, request, target, fault, written);
    } else {
      ResolvedTarget(tree, roots, request, true);
      InPlaceKeeps(tree, roots, request, target, fault, written);
    }
  }

  // Creating a directory at a resolved place.
  lemma MakeKeeps(tree: Tree, roots: Roots, request: Request, target: Path)
    requires WellFormed(tree) && Target(tree, roots, request, target) && target != []
    ensures var m := Mutation(CreateDirAll(tree, target).0, DirectoryCreated, NoEffect);
      Confined(tree, roots, request, m)
    ensures var made := MakeDirectory(tree, target);
      made.Success? ==>
        && Confined(tree, roots, request, Mutation(made.value, DirectoryCreated, NoEffect))
        && target !in tree && made.value == tree[target := Directory]
        && OnlyDirectoriesAdded(tree, made.value, target)
    ensures var (after, failed) := CreateDirAll(tree, target);
      && OnlyDirectoriesAdded(tree, after, target)
      && (target in tree ==> after == tree && (failed.None? ==> ReachesDirectory(tree, target)))
      && (target !in tree && failed.None? ==> IsDirectory(after, target))
  {
    EntryOfDirect(tree, target);
    if target !in tree {
      var boundary := roots[request.path.rootId].canonicalPath;
      assert target[..0] == [] && target[0..] == target;
      DirectLocate(tree, target, 0);
      CreateDirAllKeeps(tree, target, 0);
      var all := CreateDirAll(tree, target).0;
      AddedInside(tree, all, target, boundary);
      DirectoriesTrack(tree, all, target);
      if MakeDirectory(tree, target).Success? {
        var made := tree[target := Directory];
        AddDirectoryKeeps(tree, target);
        AddedInside(tree, made, target, boundary);
        DirectoriesTrack(tree, made, target);
      }
    }
  }

  // Directories made, or not, on the way to the place the request resolves to.
  ghost predicate MadeTowards(tree: Tree, request: Request, target: Path, m: Mutation)
    requires request.CreateDirectory?
  {
    && OnlyDirectoriesAdded(tree, m.tree, target)
    && (m.outcome == DirectoryCreated ==>
          if target !in tree then
            IsDirectory(m.tree, target) && (!request.recursive ==> m.tree == tree[target := Directory])
          else
            request.recursive && m.tree == tree && ReachesDirectory(tree, target))
  }

  /** A creation is confined, and changes nothing but to add directories on the way
      to the resolved place; when it succeeds, that is a directory, or was already
      there and leads to one. */
  lemma CreateDirectoryKeeps(tree: Tree, roots: Roots, request: Request, fault: Fault)
    requires WellFormed(tree) && request.CreateDirectory?
    ensures var m := CreateDirectoryInner(tree, roots, request, fault);
      Confined(tree, roots, request, m) && m.effect == NoEffect
    ensures var m := CreateDirectoryInner(tree, roots, request, fault);
      match ResolveForWrite(tree, roots, request.path, false)
      case Failure(code) => m == Refused(tree, code)
      case Success(target) => MadeTowards(tree, request, target, m)
  {
    var m := CreateDirectoryInner(tree, roots, request, fault);
    ResolvedTarget(tree, roots, request, false);
    var r := ResolveForWrite(tree, roots, request.path, false);
    if r.Failure? || r.value == [] {
      Unchanged(tree, roots, request, m);
    } else {
      var target := r.value;
      MakeKeeps(tree, roots, request, target);
      if request.recursive && fault.DirectoriesFail? && fault.depth < |target| {
        ParentsKeep(tree, roots, request, target, fault.depth);
        DirectoriesTrack(tree, m.tree, Parent(target));
        assert Parent(target) <= target;
      }
    }
  }

  // Removing a resolved entry.
  lemma UnlinkKeeps(
    tree: Tree, roots: Roots, request: Request, target: Path, isDirectory: bool, recursive: bool, fault: Fault)
    requires WellFormed(tree) && Target(tree, roots, request, target) && target != []
    ensures Confined(tree, roots, request, Unlink(tree, target, isDirectory, recursive, fault))
    ensures var m := Unlink(tree, target, isDirectory, recursive, fault);
      && !m.effect.Stored?
      && (m.outcome.Removed? ==> m.outcome.removed && m.effect == Deleted([target]))
      && (m.effect != NoEffect && m.outcome.Failed? ==> recursive)
      && SameOutside(tree, m.tree, target)
  {
    var m := Unlink(tree, target, isDirectory, recursive, fault);
    EntryOfDirect(tree, target);
    if m.effect == NoEffect {
      Unchanged(tree, roots, request, m);
    } else if isDirectory && recursive && fault.RemovalStops? {
      PruneAllKeeps(tree, target, fault.gone);
    } else {
      PruneKeeps(tree, target);
    }
  }

  /** A removal is confined to the resolved entry; when it succeeds, that existed in
      the expected revision and is gone with everything below it; only a recursive
      removal that fails can have removed a part. */
  lemma RemoveKeeps(tree: Tree, roots: Roots, request: Request, fault: Fault)
    requires WellFormed(tree) && request.Remove?
    ensures Confined(tree, roots, request, RemoveInner(tree, roots, request, fault))
    ensures var m := RemoveInner(tree, roots, request, fault);
      && !m.effect.Stored?
      && (m.outcome == Removed(true) ==>
            && ResolveForWrite(tree, roots, request.path, false).Success?
            && var at := ResolveForWrite(tree, roots, request.path, false).value;
            && m.effect == Deleted([at]) && at in tree
            && (request.expectedRevision.Some? ==> RevisionAt(tree, at) == request.expectedRevision))
      && (m.outcome == Removed(false) ==> request.ignoreMissing && m.tree == tree && m.effect == NoEffect)
      && (m.effect != NoEffect && m.outcome.Failed? ==> request.recursive)
      && (m.tree != tree ==>
            && ResolveForWrite(tree, roots, request.path, false).Success?
            && SameOutside(tree, m.tree, ResolveForWrite(tree, roots, request.path, false).value))
  {
    ResolvedTarget(tree, roots, request, false);
    var m := RemoveInner(tree, roots, request, fault);
    var r := ResolveForWrite(tree, roots, request.path, false);
    if request.path.path == "." || r.Failure? {
      Unchanged(tree, roots, request, m);
    } else {
      var target := r.value;
      LstatOfDirect(tree, target);
      if target in tree && target != [] && RemovalFailure(tree, roots, request, tree[target]).None? {
        var isDirectory := tree[target] == Directory;
        UnlinkKeeps(tree, roots, request, target, isDirectory, request.recursive, fault);
        assert m == Unlink(tree, target, isDirectory, request.recursive, fault);
      } else {
        Unchanged(tree, roots, request, m);
      }
    }
  }

  /** Every mutation, failed or not, keeps the tree well formed, stays inside its
      writable root, and changes contents exactly as its effect says. */
  lemma MutationIsConfined(tree: Tree, roots: Roots, maxWriteBytes: nat, request: Request, fault: Fault)
    requires WellFormed(tree)
    ensures Confined(tree, roots, request, Mutate(tree, roots, maxWriteBytes, request, fault))
  {
    match request
    case Write(_, _, _, _, _, _, _, _) => WriteKeeps(tree, roots, maxWriteBytes, request, fault);
    case CreateDirectory(_, _, _) => CreateDirectoryKeeps(tree, roots, request, fault);
    case Remove(_, _, _, _, _, _, _) => RemoveKeeps(tree, roots, request, fault);
  }
}
