/**
 The supervisor's file mutations: what a write, a directory creation or a removal
 does to the file tree, including every refused or failed attempt.
 */
module FileMutations {
  import opened Wrappers
  import opened ExecutionErrors
  import opened FileTree
  import opened PathResolver

  // SHA-256, taken to be injective.
  datatype Revision = Sha256(bytes: Bytes)

  datatype WriteCondition = Any | MustNotExist | MatchRevision(revision: Revision)

  datatype WriteStrategy = AtomicReplace | InPlace

  datatype RemoveTargetKind = AnyTarget | FileTarget

  datatype Request =
    | Write(
        operationId: string, expectedGeneration: Option<string>, strategy: WriteStrategy,
        path: ExecutionPath, data: Bytes, condition: WriteCondition,
        createParents: bool, followSymlinks: bool)
    | CreateDirectory(operationId: string, path: ExecutionPath, recursive: bool)
    | Remove(
        operationId: string, expectedGeneration: Option<string>, targetKind: RemoveTargetKind,
        path: ExecutionPath, recursive: bool, ignoreMissing: bool, expectedRevision: Option<Revision>)
  {
    // Only writes and removals can carry a generation.
    function Fence(): Option<string> {
      if CreateDirectory? then None else expectedGeneration
    }

    predicate Valid() {
      && ValidPath(path.path)
      && (Write? && strategy == InPlace ==> expectedGeneration.Some? && followSymlinks)
      && (Remove? ==> !(targetKind == FileTarget && recursive))
    }
  }

  // What is known about an effect that was cut short.
  datatype Detail = NoDetail | OutcomeUnknown | PossiblyPartial

  datatype Outcome =
    | Failed(code: ErrorCode, detail: Detail)
    | Written(path: ExecutionPath, existed: bool, revision: Revision, bytesWritten: nat)
    | DirectoryCreated
    | Removed(removed: bool)

  // I/O failures the environment may inject into one mutation.
  datatype Fault =
    | NoFault
    | DirectoriesFail(depth: nat)     // creating parents stops after this many components
    | CommitFails                     // the rename, open, mkdir or unlink itself fails
    | WriteStops(contents: Bytes)     // an in-place write leaves these contents
    | RemovalStops(gone: seq<Path>)   // a recursive removal got this far

  // The change made to entries other than new directories.
  datatype Effect =
    | NoEffect
    | Stored(at: Path, contents: Bytes)
    | Deleted(subtrees: seq<Path>)

  datatype Mutation = Mutation(tree: Tree, outcome: Outcome, effect: Effect)

  function Refused(tree: Tree, code: ErrorCode): Mutation {
    Mutation(tree, Failed(code, NoDetail), NoEffect)
  }

  function LinkText(target: LinkTarget): Bytes {
    (if target.absolute then "/" else "")
    + if target.components == [] then "" else Join(target.components, '/')
  }

  // The revision of the entry at a location: files and links have one.
  function RevisionAt(tree: Tree, at: Path): Option<Revision> {
    if at !in tree then None
    else
      match tree[at]
      case Directory => None
      case File(contents) => Some(Sha256(contents))
      case Link(target) => Some(Sha256(LinkText(target)))
  }

  // ---------- system calls ----------

  // The entry an unlink, rename or mkdir of this path acts on.
  function EntryOf(tree: Tree, path: Path): Result<Path, ErrorCode> {
    if path == [] || path[|path| - 1] == UP then Failure(Io)
    else
      match Canonicalize(tree, Parent(path))
      case Found(directory, Directory) => Success(directory + [path[|path| - 1]])
      case Found(_, _) => Failure(Io)
      case failed => Failure(IoError(failed))
  }

  function MakeDirectory(tree: Tree, path: Path): Result<Tree, ErrorCode> {
    if path == [] || path[|path| - 1] == UP then Failure(AlreadyExists)
    else
      match EntryOf(tree, path)
      case Failure(code) => Failure(code)
      case Success(at) => if at in tree then Failure(AlreadyExists) else Success(tree[at := Directory])
  }

  predicate ReachesDirectory(tree: Tree, path: Path) {
    Canonicalize(tree, path).Found? && Canonicalize(tree, path).node == Directory
  }

  // std::fs::create_dir_all, which keeps what it made before it failed.
  function CreateDirAll(tree: Tree, path: Path): (Tree, Option<ErrorCode>)
    decreases |path|
  {
    match MakeDirectory(tree, path)
    case Success(made) => (made, None)
    case Failure(code) =>
      if code != NotFound then
        (tree, if ReachesDirectory(tree, path) then None else Some(code))
      else if path == [] then (tree, Some(code))
      else
        var (above, failed) := CreateDirAll(tree, Parent(path));
        if failed.Some? then (above, failed)
        else
          match MakeDirectory(above, path)
          case Success(made) => (made, None)
          case Failure(again) => (above, if ReachesDirectory(above, path) then None else Some(again))
  }

  // open(2) with O_CREAT and O_TRUNC, then write(2).
  function WriteThrough(tree: Tree, path: Path, contents: Bytes): Result<(Tree, Path), ErrorCode> {
    match Locate(tree, [], path, LINK_LIMIT)
    case Existing(at) =>
      if at in tree && tree[at].File? then Success((tree[at := File(contents)], at)) else Failure(Io)
    case Absent(at) =>
      if IsDirectory(tree, Parent(at)) then Success((tree[at := File(contents)], at)) else Failure(NotFound)
    case Nowhere => Failure(IoError(Canonicalize(tree, path)))
  }

  // A temporary file renamed over the entry.
  function Replace(tree: Tree, path: Path, contents: Bytes): Result<(Tree, Path), ErrorCode> {
    match EntryOf(tree, path)
    case Failure(code) => Failure(code)
    case Success(at) =>
      if IsDirectory(tree, at) then Failure(Io) else Success((tree[at := File(contents)], at))
  }

  function Prune(tree: Tree, at: Path): Tree {
    map path | path in tree && !(at <= path) :: tree[path]
  }

  // Drops the listed subtrees, as far as they are below `at`.
  function PruneAll(tree: Tree, at: Path, subtrees: seq<Path>): Tree {
    if subtrees == [] then tree
    else PruneAll(if at <= subtrees[0] then Prune(tree, subtrees[0]) else tree, at, subtrees[1..])
  }

  // ---------- write_inner ----------

  function ConditionFailure(tree: Tree, at: Path, existing: Walked, condition: WriteCondition): Option<ErrorCode> {
    match condition
    case Any => None
    case MustNotExist => if existing.Found? then Some(AlreadyExists) else None
    case MatchRevision(revision) =>
      if !existing.Found? then Some(RevisionConflict)
      else
        var current :=
          match existing.node
          case File(contents) => Some(Sha256(contents))
          case Link(target) => Some(Sha256(LinkText(target)))
          case Directory => None;
        if current.None? then Some(InvalidRequest)
        else if current.value != revision then Some(RevisionConflict)
        else None
  }

  function ResolveTarget(tree: Tree, roots: Roots, request: Request): Resolved
    requires request.Write?
  {
    if request.strategy == AtomicReplace then
      ResolveForWrite(tree, roots, request.path, request.followSymlinks)
    else
      ResolveForInPlaceWrite(tree, roots, request.path)
  }

  function WriteInner(tree: Tree, roots: Roots, maxWriteBytes: nat, request: Request, fault: Fault): Mutation
    requires request.Write?
  {
    if |request.data| > maxWriteBytes then Refused(tree, ResourceExhausted)
    else
      match ResolveTarget(tree, roots, request)
      case Failure(code) => Refused(tree, code)
      case Success(target) =>
        var existing := Lstat(tree, target);
        if !existing.Found? && existing != Missing then Refused(tree, IoError(existing))
        else if existing.Found? && existing.node == Directory then Refused(tree, IsADirectory)
        else
          var unmet := ConditionFailure(tree, target, existing, request.condition);
          if unmet.Some? then Refused(tree, unmet.value)
          else
            var written := Written(request.path, existing.Found?, Sha256(request.data), |request.data|);
            if request.strategy == AtomicReplace then
              CommitAtomic(tree, target, request, fault, written)
            else
              CommitInPlace(tree, roots, target, request, fault, written)
  }

  function MakeParents(tree: Tree, target: Path, createParents: bool, fault: Fault): (Tree, Option<ErrorCode>) {
    if !createParents || target == [] then (tree, None)
    else if fault.DirectoriesFail? && fault.depth < |target| - 1 then
      (CreateDirAll(tree, target[..fault.depth]).0, Some(Io))
    else CreateDirAll(tree, target[..|target| - 1])
  }

  function CommitAtomic(tree: Tree, target: Path, request: Request, fault: Fault, written: Outcome): Mutation
    requires request.Write?
  {
    var (ready, failed) := MakeParents(tree, target, request.createParents, fault);
    if failed.Some? then Refused(ready, failed.value)
    else if fault == CommitFails then Refused(ready, Io)
    else
      match Replace(ready, target, request.data)
      case Failure(code) => Refused(ready, code)
      case Success((after, at)) => Mutation(after, written, Stored(at, request.data))
  }

  function CommitInPlace(
    tree: Tree, roots: Roots, target: Path, request: Request, fault: Fault, written: Outcome): Mutation
    requires request.Write?
  {
    match WriteThrough(tree, target, request.data)
    case Success(_) => StoreInPlace(tree, target, request.data, fault, written)
    case Failure(code) =>
      if code != NotFound || !request.createParents then
        Mutation(tree, Failed(code, PossiblyPartial), NoEffect)
      else
        // Parents are made along the request's own spelling, wherever a link at its
        // end points to.
        var parent := ExecutionPath(request.path.rootId, ParentSpelling(request.path.path));
        match ResolveForDirectoryCreation(tree, roots, parent)
        case Failure(code) => Refused(tree, code)
        case Success(directory) =>
          RetryInPlace(tree, roots, directory, request, fault, written)
  }

  // The retry, after making the missing parents; containment is checked again.
  function RetryInPlace(
    tree: Tree, roots: Roots, directory: Path, request: Request, fault: Fault, written: Outcome): Mutation
    requires request.Write?
  {
    var stopped := fault.DirectoriesFail? && fault.depth < |directory|;
    var (ready, failed) := CreateDirAll(tree, if stopped then directory[..fault.depth] else directory);
    if stopped || failed.Some? then Refused(ready, if failed.Some? then failed.value else Io)
    else
      match ResolveForInPlaceWrite(ready, roots, request.path)
      case Failure(code) => Refused(ready, code)
      case Success(again) => StoreInPlace(ready, again, request.data, fault, written)
  }

  // path.rsplit_once('/'), or "." for a path of one component.
  function ParentSpelling(path: string): string {
    var pieces := Split(path, '/');
    if |pieces| == 1 then "." else Join(pieces[..|pieces| - 1], '/')
  }

  function StoreInPlace(tree: Tree, target: Path, data: Bytes, fault: Fault, written: Outcome): Mutation {
    var stored := if fault.WriteStops? then fault.contents else data;
    if fault == CommitFails then Mutation(tree, Failed(Io, PossiblyPartial), NoEffect)
    else match WriteThrough(tree, target, stored)
    case Failure(code) => Mutation(tree, Failed(code, PossiblyPartial), NoEffect)
    case Success((after, at)) =>
      Mutation(after, if fault.WriteStops? then Failed(Io, PossiblyPartial) else written, Stored(at, stored))
  }

  // ---------- create_directory_inner ----------

  function CreateDirectoryInner(tree: Tree, roots: Roots, request: Request, fault: Fault): Mutation
    requires request.CreateDirectory?
  {
    match ResolveForWrite(tree, roots, request.path, false)
    case Failure(code) => Refused(tree, code)
    case Success(target) =>
      if request.recursive then
        var stopped := fault.DirectoriesFail? && fault.depth < |target|;
        var (after, failed) := CreateDirAll(tree, if stopped then target[..fault.depth] else target);
        if stopped || failed.Some? then Refused(after, if failed.Some? then failed.value else Io)
        else Mutation(after, DirectoryCreated, NoEffect)
      else if fault == CommitFails then Refused(tree, Io)
      else
        match MakeDirectory(tree, target)
        case Failure(code) => Refused(tree, code)
        case Success(after) => Mutation(after, DirectoryCreated, NoEffect)
  }

  // ---------- remove_inner ----------

  function RemoveInner(tree: Tree, roots: Roots, request: Request, fault: Fault): Mutation
    requires request.Remove?
  {
    if request.path.path == "." then Refused(tree, InvalidRequest)
    else
      match ResolveForWrite(tree, roots, request.path, false)
      case Failure(code) => Refused(tree, code)
      case Success(target) =>
        match Lstat(tree, target)
        case Missing =>
          if request.ignoreMissing then Mutation(tree, Removed(false), NoEffect)
          else Refused(tree, NotFound)
        case Found(_, node) =>
          var unmet := RemovalFailure(tree, roots, request, node);
          if unmet.Some? then Refused(tree, unmet.value)
          else Unlink(tree, target, node == Directory, request.recursive, fault)
        case failed => Refused(tree, IoError(failed))
  }

  function RemovalFailure(tree: Tree, roots: Roots, request: Request, node: Node): Option<ErrorCode>
    requires request.Remove?
  {
    var followed := ResolveExisting(tree, roots, request.path, true);
    if request.targetKind == FileTarget && followed.Failure? then Some(followed.error)
    else if request.targetKind == FileTarget && ReachesDirectory(tree, followed.value) then Some(IsADirectory)
    else
      match request.expectedRevision
      case None => None
      case Some(revision) =>
        match node
        case Directory => Some(InvalidRequest)
        case File(contents) => if Sha256(contents) == revision then None else Some(RevisionConflict)
        case Link(target) => if Sha256(LinkText(target)) == revision then None else Some(RevisionConflict)
  }

  // unlink(2), rmdir(2), or std::fs::remove_dir_all.
  function Unlink(tree: Tree, target: Path, isDirectory: bool, recursive: bool, fault: Fault): Mutation {
    match EntryOf(tree, target)
    case Failure(code) => Refused(tree, code)
    case Success(at) =>
      if fault == CommitFails then Refused(tree, Io)
      else if isDirectory && !recursive && exists path :: path in tree && at < path then Refused(tree, Io)
      else if isDirectory && recursive && fault.RemovalStops? then
        Mutation(PruneAll(tree, at, fault.gone), Failed(Io, NoDetail), Deleted(Below(at, fault.gone)))
      else Mutation(Prune(tree, at), Removed(true), Deleted([at]))
  }

  function Below(at: Path, paths: seq<Path>): seq<Path> {
    if paths == [] then []
    else (if at <= paths[0] then [paths[0]] else []) + Below(at, paths[1..])
  }

  function Mutate(tree: Tree, roots: Roots, maxWriteBytes: nat, request: Request, fault: Fault): Mutation {
    match request
    case Write(_, _, _, _, _, _, _, _) => WriteInner(tree, roots, maxWriteBytes, request, fault)
    case CreateDirectory(_, _, _) => CreateDirectoryInner(tree, roots, request, fault)
    case Remove(_, _, _, _, _, _, _) => RemoveInner(tree, roots, request, fault)
  }
}
