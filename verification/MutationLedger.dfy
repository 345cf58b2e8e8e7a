/**
 The supervisor's ledger of mutations: which calls execute, which are answered from
 a record, and what the record of an operation ID may become.
 */
module MutationLedger {
  import opened Wrappers
  import opened ExecutionErrors
  import opened FileTree
  import opened PathResolver
  import opened FileMutations

  // ---------- request fingerprints ----------

  // The field names of the encoding.
  datatype Key =
    | OperationIdKey | PathKey | DataKey | ConditionKey | CreateParentsKey | FollowSymlinksKey
    | ExpectedGenerationKey | StrategyKey | RecursiveKey | IgnoreMissingKey | TargetKindKey
    | ExpectedRevisionKey | RootIdKey | TypeKey | RevisionKey

  // The JSON values a request serializes to; object keys are unique, so an
  // object is the map of its fields.
  datatype Json =
    | Text(text: string)
    | Flag(flag: bool)
    | Object(fields: map<Key, Json>)

  function PathJson(path: ExecutionPath): Json {
    Object(map[RootIdKey := Text(path.rootId), PathKey := Text(path.path)])
  }

  function ConditionJson(condition: WriteCondition): Json {
    match condition
    case Any => Object(map[TypeKey := Text("any")])
    case MustNotExist => Object(map[TypeKey := Text("must_not_exist")])
    case MatchRevision(revision) =>
      Object(map[TypeKey := Text("match_revision"), RevisionKey := Text(revision.bytes)])
  }

  function With(fields: map<Key, Json>, key: Key, value: Option<string>): map<Key, Json> {
    if value.Some? then fields[key := Text(value.value)] else fields
  }

  // The fields every request of a kind has ...
  function RequiredFields(request: Request): map<Key, Json> {
    var fields: map<Key, Json> := map[];
    match request
    case Write(id, _, _, path, data, condition, createParents, followSymlinks) =>
      fields[OperationIdKey := Text(id)][PathKey := PathJson(path)][DataKey := Text(data)]
        [ConditionKey := ConditionJson(condition)]
        [CreateParentsKey := Flag(createParents)][FollowSymlinksKey := Flag(followSymlinks)]
    case CreateDirectory(id, path, recursive) =>
      fields[OperationIdKey := Text(id)][PathKey := PathJson(path)][RecursiveKey := Flag(recursive)]
    case Remove(id, _, _, path, recursive, ignoreMissing, _) =>
      fields[OperationIdKey := Text(id)][PathKey := PathJson(path)]
        [RecursiveKey := Flag(recursive)][IgnoreMissingKey := Flag(ignoreMissing)]
  }

  // ... and those that legacy defaults leave out of the encoding.
  function Strategy(request: Request): Option<string>
    requires request.Write?
  {
    if request.strategy == InPlace then Some("in_place") else None
  }

  function Kind(request: Request): Option<string>
    requires request.Remove?
  {
    if request.targetKind == FileTarget then Some("file") else None
  }

  function Expected(request: Request): Option<string>
    requires request.Remove?
  {
    if request.expectedRevision.Some? then Some(request.expectedRevision.value.bytes) else None
  }

  function Encode(request: Request): map<Key, Json> {
    var fields := With(RequiredFields(request), ExpectedGenerationKey, request.Fence());
    match request
    case Write(_, _, _, _, _, _, _, _) => With(fields, StrategyKey, Strategy(request))
    case CreateDirectory(_, _, _) => fields
    case Remove(_, _, _, _, _, _, _) =>
      With(With(fields, TargetKindKey, Kind(request)), ExpectedRevisionKey, Expected(request))
  }

  // The digest of the encoding, taken to be injective.
  datatype Fingerprint = Fingerprint(fields: map<Key, Json>)

  function FingerprintOf(request: Request): Fingerprint {
    Fingerprint(Encode(request))
  }

  // serde's reading of those fields, with defaults for what is missing.
  function TextAt(fields: map<Key, Json>, key: Key): string {
    if key in fields && fields[key].Text? then fields[key].text else ""
  }

  function FlagAt(fields: map<Key, Json>, key: Key): bool {
    key in fields && fields[key] == Flag(true)
  }

  function ObjectAt(fields: map<Key, Json>, key: Key): map<Key, Json> {
    if key in fields && fields[key].Object? then fields[key].fields else map[]
  }

  function OptionalAt(fields: map<Key, Json>, key: Key): Option<string> {
    if key in fields then Some(TextAt(fields, key)) else None
  }

  function Decode(fields: map<Key, Json>): Request {
    var id := TextAt(fields, OperationIdKey);
    var generation := OptionalAt(fields, ExpectedGenerationKey);
    var path := DecodePath(ObjectAt(fields, PathKey));
    if DataKey in fields then
      Write(
        id, generation,
        if StrategyKey in fields then InPlace else AtomicReplace,
        path, TextAt(fields, DataKey), DecodeCondition(ObjectAt(fields, ConditionKey)),
        FlagAt(fields, CreateParentsKey), FlagAt(fields, FollowSymlinksKey))
    else if IgnoreMissingKey in fields then
      var revision := OptionalAt(fields, ExpectedRevisionKey);
      Remove(
        id, generation,
        if TargetKindKey in fields then FileTarget else AnyTarget,
        path, FlagAt(fields, RecursiveKey), FlagAt(fields, IgnoreMissingKey),
        if revision.Some? then Some(Sha256(revision.value)) else None)
    else
      CreateDirectory(id, path, FlagAt(fields, RecursiveKey))
  }

  function DecodePath(fields: map<Key, Json>): ExecutionPath {
    ExecutionPath(TextAt(fields, RootIdKey), TextAt(fields, PathKey))
  }

  function DecodeCondition(fields: map<Key, Json>): WriteCondition {
    if RevisionKey in fields then MatchRevision(Sha256(TextAt(fields, RevisionKey)))
    else if TextAt(fields, TypeKey) == "any" then Any
    else MustNotExist
  }

  lemma DecodeConditionEncoded(condition: WriteCondition)
    ensures DecodeCondition(ConditionJson(condition).fields) == condition
  {}

  lemma DecodePathEncoded(path: ExecutionPath)
    ensures DecodePath(PathJson(path).fields) == path
  {}

  predicate Has(fields: map<Key, Json>, key: Key, value: Json) { key in fields && fields[key] == value }

  // What is decoded from the required fields of a write ...
  predicate WriteFields(fields: map<Key, Json>, request: Request)
    requires request.Write?
  {
    && Has(fields, OperationIdKey, Text(request.operationId))
    && Has(fields, PathKey, PathJson(request.path))
    && Has(fields, DataKey, Text(request.data))
    && Has(fields, ConditionKey, ConditionJson(request.condition))
    && Has(fields, CreateParentsKey, Flag(request.createParents))
    && Has(fields, FollowSymlinksKey, Flag(request.followSymlinks))
  }

  // ... and of a removal.
  predicate RemoveFields(fields: map<Key, Json>, request: Request)
    requires request.Remove?
  {
    && Has(fields, OperationIdKey, Text(request.operationId))
    && Has(fields, PathKey, PathJson(request.path))
    && Has(fields, RecursiveKey, Flag(request.recursive))
    && Has(fields, IgnoreMissingKey, Flag(request.ignoreMissing))
    && DataKey !in fields
  }

  lemma RequiredWrite(request: Request)
    requires request.Write?
    ensures WriteFields(RequiredFields(request), request)
    ensures ExpectedGenerationKey !in RequiredFields(request) && StrategyKey !in RequiredFields(request)
  {}

  lemma RequiredRemove(request: Request)
    requires request.Remove?
    ensures RemoveFields(RequiredFields(request), request)
    ensures var fields := RequiredFields(request);
      ExpectedGenerationKey !in fields && TargetKindKey !in fields && ExpectedRevisionKey !in fields
  {}

  // An optional field is found again, and hides no other.
  lemma WithField(fields: map<Key, Json>, key: Key, value: Option<string>, other: Key)
    requires key !in fields && other != key
    ensures OptionalAt(With(fields, key, value), key) == value
    ensures (key in With(fields, key, value)) == value.Some?
    ensures (other in With(fields, key, value)) == (other in fields)
    ensures OptionalAt(With(fields, key, value), other) == OptionalAt(fields, other)
  {}

  lemma WriteWith(fields: map<Key, Json>, request: Request, key: Key, value: Option<string>)
    requires request.Write? && WriteFields(fields, request)
    requires key.ExpectedGenerationKey? || key.StrategyKey?
    ensures WriteFields(With(fields, key, value), request)
  {}

  lemma RemoveWith(fields: map<Key, Json>, request: Request, key: Key, value: Option<string>)
    requires request.Remove? && RemoveFields(fields, request)
    requires key.ExpectedGenerationKey? || key.TargetKindKey? || key.ExpectedRevisionKey?
    ensures RemoveFields(With(fields, key, value), request)
  {}

  lemma DecodeWriteFields(fields: map<Key, Json>, request: Request)
    requires request.Write? && WriteFields(fields, request)
    requires OptionalAt(fields, ExpectedGenerationKey) == request.expectedGeneration
    requires StrategyKey in fields <==> request.strategy == InPlace
    ensures Decode(fields) == request
  {
    DecodePathEncoded(request.path);
    DecodeConditionEncoded(request.condition);
  }

  lemma DecodeRemoveFields(fields: map<Key, Json>, request: Request)
    requires request.Remove? && RemoveFields(fields, request)
    requires OptionalAt(fields, ExpectedGenerationKey) == request.expectedGeneration
    requires TargetKindKey in fields <==> request.targetKind == FileTarget
    requires OptionalAt(fields, ExpectedRevisionKey) == Expected(request)
    ensures Decode(fields) == request
  {
    DecodePathEncoded(request.path);
  }

  lemma DecodeWrite(request: Request)
    requires request.Write?
    ensures Decode(Encode(request)) == request
  {
    var required := RequiredFields(request);
    var fenced := With(required, ExpectedGenerationKey, request.Fence());
    RequiredWrite(request);
    WriteWith(required, request, ExpectedGenerationKey, request.Fence());
    WithField(required, ExpectedGenerationKey, request.Fence(), StrategyKey);
    WriteWith(fenced, request, StrategyKey, Strategy(request));
    WithField(fenced, StrategyKey, Strategy(request), ExpectedGenerationKey);
    DecodeWriteFields(Encode(request), request);
  }

  lemma DecodeRemove(request: Request)
    requires request.Remove?
    ensures Decode(Encode(request)) == request
  {
    var required := RequiredFields(request);
    var fenced := With(required, ExpectedGenerationKey, request.Fence());
    var kinded := With(fenced, TargetKindKey, Kind(request));
    RequiredRemove(request);
    RemoveWith(required, request, ExpectedGenerationKey, request.Fence());
    WithField(required, ExpectedGenerationKey, request.Fence(), TargetKindKey);
    WithField(required, ExpectedGenerationKey, request.Fence(), ExpectedRevisionKey);
    RemoveWith(fenced, request, TargetKindKey, Kind(request));
    WithField(fenced, TargetKindKey, Kind(request), ExpectedGenerationKey);
    WithField(fenced, TargetKindKey, Kind(request), ExpectedRevisionKey);
    RemoveWith(kinded, request, ExpectedRevisionKey, Expected(request));
    WithField(kinded, ExpectedRevisionKey, Expected(request), ExpectedGenerationKey);
    WithField(kinded, ExpectedRevisionKey, Expected(request), TargetKindKey);
    DecodeRemoveFields(Encode(request), request);
  }

  lemma DecodeCreateDirectory(request: Request)
    requires request.CreateDirectory?
    ensures Decode(Encode(request)) == request
  {
    DecodePathEncoded(request.path);
  }

  lemma DecodeEncoded(request: Request)
    ensures Decode(Encode(request)) == request
  {
    match request
    case Write(_, _, _, _, _, _, _, _) => DecodeWrite(request);
    case CreateDirectory(_, _, _) => DecodeCreateDirectory(request);
    case Remove(_, _, _, _, _, _, _) => DecodeRemove(request);
  }

  /** Leaving defaults out of the encoding confuses no two requests, not even of
      different kinds. */
  lemma FingerprintsDistinguish(a: Request, b: Request)
    requires FingerprintOf(a) == FingerprintOf(b)
    ensures a == b
  {
    DecodeEncoded(a);
    DecodeEncoded(b);
  }

  // ---------- the ledger ----------

  datatype Record = Record(fingerprint: Fingerprint, outcome: Outcome)

  type Records = map<string, Record>

  // The answer while nobody knows what became of an execution.
  const UNKNOWN := Failed(ExecutionLost, OutcomeUnknown)

  const CONFLICT := Failed(OperationConflict, NoDetail)

  datatype Admission =
    | Refuse(outcome: Outcome)
    | Execute(records: Records)

  function Replay(record: Record, request: Request): Outcome {
    if record.fingerprint != FingerprintOf(request) then CONFLICT
    else
      match record.outcome
      case Failed(_, _) => record.outcome
      case Written(_, _, _, _) => if request.Write? then record.outcome else CONFLICT
      case DirectoryCreated => if request.CreateDirectory? then record.outcome else CONFLICT
      case Removed(_) => if request.Remove? then record.outcome else CONFLICT
  }

  // What happens before any file is touched.
  function Admit(generation: string, records: Records, request: Request): Admission {
    var id := request.operationId;
    if !request.Valid() then Refuse(Failed(InvalidRequest, NoDetail))
    else if request.Fence().Some? && request.Fence().value != generation then
      Refuse(Failed(ExecutionLost, NoDetail))
    else if id in records then Refuse(Replay(records[id], request))
    else if request.Fence().Some? then
      Execute(records[id := Record(FingerprintOf(request), UNKNOWN)])
    else Execute(records)
  }

  // What is recorded once the outcome is known.
  function Settle(records: Records, request: Request, outcome: Outcome): Records {
    if outcome.Failed? && request.Fence().None? then records
    else records[request.operationId := Record(FingerprintOf(request), outcome)]
  }

  datatype Supervisor = Supervisor(
    generation: string, roots: Roots, maxWriteBytes: nat, records: Records, tree: Tree)

  datatype Served = Served(next: Supervisor, outcome: Outcome, effect: Effect, executed: bool)

  // One mutation call that runs to its end.
  function Call(s: Supervisor, request: Request, fault: Fault): Served {
    match Admit(s.generation, s.records, request)
    case Refuse(outcome) => Served(s, outcome, NoEffect, false)
    case Execute(records) =>
      var m := Mutate(s.tree, s.roots, s.maxWriteBytes, request, fault);
      Served(s.(records := Settle(records, request, m.outcome), tree := m.tree), m.outcome, m.effect, true)
  }

  /** The supervisor's file system service. */
  class SupervisorFileSystem {
    const generation: string
    const roots: Roots
    const maxWriteBytes: nat
    var records: Records
    var tree: Tree

    function State(): Supervisor
      reads this
    {
      Supervisor(generation, roots, maxWriteBytes, records, tree)
    }

    constructor (roots: Roots, maxWriteBytes: nat, generation: string, tree: Tree)
      ensures State() == Supervisor(generation, roots, maxWriteBytes, map[], tree)
    {
      this.generation, this.roots, this.maxWriteBytes := generation, roots, maxWriteBytes;
      this.records, this.tree := map[], tree;
    }

    // The checks shared by writes and removals; the tombstone is in place when
    // the mutation may start.
    method Begin(request: Request) returns (refused: Option<Outcome>)
      modifies this`records
      ensures match Admit(generation, old(records), request)
        case Refuse(outcome) => refused == Some(outcome) && records == old(records)
        case Execute(ready) => refused == None && records == ready
    {
      if !request.Valid() {
        return Some(Failed(InvalidRequest, NoDetail));
      }
      if request.Fence().Some? && request.Fence().value != generation {
        return Some(Failed(ExecutionLost, NoDetail));
      }
      if request.operationId in records {
        return Some(Replay(records[request.operationId], request));
      }
      if request.Fence().Some? {
        records := records[request.operationId := Record(FingerprintOf(request), UNKNOWN)];
      }
      return None;
    }

    method Write(request: Request, fault: Fault) returns (outcome: Outcome)
      requires request.Write?
      modifies this
      ensures var served := Call(old(State()), request, fault);
        State() == served.next && outcome == served.outcome
    {
      var refused := Begin(request);
      if refused.Some? {
        return refused.value;
      }
      var m := WriteInner(tree, roots, maxWriteBytes, request, fault);
      tree := m.tree;
      if m.outcome.Failed? {
        if request.expectedGeneration.Some? {
          records := records[request.operationId := Record(FingerprintOf(request), m.outcome)];
        }
        return m.outcome;
      }
      records := records[request.operationId := Record(FingerprintOf(request), m.outcome)];
      return m.outcome;
    }

    method CreateDirectory(request: Request, fault: Fault) returns (outcome: Outcome)
      requires request.CreateDirectory?
      modifies this
      ensures var served := Call(old(State()), request, fault);
        State() == served.next && outcome == served.outcome
    {
      if !request.Valid() {
        return Failed(InvalidRequest, NoDetail);
      }
      if request.operationId in records {
        return Replay(records[request.operationId], request);
      }
      var m := CreateDirectoryInner(tree, roots, request, fault);
      tree := m.tree;
      if m.outcome.Failed? {
        return m.outcome;
      }
      records := records[request.operationId := Record(FingerprintOf(request), m.outcome)];
      return m.outcome;
    }

    method Remove(request: Request, fault: Fault) returns (outcome: Outcome)
      requires request.Remove?
      modifies this
      ensures var served := Call(old(State()), request, fault);
        State() == served.next && outcome == served.outcome
    {
      var refused := Begin(request);
      if refused.Some? {
        return refused.value;
      }
      var m := RemoveInner(tree, roots, request, fault);
      tree := m.tree;
      if m.outcome.Failed? {
        if request.expectedGeneration.Some? {
          records := records[request.operationId := Record(FingerprintOf(request), m.outcome)];
        }
        return m.outcome;
      }
      records := records[request.operationId := Record(FingerprintOf(request), m.outcome)];
      return m.outcome;
    }
  }
}
