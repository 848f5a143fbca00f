/** gyza/audit.py: one forensic verdict over the envelopes of a workflow. Hashing, JSON decoding and
    the bounds predicate are parameters; a resolver is a function from a content address to what
    is held under it. */
module Audit {
  import opened Common
  import opened Topo
  import opened Provenance
  import opened DagVerifier
  import opened DagLaws

  type Bytes = seq<Byte>

  /** What matters of a decoded artifact: its enforcement record, if it has one, and the number of
      subtasks it announces. */
  datatype Artifact = Artifact(enforcement: Option<string>, subtasks: nat)

  /** A manifest: its canonical text and its spawn grant. */
  datatype Manifest = Manifest(text: string, spawnPermitted: bool, maxChildren: int)

  datatype Checks = Checks(
    scheme: Scheme,
    digest: Bytes -> Digest,
    decode: Bytes -> Artifact,
    manifestHash: Manifest -> Digest,
    satisfies: (string, Manifest) -> bool)

  datatype Resolvers = Resolvers(artifact: Digest -> Option<Bytes>, manifest: Digest -> Option<Manifest>)

  datatype Reason =
    | Fine | NotResolvable | Tampered | ManifestMissing | ManifestMismatch | OutOfBounds
    | NoManifestForSubtasks | NoSpawnAuthority | TooManySubtasks | BindingFailed

  datatype Row = Row(
    actionId: string, envelopeHash: Digest, isExecution: bool, bindingOk: bool,
    manifestBoundOk: bool, withinBounds: bool, ok: bool, reason: Reason)

  datatype Report = Report(dag: DagVerification, actions: seq<Row>, valid: bool)

  // ------------------------------------------------------------------
  // What a passing row means
  // ------------------------------------------------------------------

  /** The artifact resolves and hashes to the signed output. */
  predicate Bound(k: Checks, r: Resolvers, e: Envelope) {
    var art := r.artifact(e.payload.outputHash);
    art.Some? && k.digest(art.value) == e.payload.outputHash
  }

  /** An execution ran under the very manifest its envelope names, and within it. */
  predicate ExecutionWithin(k: Checks, r: Resolvers, e: Envelope, record: string) {
    var m := r.manifest(e.payload.manifestHash);
    m.Some? && k.manifestHash(m.value) == e.payload.manifestHash && k.satisfies(record, m.value)
  }

  /** A decomposition stayed within the spawn grant of the manifest that resolves. */
  predicate SubtasksWithin(r: Resolvers, e: Envelope, n: nat) {
    var m := r.manifest(e.payload.manifestHash);
    m.Some? && m.value.spawnPermitted && n <= m.value.maxChildren
  }

  /** What the audit demands of one envelope's evidence. */
  predicate ActionSound(k: Checks, r: Resolvers, requireAll: bool, e: Envelope) {
    if r.artifact(e.payload.outputHash).None? then !requireAll
    else
      var art := k.decode(r.artifact(e.payload.outputHash).value);
      && Bound(k, r, e)
      && (art.enforcement.Some? ==> ExecutionWithin(k, r, e, art.enforcement.value))
      && (art.subtasks > 0 ==> SubtasksWithin(r, e, art.subtasks))
  }

  /** The audit of one envelope, flag by flag. The fall-back reason is never needed, and a row
      passes exactly when its evidence is sound. */
  method AuditRow(k: Checks, r: Resolvers, requireAll: bool, e: Envelope) returns (row: Row)
    ensures row.ok <==> ActionSound(k, r, requireAll, e)
    ensures var art, m := r.artifact(e.payload.outputHash), r.manifest(e.payload.manifestHash);
            row.ok <==>
            if art.None? then !requireAll
            else var obj := k.decode(art.value);
                 && k.digest(art.value) == e.payload.outputHash
                 && (obj.enforcement.Some? ==> m.Some? && k.manifestHash(m.value) == e.payload.manifestHash
                                               && k.satisfies(obj.enforcement.value, m.value))
                 && (obj.subtasks > 0 ==> m.Some? && m.value.spawnPermitted && obj.subtasks <= m.value.maxChildren)
    ensures var art, m := r.artifact(e.payload.outputHash), r.manifest(e.payload.manifestHash);
            match row.reason
            case Fine => row.ok
            case NotResolvable => !row.ok && art.None? && requireAll
            case Tampered => !row.ok && art.Some? && k.digest(art.value) != e.payload.outputHash
            case ManifestMissing => !row.ok && row.isExecution && m.None?
            case ManifestMismatch => !row.ok && row.isExecution && m.Some? && k.manifestHash(m.value) != e.payload.manifestHash
            case OutOfBounds => !row.ok && art.Some? && k.decode(art.value).enforcement.Some?
                                && m.Some? && k.manifestHash(m.value) == e.payload.manifestHash
                                && !k.satisfies(k.decode(art.value).enforcement.value, m.value)
            case NoManifestForSubtasks => !row.ok && m.None?
            case NoSpawnAuthority => !row.ok && m.Some? && !m.value.spawnPermitted
            case TooManySubtasks => !row.ok && art.Some? && m.Some? && k.decode(art.value).subtasks > m.value.maxChildren
            case BindingFailed => false
    ensures row.bindingOk <==> Bound(k, r, e)
    ensures row.actionId == e.payload.actionId && row.envelopeHash == Hash(k.scheme, e)
    ensures row == RowOf(k, r, requireAll, e)
  {
    var art := r.artifact(e.payload.outputHash);
    var bindingOk := art.Some? && k.digest(art.value) == e.payload.outputHash;
    var isExecution, manifestBoundOk, withinBounds := false, true, true;
    var reason := Fine;
    if art.None? {
      if requireAll {
        reason := NotResolvable;
      }
    } else if !bindingOk {
      reason := Tampered;
    } else {
      var obj := k.decode(art.value);
      if obj.enforcement.Some? {
        isExecution := true;
        var manifest := r.manifest(e.payload.manifestHash);
        if manifest.None? {
          manifestBoundOk, withinBounds, reason := false, false, ManifestMissing;
        } else if k.manifestHash(manifest.value) != e.payload.manifestHash {
          manifestBoundOk, withinBounds, reason := false, false, ManifestMismatch;
        } else {
          withinBounds := k.satisfies(obj.enforcement.value, manifest.value);
          if !withinBounds {
            reason := OutOfBounds;
          }
        }
      }
      if obj.subtasks > 0 {
        var dman := r.manifest(e.payload.manifestHash);
        if dman.None? {
          withinBounds := false;
          reason := if reason == Fine then NoManifestForSubtasks else reason;
        } else if !dman.value.spawnPermitted {
          withinBounds := false;
          reason := if reason == Fine then NoSpawnAuthority else reason;
        } else if obj.subtasks > dman.value.maxChildren {
          withinBounds := false;
          reason := if reason == Fine then TooManySubtasks else reason;
        }
      }
    }
    var bindingSatisfied := bindingOk || (art.None? && !requireAll);
    var rowOk := bindingSatisfied && manifestBoundOk && withinBounds;
    if !rowOk && reason == Fine {
      reason := BindingFailed;
    }
    row := Row(e.payload.actionId, Hash(k.scheme, e), isExecution, bindingOk, manifestBoundOk, withinBounds, rowOk, reason);
  }

  /** The row as a function of the two pieces of evidence the audit looks at. */
  function RowOf(k: Checks, r: Resolvers, requireAll: bool, e: Envelope): Row {
    var art, m := r.artifact(e.payload.outputHash), r.manifest(e.payload.manifestHash);
    var bound := Bound(k, r, e);
    var obj := if bound then k.decode(art.value) else Artifact(None, 0);
    var execution := obj.enforcement.Some?;
    var manifestOk := !execution || (m.Some? && k.manifestHash(m.value) == e.payload.manifestHash);
    var ranWithin := !execution || ExecutionWithin(k, r, e, obj.enforcement.value);
    var spawnedWithin := obj.subtasks == 0 || SubtasksWithin(r, e, obj.subtasks);
    var ok := (bound || (art.None? && !requireAll)) && ranWithin && spawnedWithin;
    var reason :=
      if ok then Fine
      else if art.None? then NotResolvable
      else if !bound then Tampered
      else if !ranWithin then
        if m.None? then ManifestMissing else if !manifestOk then ManifestMismatch else OutOfBounds
      else if m.None? then NoManifestForSubtasks
      else if !m.value.spawnPermitted then NoSpawnAuthority
      else TooManySubtasks;
    Row(e.payload.actionId, Hash(k.scheme, e), execution, bound, manifestOk, ranWithin && spawnedWithin, ok, reason)
  }

  function Rows(k: Checks, r: Resolvers, requireAll: bool, envs: seq<Envelope>): seq<Row> {
    seq(|envs|, i requires 0 <= i < |envs| => RowOf(k, r, requireAll, envs[i]))
  }

  /** The verdict of an audit. */
  ghost predicate AuditsValid(k: Checks, r: Resolvers, closed: bool, requireAll: bool, envs: seq<Envelope>) {
    Accepts(k.scheme, envs, closed) && forall e :: e in envs ==> ActionSound(k, r, requireAll, e)
  }

  /** `audit_provenance` */
  method AuditProvenance(k: Checks, r: Resolvers, closed: bool, requireAll: bool, envs: seq<Envelope>)
    returns (report: Report)
    requires WellOrdered(k.scheme)
    ensures report.valid <==> AuditsValid(k, r, closed, requireAll, envs)
    ensures report.valid <==>
            report.dag.valid
            && forall e :: e in envs ==>
                 var art, m := r.artifact(e.payload.outputHash), r.manifest(e.payload.manifestHash);
                 if art.None? then !requireAll
                 else var obj := k.decode(art.value);
                      && k.digest(art.value) == e.payload.outputHash
                      && (obj.enforcement.Some? ==> m.Some? && k.manifestHash(m.value) == e.payload.manifestHash
                                                    && k.satisfies(obj.enforcement.value, m.value))
                      && (obj.subtasks > 0 ==> m.Some? && m.value.spawnPermitted && obj.subtasks <= m.value.maxChildren)
    ensures report.valid && closed ==> forall e :: e in report.dag.topoOrder && e.payload.parentHash.Some? ==>
              exists x :: x in envs && k.scheme.hash(x.payload) == e.payload.parentHash.value
    ensures report.actions == Rows(k, r, requireAll, envs)
    ensures report.dag.valid <==> Accepts(k.scheme, envs, closed)
  {
    var dag := VerifyDag(k.scheme, envs, closed);
    var rows, allOk := AuditRows(k, r, requireAll, envs);
    report := Report(dag, rows, dag.valid && allOk);
  }

  /** The rows, and whether all are ok. */
  method AuditRows(k: Checks, r: Resolvers, requireAll: bool, envs: seq<Envelope>) returns (rows: seq<Row>, allOk: bool)
    ensures rows == Rows(k, r, requireAll, envs)
    ensures allOk <==> forall e :: e in envs ==> ActionSound(k, r, requireAll, e)
    ensures allOk <==> forall e :: e in envs ==>
              var art, m := r.artifact(e.payload.outputHash), r.manifest(e.payload.manifestHash);
              if art.None? then !requireAll
              else var obj := k.decode(art.value);
                   && k.digest(art.value) == e.payload.outputHash
                   && (obj.enforcement.Some? ==> m.Some? && k.manifestHash(m.value) == e.payload.manifestHash
                                                 && k.satisfies(obj.enforcement.value, m.value))
                   && (obj.subtasks > 0 ==> m.Some? && m.value.spawnPermitted && obj.subtasks <= m.value.maxChildren)
  {
    rows, allOk := [], true;
    for i := 0 to |envs|
      invariant |rows| == i && forall j :: 0 <= j < i ==> rows[j] == RowOf(k, r, requireAll, envs[j])
      invariant allOk <==> forall j :: 0 <= j < i ==> ActionSound(k, r, requireAll, envs[j])
    {
      var row := AuditRow(k, r, requireAll, envs[i]);
      rows := rows + [row];
      allOk := allOk && row.ok;
    }
    if !allOk {
      var j :| 0 <= j < |envs| && !ActionSound(k, r, requireAll, envs[j]);
      assert envs[j] in envs;
    }
  }

  // ------------------------------------------------------------------
  // Laws
  // ------------------------------------------------------------------

  /** A history that audits VALID strictly audits VALID with either flag relaxed. */
  lemma StrictImpliesRelaxed(k: Checks, r: Resolvers, closed: bool, requireAll: bool, envs: seq<Envelope>)
    requires AuditsValid(k, r, true, true, envs)
    ensures AuditsValid(k, r, closed, requireAll, envs)
  {
    ClosedIsOpenAndHeld(k.scheme, envs);
    forall e | e in envs ensures ActionSound(k, r, requireAll, e) {
      assert ActionSound(k, r, true, e);
    }
  }

  /** Relaxing the artifact flag excuses exactly the envelopes whose artifact does not resolve. */
  lemma RelaxedArtifacts(k: Checks, r: Resolvers, closed: bool, envs: seq<Envelope>)
    ensures AuditsValid(k, r, closed, true, envs) <==>
            AuditsValid(k, r, closed, false, envs)
            && forall e :: e in envs ==> r.artifact(e.payload.outputHash).Some?
  {
    forall e | e in envs
      ensures ActionSound(k, r, true, e) <==> ActionSound(k, r, false, e) && r.artifact(e.payload.outputHash).Some?
    {
    }
  }

  /** The audit looks at nothing but the named evidence of the listed envelopes. */
  ghost predicate SameEvidence(r1: Resolvers, r2: Resolvers, envs: seq<Envelope>) {
    forall e :: e in envs ==>
      r1.artifact(e.payload.outputHash) == r2.artifact(e.payload.outputHash)
      && r1.manifest(e.payload.manifestHash) == r2.manifest(e.payload.manifestHash)
  }

  lemma SameEvidenceSameAudit(k: Checks, r1: Resolvers, r2: Resolvers, closed: bool, requireAll: bool, envs: seq<Envelope>)
    requires SameEvidence(r1, r2, envs)
    ensures Rows(k, r1, requireAll, envs) == Rows(k, r2, requireAll, envs)
    ensures AuditsValid(k, r1, closed, requireAll, envs) <==> AuditsValid(k, r2, closed, requireAll, envs)
  {
    forall i | 0 <= i < |envs| ensures RowOf(k, r1, requireAll, envs[i]) == RowOf(k, r2, requireAll, envs[i]) {
      assert envs[i] in envs;
    }
    forall e | e in envs ensures ActionSound(k, r1, requireAll, e) <==> ActionSound(k, r2, requireAll, e) {
    }
  }

  /** The manifest that resolves for `e` hashes to the one its envelope names. */
  predicate NamedManifest(k: Checks, r: Resolvers, e: Envelope) {
    var m := r.manifest(e.payload.manifestHash);
    m.Some? && k.manifestHash(m.value) == e.payload.manifestHash
  }

  /** What the resolved artifact of `e` says, if one resolves. */
  function Contents(k: Checks, r: Resolvers, e: Envelope): Artifact {
    var art := r.artifact(e.payload.outputHash);
    if art.Some? then k.decode(art.value) else Artifact(None, 0)
  }

  /** Not the manifest that `e` names, but one that would permit its subtasks. */
  predicate Impostor(k: Checks, r: Resolvers, e: Envelope, m: Manifest) {
    k.manifestHash(m) != e.payload.manifestHash && m.spawnPermitted && Contents(k, r, e).subtasks <= m.maxChildren
  }

  /** A bound decomposition that audits sound, whatever manifests are supplied, is sure to have been
      bounded by the one its envelope names exactly when it carries an enforcement record too or no
      impostor exists. */
  lemma DecompositionBoundIff(k: Checks, r: Resolvers, e: Envelope)
    requires Bound(k, r, e) && Contents(k, r, e).subtasks > 0
    ensures (forall mf :: ActionSound(k, r.(manifest := mf), true, e) ==> NamedManifest(k, r.(manifest := mf), e))
            <==> Contents(k, r, e).enforcement.Some? || forall m :: !Impostor(k, r, e, m)
  {
    if Contents(k, r, e).enforcement.None? {
      if m :| Impostor(k, r, e, m) {
        var forged := r.(manifest := (h: Digest) => Some(m));
        assert ActionSound(k, forged, true, e) && !NamedManifest(k, forged, e);
      } else {
        forall mf | ActionSound(k, r.(manifest := mf), true, e) ensures NamedManifest(k, r.(manifest := mf), e) {
          assert !Impostor(k, r, e, mf(e.payload.manifestHash).value);
        }
      }
    }
  }
}
