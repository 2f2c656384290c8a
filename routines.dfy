/**
 * sip_assembly/routines.py: the routines that move package records through
 * their lifecycle (CREATED -> ASSEMBLED -> APPROVED -> CLEANED_UP) and the
 * routine that deletes a delivered archive. File, archive, BagIt and
 * Archivematica work is given as oracle parameters; the package records
 * live in a `SipTable`.
 */
module Routines {
  import opened Common
  import opened Text
  import opened Paths
  import opened Rights
  import opened Models
  import opened BagFiles
  import H = RoutinesHelpers
  import V = RightsCsvValidation

  /** `SIP.objects`: the stored package records, in table order. */
  class SipTable {
    var records: seq<SipRecord>

    constructor (records: seq<SipRecord>)
      ensures this.records == records
    {
      this.records := records;
    }
  }

  /** The exceptions the routines raise. */
  datatype RoutineError =
    | DirectoryMissing(dir: string)                      // SIPAssemblyError("Directory does not exist", dir)
    | UnknownOrigin(origin: string)                      // KeyError from settings.ARCHIVEMATICA[origin]
    | MissingRightsKey(identifier: string)               // KeyError from sip.data['rights_statements']
    | SIPAssemblyError(phase: Phase, identifier: string)
    | CloseFailed(kind: CloseKind, failed: Value)        // SIPActionError
    | SucceededNotIterable                               // TypeError from `all_completed +=` on a null list
    | CompletedUnbound                                   // `completed` read before any assignment
    | ConfigErrorCode(code: int)                         // SIPAssemblyError(error_lookup(code))
    | StartReplyIsCode(code: int)                        // AttributeError: an integer reply has no `get`
    | CleanupError(reason: string, identifier: string)

  /** The five guarded phases of `SIPAssembler.run`, each with its own message. */
  datatype Phase = Moving | Restructuring | RightsCsv | Contents | Delivering

  // ---------------------------------------------------------------------
  // Running one step per selected record, in order, stopping at an error
  // ---------------------------------------------------------------------

  /** The indices of the records with `status`, in table order (`filter(process_status=...)`). */
  function IndicesWithStatus(records: seq<SipRecord>, status: int): (todo: seq<nat>)
    ensures forall k :: 0 <= k < |todo| ==> todo[k] < |records| && records[todo[k]].processStatus == status
  {
    IndicesFrom(records, status, 0)
  }

  function IndicesFrom(records: seq<SipRecord>, status: int, i: nat): (todo: seq<nat>)
    ensures forall k :: 0 <= k < |todo| ==> i <= todo[k] < |records| && records[todo[k]].processStatus == status
    ensures forall a, b :: 0 <= a < b < |todo| ==> todo[a] < todo[b]
    decreases |records| - i
  {
    if i >= |records| then []
    else if records[i].processStatus == status then [i] + IndicesFrom(records, status, i + 1)
    else IndicesFrom(records, status, i + 1)
  }

  /** Every record with the status is selected. */
  lemma {:induction false} IndicesFromComplete(records: seq<SipRecord>, status: int, i: nat, j: nat)
    requires i <= j < |records| && records[j].processStatus == status
    ensures j in IndicesFrom(records, status, i)
    decreases j - i
  {
    if i < j {
      IndicesFromComplete(records, status, i + 1, j);
    }
  }

  /** A record is selected exactly when it has the status; the selection is in table order. */
  lemma IndicesWithStatusExact(records: seq<SipRecord>, status: int)
    ensures forall j :: 0 <= j < |records| ==> (j in IndicesWithStatus(records, status) <==> records[j].processStatus == status)
    ensures forall a, b :: 0 <= a < b < |IndicesWithStatus(records, status)| ==>
      IndicesWithStatus(records, status)[a] < IndicesWithStatus(records, status)[b]
  {
    forall j | 0 <= j < |records| && records[j].processStatus == status
      ensures j in IndicesWithStatus(records, status)
    {
      IndicesFromComplete(records, status, 0, j);
    }
  }

  /**
   * Apply `step` to the records at `todo`, in order, writing each result
   * back; stop at the first step that raises. Gives the new records, the
   * identifiers of the records whose step completed, and the error.
   */
  function ApplyInOrder<E>(records: seq<SipRecord>, todo: seq<nat>, step: (nat, SipRecord) -> (SipRecord, Option<E>))
    : (out: (seq<SipRecord>, seq<string>, Option<E>))
    requires forall k :: 0 <= k < |todo| ==> todo[k] < |records|
    ensures |out.0| == |records| && |out.1| <= |todo|
    decreases |todo|
  {
    if todo == [] then (records, [], None)
    else
      var (rec, err) := step(todo[0], records[todo[0]]);
      if err.Some? then (records[todo[0] := rec], [], err)
      else
        var (recs, ids, e) := ApplyInOrder(records[todo[0] := rec], todo[1..], step);
        (recs, [records[todo[0]].bagIdentifier] + ids, e)
  }

  /** `rest` is what is left of `goal` once the identifiers `ids` have been gathered. */
  ghost predicate Continues<E>(goal: (seq<SipRecord>, seq<string>, Option<E>), ids: seq<string>,
                               rest: (seq<SipRecord>, seq<string>, Option<E>))
  {
    goal.0 == rest.0 && goal.1 == ids + rest.1 && goal.2 == rest.2
  }

  /** Dropping the first index of a list without repeats leaves a list without repeats that lacks it. */
  lemma DistinctTail(todo: seq<nat>)
    requires todo != [] && forall a, b :: 0 <= a < b < |todo| ==> todo[a] != todo[b]
    ensures forall a, b :: 0 <= a < b < |todo[1..]| ==> todo[1..][a] != todo[1..][b]
    ensures todo[0] !in todo[1..]
  {
    var rest := todo[1..];
    forall a, b | 0 <= a < b < |rest| ensures rest[a] != rest[b] {
      assert rest[a] == todo[a + 1] && rest[b] == todo[b + 1];
    }
    forall j | 0 <= j < |rest| ensures rest[j] != todo[0] {
      assert rest[j] == todo[j + 1];
    }
  }

  /**
   * A run leaves untouched the selected records after the one that raises,
   * and every record it does not select.
   */
  lemma {:induction false} ApplyInOrderLeavesRest<E>(records: seq<SipRecord>, todo: seq<nat>,
                                                      step: (nat, SipRecord) -> (SipRecord, Option<E>))
    requires forall k :: 0 <= k < |todo| ==> todo[k] < |records|
    requires forall a, b :: 0 <= a < b < |todo| ==> todo[a] != todo[b]
    ensures var (recs, ids, err) := ApplyInOrder(records, todo, step);
      && (forall j :: |ids| < j < |todo| ==> recs[todo[j]] == records[todo[j]])
      && (forall i :: 0 <= i < |records| && i !in todo ==> recs[i] == records[i])
    decreases |todo|
  {
    if todo != [] {
      var t := todo[0];
      var (rec, err) := step(t, records[t]);
      var records1 := records[t := rec];
      DistinctTail(todo);
      forall j | 1 <= j < |todo| ensures todo[j] == todo[1..][j - 1] && records1[todo[j]] == records[todo[j]] {
        assert todo[0] != todo[j];
      }
      if err.None? {
        ApplyInOrderLeavesRest(records1, todo[1..], step);
      }
    }
  }

  /**
   * What a run does to the records it reaches: each completed step's result
   * is written back and its identifier gathered, in order, and the record
   * that raises gets what its step left.
   */
  lemma {:induction false} ApplyInOrderEffect<E>(records: seq<SipRecord>, todo: seq<nat>,
                                                   step: (nat, SipRecord) -> (SipRecord, Option<E>))
    requires forall k :: 0 <= k < |todo| ==> todo[k] < |records|
    requires forall a, b :: 0 <= a < b < |todo| ==> todo[a] != todo[b]
    ensures var (recs, ids, err) := ApplyInOrder(records, todo, step);
      && (err.None? <==> |ids| == |todo|)
      && (forall j :: 0 <= j < |ids| ==>
            && ids[j] == records[todo[j]].bagIdentifier
            && step(todo[j], records[todo[j]]).1.None?
            && recs[todo[j]] == step(todo[j], records[todo[j]]).0)
      && (err.Some? ==> step(todo[|ids|], records[todo[|ids|]]) == (recs[todo[|ids|]], err))
    decreases |todo|
  {
    if todo != [] {
      var t := todo[0];
      var (rec, err) := step(t, records[t]);
      var records1 := records[t := rec];
      if err.None? {
        var rest := todo[1..];
        DistinctTail(todo);
        forall j | 1 <= j < |todo| ensures todo[j] == rest[j - 1] && records1[todo[j]] == records[todo[j]] {
          assert todo[0] != todo[j];
        }
        ApplyInOrderEffect(records1, rest, step);
        ApplyInOrderLeavesRest(records1, rest, step);
      }
    }
  }

  /** One unfolding of `ApplyInOrder` at position `k` of `todo`. */
  lemma ApplyInOrderStep<E>(records: seq<SipRecord>, todo: seq<nat>, k: nat,
                            step: (nat, SipRecord) -> (SipRecord, Option<E>))
    requires k < |todo| && forall j :: 0 <= j < |todo| ==> todo[j] < |records|
    ensures var out := step(todo[k], records[todo[k]]);
      out.1.Some? ==> ApplyInOrder(records, todo[k..], step) == (records[todo[k] := out.0], [], out.1)
    ensures var out := step(todo[k], records[todo[k]]);
      out.1.None? ==> Continues(ApplyInOrder(records, todo[k..], step), [records[todo[k]].bagIdentifier],
                                ApplyInOrder(records[todo[k] := out.0], todo[k + 1..], step))
  {
    assert todo[k..][1..] == todo[k + 1..];
  }

  lemma AppendAssoc(a: seq<string>, b: seq<string>, c: seq<string>)
    ensures a + (b + c) == (a + b) + c
  {
  }

  /** An iteration of a loop that keeps `Continues`, when the step succeeds: its identifier is gathered. */
  lemma ContinuesAfterStep<E>(records: seq<SipRecord>, todo: seq<nat>, k: nat,
                              step: (nat, SipRecord) -> (SipRecord, Option<E>),
                              goal: (seq<SipRecord>, seq<string>, Option<E>), ids: seq<string>)
    requires k < |todo| && forall j :: 0 <= j < |todo| ==> todo[j] < |records|
    requires Continues(goal, ids, ApplyInOrder(records, todo[k..], step))
    requires step(todo[k], records[todo[k]]).1.None?
    ensures Continues(goal, ids + [records[todo[k]].bagIdentifier],
                      ApplyInOrder(records[todo[k] := step(todo[k], records[todo[k]]).0], todo[k + 1..], step))
  {
    var id := records[todo[k]].bagIdentifier;
    var rest := ApplyInOrder(records[todo[k] := step(todo[k], records[todo[k]]).0], todo[k + 1..], step);
    ApplyInOrderStep(records, todo, k, step);
    AppendAssoc(ids, [id], rest.1);
  }

  /** An iteration of a loop that keeps `Continues`, when the step raises: the loop's goal is reached. */
  lemma ContinuesAfterRaise<E>(records: seq<SipRecord>, todo: seq<nat>, k: nat,
                               step: (nat, SipRecord) -> (SipRecord, Option<E>),
                               goal: (seq<SipRecord>, seq<string>, Option<E>), ids: seq<string>)
    requires k < |todo| && forall j :: 0 <= j < |todo| ==> todo[j] < |records|
    requires Continues(goal, ids, ApplyInOrder(records, todo[k..], step))
    requires step(todo[k], records[todo[k]]).1.Some?
    ensures goal == (records[todo[k] := step(todo[k], records[todo[k]]).0], ids, step(todo[k], records[todo[k]]).1)
  {
    ApplyInOrderStep(records, todo, k, step);
    assert ids + [] == ids;
  }

  /** The end of such a loop: nothing left to do, so the goal is reached. */
  lemma ContinuesDone<E>(records: seq<SipRecord>, step: (nat, SipRecord) -> (SipRecord, Option<E>),
                         goal: (seq<SipRecord>, seq<string>, Option<E>), ids: seq<string>)
    requires Continues(goal, ids, ApplyInOrder(records, [], step))
    ensures goal == (records, ids, None)
  {
    assert ids + [] == ids;
  }

  // ---------------------------------------------------------------------
  // SIPAssembler: one package
  // ---------------------------------------------------------------------

  /**
   * What the world does for one package: the copy and the extraction, the
   * BagIt check, the unpacked `data/` tree and which renames and makedirs
   * raise, the listing of `data/objects`, the four content updates, the
   * archiver and the final move.
   */
  datatype PackageEnv = PackageEnv(
    copied: Outcome,
    extracted: Outcome,
    bagValid: bool,
    data: set<string>,
    objects: set<string>,
    metadata: set<string>,
    renameFails: string -> bool,
    makeDirFails: string -> bool,
    walk: seq<WalkEntry>,
    bagInfoUpdated: bool,
    processingConfig: Result<string, int>,
    configWritten: bool,
    manifestsUpdated: bool,
    packed: Outcome,
    moved: Outcome)

  /**
   * The first phase: copy to the temporary directory, extract there and
   * validate the bag. Gives the bag path it leaves and whether it succeeds.
   */
  function UnpackStep(path: string, identifier: string, tmpDir: string, env: PackageEnv): (r: (string, bool))
    ensures r.1 ==> r.0 == Join(tmpDir, identifier) && env.copied != Raised && env.extracted == Done
  {
    var copiedPath := if env.copied == Done then ArchivePath(tmpDir, identifier) else path;
    if env.copied == Raised then (path, false)
    else if !IsArchive(copiedPath) || env.extracted != Done then (copiedPath, false)
    else (Join(tmpDir, identifier), env.bagValid)
  }

  /** The restructuring succeeds when no rename out of `data/` and no makedirs raises. */
  predicate RestructureOk(env: PackageEnv)
  {
    && (forall n :: n in env.data && n != "objects" ==> !env.renameFails(n))
    && !env.makeDirFails("logs") && !env.makeDirFails("metadata") && !env.makeDirFails("submissionDocumentation")
  }

  /**
   * The rights phase: the rows build without error and the new rights.csv
   * (the header, then the rows) has no problem for the validator.
   */
  predicate RightsCsvOk(bagPath: string, sts: seq<Statement>, walk: seq<WalkEntry>)
  {
    var (rows, err) := H.StatementMajorRows(bagPath, sts, Flatten(walk));
    err.None? && sts != [] && V.Problems([FieldNames] + RenderRows(rows), V.AnyCaseBases) == []
  }

  /**
   * The verdict of the rights phase on a record whose bag has been unpacked
   * at `{tmpDir}/{identifier}`: nothing to do unless statements are listed.
   */
  predicate RightsPhaseOk(rec: SipRecord, tmpDir: string, walk: seq<WalkEntry>)
  {
    rec.rights.RightsValue? && HasRights(rec.rights) ==>
      RightsCsvOk(Join(tmpDir, rec.bagIdentifier), rec.rights.statements.value, walk)
  }

  /** The contents phase: bag-info, the processing configuration, the manifests and the archive. */
  predicate ContentsOk(env: PackageEnv)
  {
    env.bagInfoUpdated && env.processingConfig.Success? && env.configWritten && env.manifestsUpdated
    && env.packed != Raised
  }

  /**
   * One iteration of `SIPAssembler.run` on a stored record: the record it
   * leaves (every change is saved at once) and the exception it raises.
   * `rightsOk` is the verdict of the rights phase, `RightsPhaseOk`.
   */
  function AssembleOne(rec: SipRecord, env: PackageEnv, rightsOk: bool, origins: set<string>, tmpDir: string, destDir: string)
    : (out: (SipRecord, Option<RoutineError>))
    ensures out.0.bagIdentifier == rec.bagIdentifier && out.0.origin == rec.origin
         && out.0.rights == rec.rights && out.0.lastModified == rec.lastModified
    ensures out.1.None? ==> out.0.processStatus == ASSEMBLED
    ensures out.1.Some? ==> out.0.processStatus == rec.processStatus
    ensures out.1 == Some(UnknownOrigin(rec.origin)) <==> rec.origin !in origins
    ensures out.1.Some? && rec.origin in origins ==>
      out.1.value == MissingRightsKey(rec.bagIdentifier)
      || (out.1.value.SIPAssemblyError? && out.1.value.identifier == rec.bagIdentifier)
  {
    var id := rec.bagIdentifier;
    if rec.origin !in origins then (rec, Some(UnknownOrigin(rec.origin)))
    else
      var (unpacked, ok) := UnpackStep(rec.bagPath, id, tmpDir, env);
      var rec1 := rec.(bagPath := unpacked);
      if !ok then (rec1, Some(SIPAssemblyError(Moving, id)))
      else if !RestructureOk(env) then (rec1, Some(SIPAssemblyError(Restructuring, id)))
      else if rec.rights.NoRightsKey? then (rec1, Some(MissingRightsKey(id)))
      else if !rightsOk then
        (rec1, Some(SIPAssemblyError(RightsCsv, id)))
      else if !ContentsOk(env) then (rec1, Some(SIPAssemblyError(Contents, id)))
      else
        var packed := unpacked + ".tar.gz";
        if env.moved == Raised then (rec.(bagPath := packed), Some(SIPAssemblyError(Delivering, id)))
        else (rec.(bagPath := if env.moved == Done then ArchivePath(destDir, id) else packed,
                   processStatus := ASSEMBLED), None)
  }

  /** `AssembleOne` as the step of the run, with the world of the package at each table index. */
  function AssembleStep(env: nat -> PackageEnv, origins: set<string>, tmpDir: string, destDir: string)
    : (nat, SipRecord) -> (SipRecord, Option<RoutineError>)
  {
    (i: nat, rec: SipRecord) => AssembleOne(rec, env(i), RightsPhaseOk(rec, tmpDir, env(i).walk), origins, tmpDir, destDir)
  }

  /**
   * `SIPAssembler()`: the three directories come from the settings and are
   * checked in order; the first that is not a directory raises.
   */
  method NewSIPAssembler(srcDir: string, tmpDir: string, destDir: string, isDir: string -> bool)
    returns (r: Result<SIPAssembler, RoutineError>)
    ensures r.Success? <==> isDir(srcDir) && isDir(tmpDir) && isDir(destDir)
    ensures r.Success? ==>
      fresh(r.value) && r.value.srcDir == srcDir && r.value.tmpDir == tmpDir && r.value.destDir == destDir
    ensures r.Failure? ==> r.error == DirectoryMissing(
      if !isDir(srcDir) then srcDir else if !isDir(tmpDir) then tmpDir else destDir)
  {
    var dirs := [srcDir, tmpDir, destDir];
    for k := 0 to |dirs|
      invariant k > 0 ==> isDir(srcDir)
      invariant k > 1 ==> isDir(tmpDir)
      invariant k > 2 ==> isDir(destDir)
    {
      if !isDir(dirs[k]) {
        assert k == 0 || k == 1 || k == 2;
        return Failure(DirectoryMissing(dirs[k]));
      }
    }
    var a := new SIPAssembler(srcDir, tmpDir, destDir);
    r := Success(a);
  }

  class SIPAssembler {
    const srcDir: string
    const tmpDir: string
    const destDir: string

    constructor (srcDir: string, tmpDir: string, destDir: string)
      ensures this.srcDir == srcDir && this.tmpDir == tmpDir && this.destDir == destDir
    {
      this.srcDir, this.tmpDir, this.destDir := srcDir, tmpDir, destDir;
    }

    /**
     * `run()`: take every CREATED record, in table order, through the five
     * phases; the first failure raises, leaving the records processed so far.
     * Returns "All SIPs assembled." and the identifiers of the packages.
     */
    method Run(table: SipTable, env: nat -> PackageEnv, origins: set<string>)
      returns (r: Result<(string, seq<string>), RoutineError>)
      modifies table
      ensures var out := ApplyInOrder(old(table.records), IndicesWithStatus(old(table.records), CREATED),
                                      AssembleStep(env, origins, tmpDir, destDir));
        && table.records == out.0
        && (out.2.None? ==> r == Success(("All SIPs assembled.", out.1)))
        && (out.2.Some? ==> r == Failure(out.2.value))
    {
      var todo := IndicesWithStatus(table.records, CREATED);
      var ids, err := AssembleQueue(table, todo, env, origins);
      if err.Some? {
        return Failure(err.value);
      }
      r := Success(("All SIPs assembled.", ids));
    }

    /** The loop of `run` over the records at `todo`, in order, up to the first that raises. */
    method AssembleQueue(table: SipTable, todo: seq<nat>, env: nat -> PackageEnv, origins: set<string>)
      returns (ids: seq<string>, err: Option<RoutineError>)
      requires forall k :: 0 <= k < |todo| ==> todo[k] < |table.records|
      modifies table
      ensures (table.records, ids, err) == ApplyInOrder(old(table.records), todo, AssembleStep(env, origins, tmpDir, destDir))
    {
      var step := AssembleStep(env, origins, tmpDir, destDir);
      ghost var goal := ApplyInOrder(old(table.records), todo, step);
      ids := [];
      assert Continues(goal, ids, ApplyInOrder(table.records, todo[0..], step)) by {
        assert todo[0..] == todo;
        assert ids + goal.1 == goal.1;
      }
      for k := 0 to |todo|
        invariant |table.records| == |old(table.records)|
        invariant Continues(goal, ids, ApplyInOrder(table.records, todo[k..], step))
      {
        var id;
        id, err := AssembleNext(table, todo, k, env, origins, goal, ids);
        if err.Some? {
          return;
        }
        ids := ids + [id];
      }
      assert todo[|todo|..] == [];
      ContinuesDone(table.records, step, goal, ids);
      err := None;
    }

    /** One iteration of the loop of `run`: the record at `todo[k]`, against what remains to be done. */
    method AssembleNext(table: SipTable, todo: seq<nat>, k: nat, env: nat -> PackageEnv, origins: set<string>,
                        ghost goal: (seq<SipRecord>, seq<string>, Option<RoutineError>), ghost ids: seq<string>)
      returns (id: string, err: Option<RoutineError>)
      requires k < |todo| && forall j :: 0 <= j < |todo| ==> todo[j] < |table.records|
      requires Continues(goal, ids, ApplyInOrder(table.records, todo[k..], AssembleStep(env, origins, tmpDir, destDir)))
      modifies table
      ensures |table.records| == |old(table.records)|
      ensures err.Some? ==> goal == (table.records, ids, err)
      ensures err.None? ==>
        Continues(goal, ids + [id], ApplyInOrder(table.records, todo[k + 1..], AssembleStep(env, origins, tmpDir, destDir)))
    {
      var i := todo[k];
      ghost var before := table.records;
      id := table.records[i].bagIdentifier;
      err := ProcessRecord(table, i, env, origins);
      if err.None? {
        ContinuesAfterStep(before, todo, k, AssembleStep(env, origins, tmpDir, destDir), goal, ids);
      } else {
        ContinuesAfterRaise(before, todo, k, AssembleStep(env, origins, tmpDir, destDir), goal, ids);
      }
    }

    /** Load the record at `i`, run one iteration of the loop on it, save it back. */
    method ProcessRecord(table: SipTable, i: nat, env: nat -> PackageEnv, origins: set<string>) returns (err: Option<RoutineError>)
      requires i < |table.records|
      modifies table
      ensures var (rec, e) := AssembleStep(env, origins, tmpDir, destDir)(i, old(table.records)[i]);
        table.records == old(table.records)[i := rec] && err == e
    {
      var sip := new Sip.Load(table.records[i]);
      err := AssembleSip(sip, env(i), origins);
      table.records := table.records[i := sip.Record()];
    }

    /** The body of the loop of `run` for one package, on its model instance. */
    method AssembleSip(sip: Sip, env: PackageEnv, origins: set<string>) returns (err: Option<RoutineError>)
      modifies sip
      ensures (sip.Record(), err) ==
        AssembleOne(old(sip.Record()), env, RightsPhaseOk(old(sip.Record()), tmpDir, env.walk), origins, tmpDir, destDir)
    {
      if sip.origin !in origins {
        return Some(UnknownOrigin(sip.origin));
      }
      var ok := Unpack(sip, env);
      if !ok {
        return Some(SIPAssemblyError(Moving, sip.bagIdentifier));
      }
      ok := Restructure(env);
      if !ok {
        return Some(SIPAssemblyError(Restructuring, sip.bagIdentifier));
      }
      if sip.rights.NoRightsKey? {
        return Some(MissingRightsKey(sip.bagIdentifier));
      }
      if HasRights(sip.rights) {
        ok := AddRights(sip.bagPath, sip.rights.statements.value, env.walk);
        if !ok {
          return Some(SIPAssemblyError(RightsCsv, sip.bagIdentifier));
        }
      }
      ok := UpdateContents(sip, env);
      if !ok {
        return Some(SIPAssemblyError(Contents, sip.bagIdentifier));
      }
      ok := Deliver(sip, env.moved);
      if !ok {
        return Some(SIPAssemblyError(Delivering, sip.bagIdentifier));
      }
      err := None;
    }

    /** Copy to the temporary directory, extract there, validate the bag. */
    method Unpack(sip: Sip, env: PackageEnv) returns (ok: bool)
      modifies sip
      ensures sip.processStatus == old(sip.processStatus)
      ensures (sip.bagPath, ok) == UnpackStep(old(sip.bagPath), sip.bagIdentifier, tmpDir, env)
    {
      var err := H.CopyToDirectory(sip, tmpDir, env.copied);
      if err.Some? {
        return false;
      }
      err := H.ExtractAll(sip, tmpDir, env.extracted);
      if err.Some? {
        return false;
      }
      ok := env.bagValid;
    }

    /** `move_objects_dir` then `create_structure` on the unpacked tree. */
    method Restructure(env: PackageEnv) returns (ok: bool)
      ensures ok == RestructureOk(env)
    {
      var tree := new BagTree(env.data, if "objects" in env.data then env.objects else {},
                              if "metadata" in env.data then env.metadata else {});
      var failed := tree.MoveObjectsDir(env.renameFails);
      if failed.Some? {
        return false;
      }
      failed := tree.CreateStructure(env.makeDirFails);
      ok := failed.None?;
    }

    /** `create_rights_csv` into a bag without a rights.csv, then `validate_rights_csv`. */
    method AddRights(bagPath: string, sts: seq<Statement>, walk: seq<WalkEntry>) returns (ok: bool)
      ensures ok == RightsCsvOk(bagPath, sts, walk)
    {
      var file, err := H.CreateRightsCsv(bagPath, sts, walk, None);
      if err.Some? {
        return false;
      }
      ok := H.ValidateRightsCsv(file).None?;
    }

    /** bag-info, the processing configuration, the manifests, then the archive. */
    method UpdateContents(sip: Sip, env: PackageEnv) returns (ok: bool)
      modifies sip
      ensures sip.processStatus == old(sip.processStatus)
      ensures ok == ContentsOk(env)
      ensures sip.bagPath == if ok then old(sip.bagPath) + ".tar.gz" else old(sip.bagPath)
    {
      if !env.bagInfoUpdated {
        return false;
      }
      var config := GetProcessingConfig(env.processingConfig);
      if config.Failure? || !env.configWritten || !env.manifestsUpdated {
        return false;
      }
      var err := H.CreateTargzPackage(sip, env.packed);
      ok := err.None?;
    }

    /** Move to the destination directory, then mark the package ASSEMBLED. */
    method Deliver(sip: Sip, moved: Outcome) returns (ok: bool)
      modifies sip
      ensures ok <==> moved != Raised
      ensures sip.processStatus == if ok then ASSEMBLED else old(sip.processStatus)
      ensures sip.bagPath == if moved == Done then ArchivePath(destDir, sip.bagIdentifier) else old(sip.bagPath)
    {
      var err := H.MoveToDirectory(sip, destDir, moved);
      if err.Some? {
        return false;
      }
      sip.processStatus := ASSEMBLED;
      ok := true;
    }
  }

  /**
   * `get_processing_config`: a text reply is the configuration; an integer
   * reply is an Archivematica error code and raises with that code.
   */
  function GetProcessingConfig(reply: Result<string, int>): (r: Result<string, RoutineError>)
    ensures reply.Success? ==> r == Success(reply.value)
    ensures reply.Failure? ==> r == Failure(ConfigErrorCode(reply.error))
  {
    match reply
    case Success(config) => Success(config)
    case Failure(code) => Failure(ConfigErrorCode(code))
  }

  // Properties of `SIPAssembler.run`

  /**
   * What one iteration promises whatever the world does: the identity of the
   * package is kept, success leaves it ASSEMBLED, and an exception leaves its
   * status alone and names it.
   */
  predicate IterationKept(rec: SipRecord, out: (SipRecord, Option<RoutineError>))
  {
    && out.0.bagIdentifier == rec.bagIdentifier && out.0.origin == rec.origin
    && (out.1.None? ==> out.0.processStatus == ASSEMBLED)
    && (out.1.Some? ==>
          && out.0.processStatus == rec.processStatus
          && (out.1.value == UnknownOrigin(rec.origin) || out.1.value == MissingRightsKey(rec.bagIdentifier)
              || (out.1.value.SIPAssemblyError? && out.1.value.identifier == rec.bagIdentifier)))
  }

  /** Every iteration of `step`, on every record, keeps `IterationKept`. */
  ghost predicate EveryIterationKept(step: (nat, SipRecord) -> (SipRecord, Option<RoutineError>))
  {
    forall i, rec :: IterationKept(rec, step(i, rec))
  }

  /** The iteration of `SIPAssembler.run` keeps `IterationKept`. */
  lemma AssembleStepKept(env: nat -> PackageEnv, origins: set<string>, tmpDir: string, destDir: string)
    ensures EveryIterationKept(AssembleStep(env, origins, tmpDir, destDir))
  {
    var step := AssembleStep(env, origins, tmpDir, destDir);
    forall i, rec ensures IterationKept(rec, step(i, rec)) {
      var out := AssembleOne(rec, env(i), RightsPhaseOk(rec, tmpDir, env(i).walk), origins, tmpDir, destDir);
      assert step(i, rec) == out;
    }
  }

  /**
   * After a run that raises nothing, every record that was CREATED is
   * ASSEMBLED, every other record is unchanged, and the identifiers
   * returned are those of the CREATED records, in table order. Stated for
   * any iteration that keeps `IterationKept`, as `AssembleStep` does.
   */
  lemma AssemblyRunSucceeds(records: seq<SipRecord>, step: (nat, SipRecord) -> (SipRecord, Option<RoutineError>))
    requires EveryIterationKept(step)
    requires ApplyInOrder(records, IndicesWithStatus(records, CREATED), step).2.None?
    ensures var todo := IndicesWithStatus(records, CREATED);
      var (recs, ids, _) := ApplyInOrder(records, todo, step);
      && |ids| == |todo|
      && (forall j :: 0 <= j < |todo| ==> ids[j] == records[todo[j]].bagIdentifier)
      && (forall i :: 0 <= i < |records| && records[i].processStatus == CREATED ==>
            recs[i].processStatus == ASSEMBLED && recs[i].bagIdentifier == records[i].bagIdentifier)
      && (forall i :: 0 <= i < |records| && records[i].processStatus != CREATED ==> recs[i] == records[i])
  {
    var todo := IndicesWithStatus(records, CREATED);
    IndicesWithStatusExact(records, CREATED);
    ApplyInOrderEffect(records, todo, step);
    ApplyInOrderLeavesRest(records, todo, step);
    var (recs, ids, _) := ApplyInOrder(records, todo, step);
    forall i | 0 <= i < |records| && records[i].processStatus == CREATED
      ensures recs[i].processStatus == ASSEMBLED && recs[i].bagIdentifier == records[i].bagIdentifier
    {
      var j :| 0 <= j < |todo| && todo[j] == i;
      assert recs[todo[j]] == step(todo[j], records[todo[j]]).0;
      assert IterationKept(records[i], step(i, records[i]));
    }
  }

  /**
   * A run that raises stops at one CREATED package: the error names it, it
   * is not ASSEMBLED, the packages before it are ASSEMBLED and the ones
   * after it are untouched. Stated for any iteration that keeps
   * `IterationKept`, as `AssembleStep` does.
   */
  lemma AssemblyRunFailure(records: seq<SipRecord>, step: (nat, SipRecord) -> (SipRecord, Option<RoutineError>))
    requires EveryIterationKept(step)
    requires ApplyInOrder(records, IndicesWithStatus(records, CREATED), step).2.Some?
    ensures var todo := IndicesWithStatus(records, CREATED);
      var (recs, ids, err) := ApplyInOrder(records, todo, step);
      && |ids| < |todo|
      && var failed := todo[|ids|];
      && recs[failed].processStatus == CREATED
      && (err.value == UnknownOrigin(records[failed].origin) || err.value == MissingRightsKey(records[failed].bagIdentifier)
          || (err.value.SIPAssemblyError? && err.value.identifier == records[failed].bagIdentifier))
      && (forall j :: 0 <= j < |ids| ==> recs[todo[j]].processStatus == ASSEMBLED)
      && (forall j :: |ids| < j < |todo| ==> recs[todo[j]] == records[todo[j]])
  {
    var todo := IndicesWithStatus(records, CREATED);
    IndicesWithStatusExact(records, CREATED);
    ApplyInOrderEffect(records, todo, step);
    ApplyInOrderLeavesRest(records, todo, step);
    var (recs, ids, err) := ApplyInOrder(records, todo, step);
    assert IterationKept(records[todo[|ids|]], step(todo[|ids|], records[todo[|ids|]]));
    forall j | 0 <= j < |ids| ensures recs[todo[j]].processStatus == ASSEMBLED {
      assert IterationKept(records[todo[j]], step(todo[j], records[todo[j]]));
    }
  }

  /**
   * One iteration raises nothing exactly when the origin is known, the
   * package unpacks and restructures, `rights_statements` is present, the
   * rights CSV and the contents phases succeed and the move does not raise.
   */
  lemma AssembleOneSucceeds(rec: SipRecord, env: PackageEnv, rightsOk: bool, origins: set<string>, tmpDir: string, destDir: string)
    ensures AssembleOne(rec, env, rightsOk, origins, tmpDir, destDir).1.None? <==>
      && rec.origin in origins && UnpackStep(rec.bagPath, rec.bagIdentifier, tmpDir, env).1
      && RestructureOk(env) && rec.rights.RightsValue? && rightsOk && ContentsOk(env) && env.moved != Raised
  {
  }

  /** A package that copies, moves and everything else succeeds ends at `{dest}/{id}.tar.gz`. */
  lemma DeliveredPackagePath(rec: SipRecord, env: PackageEnv, rightsOk: bool, origins: set<string>, tmpDir: string, destDir: string)
    ensures var out := AssembleOne(rec, env, rightsOk, origins, tmpDir, destDir);
      out.1.None? && env.moved == Done ==>
        out.0.bagPath == Join(destDir, rec.bagIdentifier + ".tar.gz") && IsArchive(out.0.bagPath)
  {
    AssembleOneSucceeds(rec, env, rightsOk, origins, tmpDir, destDir);
    var out := AssembleOne(rec, env, rightsOk, origins, tmpDir, destDir);
    if out.1.None? && env.moved == Done {
      assert out.0.bagPath == ArchivePath(destDir, rec.bagIdentifier);
      ArchivePathIsArchive(destDir, rec.bagIdentifier);
    }
  }

  /**
   * A move that reports failure without raising still marks the package
   * ASSEMBLED, with the archive left in the temporary directory.
   */
  lemma DeclinedMoveStillAssembled(rec: SipRecord, env: PackageEnv, rightsOk: bool, origins: set<string>, tmpDir: string, destDir: string)
    ensures var out := AssembleOne(rec, env, rightsOk, origins, tmpDir, destDir);
      out.1.None? && env.moved == Declined ==>
        out.0.processStatus == ASSEMBLED && out.0.bagPath == Join(tmpDir, rec.bagIdentifier) + ".tar.gz"
  {
    AssembleOneSucceeds(rec, env, rightsOk, origins, tmpDir, destDir);
    var out := AssembleOne(rec, env, rightsOk, origins, tmpDir, destDir);
    if out.1.None? && env.moved == Declined {
      assert UnpackStep(rec.bagPath, rec.bagIdentifier, tmpDir, env).0 == Join(tmpDir, rec.bagIdentifier);
    }
  }

  /**
   * The rights CSV is made only for a non-empty `rights_statements`: with an
   * empty or null list the rights phase cannot raise, whatever `data/objects` holds.
   */
  lemma RightsCsvOnlyWhenListed(rec: SipRecord, i: nat, env: nat -> PackageEnv, origins: set<string>,
                                tmpDir: string, destDir: string)
    requires rec.rights.RightsValue? && !HasRights(rec.rights)
    ensures AssembleStep(env, origins, tmpDir, destDir)(i, rec).1 != Some(SIPAssemblyError(RightsCsv, rec.bagIdentifier))
  {
    assert AssembleStep(env, origins, tmpDir, destDir)(i, rec) ==
      AssembleOne(rec, env(i), true, origins, tmpDir, destDir);
  }

  /**
   * A record without a `rights_statements` key never reaches ASSEMBLED: the
   * KeyError is raised outside the guarded phases, so it is not wrapped.
   */
  lemma MissingRightsKeyNeverAssembles(rec: SipRecord, env: PackageEnv, rightsOk: bool, origins: set<string>, tmpDir: string, destDir: string)
    requires rec.rights.NoRightsKey?
    ensures AssembleOne(rec, env, rightsOk, origins, tmpDir, destDir).1.Some?
    ensures !AssembleOne(rec, env, rightsOk, origins, tmpDir, destDir).1.value.SIPAssemblyError? ||
      AssembleOne(rec, env, rightsOk, origins, tmpDir, destDir).1.value.phase in {Moving, Restructuring}
  {
  }

  // ---------------------------------------------------------------------
  // SIPActions.create_package
  // ---------------------------------------------------------------------

  /** What `create_package` returns: a one-element tuple, or a message with the started id. */
  datatype Reply = Message(text: string) | Started(text: string, ids: seq<Value>)

  /**
   * The record `order_by('last_modified')[0]` picks among the first `n`
   * records with `status`: the oldest, the first in table order among equals.
   */
  function OldestWithStatus(records: seq<SipRecord>, status: int, n: nat): (r: Option<nat>)
    requires n <= |records|
    ensures r.None? <==> forall j :: 0 <= j < n ==> records[j].processStatus != status
    ensures r.Some? ==> r.value < n && records[r.value].processStatus == status
    ensures r.Some? ==> forall j :: 0 <= j < n && records[j].processStatus == status ==>
      records[r.value].lastModified <= records[j].lastModified
      && (j < r.value ==> records[r.value].lastModified < records[j].lastModified)
  {
    if n == 0 then None
    else
      var best := OldestWithStatus(records, status, n - 1);
      if records[n - 1].processStatus != status then best
      else if best.None? || records[n - 1].lastModified < records[best.value].lastModified then Some(n - 1)
      else best
  }

  /**
   * The record `order_by('-last_modified')` gives first among the first `n`
   * records with `status`: the newest, the first in table order among equals.
   */
  function NewestWithStatus(records: seq<SipRecord>, status: int, n: nat): (r: Option<nat>)
    requires n <= |records|
    ensures r.None? <==> forall j :: 0 <= j < n ==> records[j].processStatus != status
    ensures r.Some? ==> r.value < n && records[r.value].processStatus == status
    ensures r.Some? ==> forall j :: 0 <= j < n && records[j].processStatus == status ==>
      records[r.value].lastModified >= records[j].lastModified
      && (j < r.value ==> records[r.value].lastModified > records[j].lastModified)
  {
    if n == 0 then None
    else
      var best := NewestWithStatus(records, status, n - 1);
      if records[n - 1].processStatus != status then best
      else if best.None? || records[n - 1].lastModified > records[best.value].lastModified then Some(n - 1)
      else best
  }

  /**
   * `create_package`: start the oldest ASSEMBLED package unless the newest
   * APPROVED one is still processing. `unitStatus` is Archivematica's reply
   * for an identifier; `started` is its reply to the start: the `id` of a
   * dictionary reply, or an integer error code. The package is saved as
   * APPROVED before the reply is read, so an error code leaves it APPROVED and
   * then raises.
   */
  method CreatePackage(table: SipTable, origins: set<string>, unitStatus: string -> string, started: Result<Value, int>)
    returns (r: Result<Reply, RoutineError>)
    modifies table
    ensures var queued := OldestWithStatus(old(table.records), ASSEMBLED, |old(table.records)|);
      var last := NewestWithStatus(old(table.records), APPROVED, |old(table.records)|);
      if queued.None? then
        r == Success(Message("No transfers to start.")) && table.records == old(table.records)
      else if old(table.records)[queued.value].origin !in origins then
        r == Failure(UnknownOrigin(old(table.records)[queued.value].origin)) && table.records == old(table.records)
      else if last.Some? && unitStatus(old(table.records)[last.value].bagIdentifier) == "PROCESSING" then
        r == Success(Message("Another transfer is processing, waiting until it finishes."))
        && table.records == old(table.records)
      else
        && table.records == old(table.records)[queued.value := old(table.records)[queued.value].(processStatus := APPROVED)]
        && (started.Success? ==> r == Success(Started("Transfer started", [started.value])))
        && (started.Failure? ==> r == Failure(StartReplyIsCode(started.error)))
  {
    var records := table.records;
    var queued := OldestWithStatus(records, ASSEMBLED, |records|);
    if queued.None? {
      return Success(Message("No transfers to start."));
    }
    var next := new Sip.Load(records[queued.value]);
    var last := NewestWithStatus(records, APPROVED, |records|);
    if next.origin !in origins {
      return Failure(UnknownOrigin(next.origin));
    }
    if last.Some? && unitStatus(records[last.value].bagIdentifier) == "PROCESSING" {
      return Success(Message("Another transfer is processing, waiting until it finishes."));
    }
    next.processStatus := APPROVED;
    table.records := records[queued.value := next.Record()];
    match started
    case Success(id) => r := Success(Started("Transfer started", [id]));
    case Failure(code) => r := Failure(StartReplyIsCode(code));
  }

  /** When a transfer starts, exactly one record changes: an ASSEMBLED one becomes APPROVED. */
  lemma StartChangesOneRecord(records: seq<SipRecord>, q: nat)
    requires q < |records| && OldestWithStatus(records, ASSEMBLED, |records|) == Some(q)
    ensures records[q].processStatus == ASSEMBLED
    ensures var after := records[q := records[q].(processStatus := APPROVED)];
      && after[q].processStatus == APPROVED
      && (forall i :: 0 <= i < |records| && i != q ==> after[i] == records[i])
      && IndicesWithStatus(after, ASSEMBLED) == RemoveIndex(IndicesWithStatus(records, ASSEMBLED), q)
  {
    StartRemovesFromQueue(records, q, 0);
  }

  /**
   * A start whose reply is an error code still leaves the package APPROVED:
   * `create_package` never picks it again, and `CleanupRequester` posts it
   * for cleanup.
   */
  lemma FailedStartIsNotRetried(records: seq<SipRecord>, q: nat)
    requires q < |records| && OldestWithStatus(records, ASSEMBLED, |records|) == Some(q)
    ensures var after := records[q := records[q].(processStatus := APPROVED)];
      && OldestWithStatus(after, ASSEMBLED, |after|) != Some(q)
      && q in IndicesWithStatus(after, APPROVED)
  {
    var after := records[q := records[q].(processStatus := APPROVED)];
    IndicesWithStatusExact(after, APPROVED);
  }

  /** `todo` without the index `q`. */
  function RemoveIndex(todo: seq<nat>, q: nat): (r: seq<nat>)
    ensures |r| <= |todo|
  {
    if todo == [] then [] else (if todo[0] == q then [] else [todo[0]]) + RemoveIndex(todo[1..], q)
  }

  lemma {:induction false} StartRemovesFromQueue(records: seq<SipRecord>, q: nat, i: nat)
    requires q < |records| && records[q].processStatus == ASSEMBLED
    ensures var after := records[q := records[q].(processStatus := APPROVED)];
      IndicesFrom(after, ASSEMBLED, i) == RemoveIndex(IndicesFrom(records, ASSEMBLED, i), q)
    decreases |records| - i
  {
    var after := records[q := records[q].(processStatus := APPROVED)];
    if i < |records| {
      StartRemovesFromQueue(records, q, i + 1);
      var rest := IndicesFrom(records, ASSEMBLED, i + 1);
      var restAfter := IndicesFrom(after, ASSEMBLED, i + 1);
      if records[i].processStatus == ASSEMBLED {
        assert IndicesFrom(records, ASSEMBLED, i) == [i] + rest;
        assert ([i] + rest)[1..] == rest;
        if i == q {
          assert IndicesFrom(after, ASSEMBLED, i) == restAfter;
          assert RemoveIndex([i] + rest, q) == RemoveIndex(rest, q);
        } else {
          assert IndicesFrom(after, ASSEMBLED, i) == [i] + restAfter;
          assert RemoveIndex([i] + rest, q) == [i] + RemoveIndex(rest, q);
        }
      } else {
        assert i != q && after[i] == records[i];
      }
    }
  }

  // ---------------------------------------------------------------------
  // SIPActions.remove_completed
  // ---------------------------------------------------------------------

  /** `type`: which dashboard to clear, `close_completed_transfers` or `close_completed_ingests`. */
  datatype CloseKind = Transfers | Ingests

  function KindName(kind: CloseKind): string
  {
    match kind
    case Transfers => "transfers"
    case Ingests => "ingests"
  }

  /**
   * `close_succeeded` of an Archivematica reply: missing (read as `[]`), a
   * list of unit identifiers, or null, which `all_completed +=` cannot extend
   * a list by.
   */
  datatype Succeeded = Missing | Units(ids: seq<Value>) | NullUnits

  /** An Archivematica reply to closing completed units. */
  datatype CloseReply = CloseReply(closeFailed: Value, closeSucceeded: Succeeded)

  /** Why the loop of `remove_completed` stops early. */
  datatype CloseStop = Reported(failed: Value) | NotAList

  /** A reply that ends the loop: a reported failure, or a null `close_succeeded`. */
  predicate Stops(resp: CloseReply)
  {
    Truthy(resp.closeFailed) || resp.closeSucceeded.NullUnits?
  }

  /** The exception a stopping reply raises: the failure is looked at first. */
  function StopOf(resp: CloseReply): CloseStop
  {
    if Truthy(resp.closeFailed) then Reported(resp.closeFailed) else NotAList
  }

  /**
   * The loop of `remove_completed` over `origins` (each with its
   * `close_completed` setting), from the front: the dashboards it closes, the
   * last reply it keeps in `completed`, and the first exception it raises.
   */
  function CloseAll(origins: seq<(string, bool)>, reply: string -> CloseReply)
    : (out: (seq<string>, Option<CloseReply>, Option<CloseStop>))
    ensures out.2.Some? && out.2.value.Reported? ==> Truthy(out.2.value.failed)
    ensures out.1.None? ==> out.0 == [] && out.2.None?
  {
    if origins == [] then ([], None, None)
    else if !origins[0].1 then CloseAll(origins[1..], reply)
    else
      var resp := reply(origins[0].0);
      if Stops(resp) then ([origins[0].0], Some(resp), Some(StopOf(resp)))
      else
        var (ds, last, stop) := CloseAll(origins[1..], reply);
        ([origins[0].0] + ds, if last.Some? then last else Some(resp), stop)
  }

  /** What `remove_completed` returns for the outcome of its loop. */
  function RemoveCompletedResult(kind: CloseKind, out: (seq<string>, Option<CloseReply>, Option<CloseStop>))
    : Result<(string, CloseReply), RoutineError>
  {
    if out.2.Some? then
      (match out.2.value
       case Reported(failed) => Failure(CloseFailed(kind, failed))
       case NotAList => Failure(SucceededNotIterable))
    else if out.1.None? then Failure(CompletedUnbound)
    else Success(("All completed " + KindName(kind) + " removed from dashboards " + JoinWith(out.0, ", "), out.1.value))
  }

  /**
   * `remove_completed(type)`: ask every origin whose settings say
   * `close_completed` to close its completed units; a reported failure raises,
   * and so does a null list of closed units. Returns the message and the reply
   * of the last origin asked.
   */
  method RemoveCompleted(kind: CloseKind, origins: seq<(string, bool)>, reply: string -> CloseReply)
    returns (r: Result<(string, CloseReply), RoutineError>)
    ensures r == RemoveCompletedResult(kind, CloseAll(origins, reply))
  {
    ghost var goal := CloseAll(origins, reply);
    assert origins[0..] == origins;
    var allCompleted: seq<Value> := [];
    var dashboards: seq<string> := [];
    var completed: Option<CloseReply> := None;
    for k := 0 to |origins|
      invariant completed.None? ==> dashboards == []
      invariant goal.0 == dashboards + CloseAll(origins[k..], reply).0
      invariant goal.1 == if CloseAll(origins[k..], reply).1.Some? then CloseAll(origins[k..], reply).1 else completed
      invariant goal.2 == CloseAll(origins[k..], reply).2
    {
      CloseAllUnfold(origins, reply, k);
      var (origin, closes) := origins[k];
      if closes {
        var resp := reply(origin);
        completed := Some(resp);
        dashboards := dashboards + [origin];
        if Truthy(resp.closeFailed) {
          return Failure(CloseFailed(kind, resp.closeFailed));
        }
        match resp.closeSucceeded
        case Missing =>
        case Units(ids) => allCompleted := allCompleted + ids;
        case NullUnits => return Failure(SucceededNotIterable);
      }
    }
    assert origins[|origins|..] == [];
    assert CloseAll([], reply) == ([], None, None);
    assert dashboards + [] == dashboards;
    assert goal == (dashboards, completed, None);
    if completed.None? {
      return Failure(CompletedUnbound);
    }
    r := Success(("All completed " + KindName(kind) + " removed from dashboards " + JoinWith(dashboards, ", "),
                  completed.value));
  }

  /** One step of `CloseAll` from index `k`. */
  lemma CloseAllUnfold(origins: seq<(string, bool)>, reply: string -> CloseReply, k: nat)
    requires k < |origins|
    ensures var rest := CloseAll(origins[k + 1..], reply);
      var resp := reply(origins[k].0);
      CloseAll(origins[k..], reply) ==
        if !origins[k].1 then rest
        else if Stops(resp) then ([origins[k].0], Some(resp), Some(StopOf(resp)))
        else ([origins[k].0] + rest.0, if rest.1.Some? then rest.1 else Some(resp), rest.2)
  {
    assert origins[k..][1..] == origins[k + 1..];
  }

  /** The origins whose settings say `close_completed`, in order. */
  function Closing(origins: seq<(string, bool)>): (names: seq<string>)
    ensures |names| <= |origins|
  {
    if origins == [] then []
    else (if origins[0].1 then [origins[0].0] else []) + Closing(origins[1..])
  }

  /**
   * `remove_completed` raises exactly when some closing origin reports a
   * failure or a null list of closed units; otherwise it has asked every
   * closing origin, in order, and returns the reply of the last one only.
   */
  lemma {:induction false} CloseAllOutcome(origins: seq<(string, bool)>, reply: string -> CloseReply)
    ensures CloseAll(origins, reply).2.Some? <==>
      exists k :: 0 <= k < |origins| && origins[k].1 && Stops(reply(origins[k].0))
    ensures CloseAll(origins, reply).2.None? ==> CloseAll(origins, reply).0 == Closing(origins)
    ensures CloseAll(origins, reply).2.None? && Closing(origins) != [] ==>
      CloseAll(origins, reply).1 == Some(reply(Closing(origins)[|Closing(origins)| - 1]))
    ensures Closing(origins) == [] ==> CloseAll(origins, reply).1.None?
  {
    if origins != [] {
      CloseAllOutcome(origins[1..], reply);
      if exists k :: 0 <= k < |origins| - 1 && origins[1..][k].1 && Stops(reply(origins[1..][k].0)) {
        var k :| 0 <= k < |origins| - 1 && origins[1..][k].1 && Stops(reply(origins[1..][k].0));
        assert origins[k + 1] == origins[1..][k];
      }
      if exists k :: 0 <= k < |origins| && origins[k].1 && Stops(reply(origins[k].0)) {
        var k :| 0 <= k < |origins| && origins[k].1 && Stops(reply(origins[k].0));
        if k > 0 {
          assert origins[1..][k - 1] == origins[k];
        }
      }
    }
  }

  /**
   * When closing origin `k` is the first to stop the loop, the exception is
   * the one its reply raises, and the dashboards asked are the closing
   * origins up to and including it.
   */
  lemma {:induction false} CloseAllFirstStop(origins: seq<(string, bool)>, reply: string -> CloseReply, k: nat)
    requires k < |origins| && origins[k].1 && Stops(reply(origins[k].0))
    requires forall j :: 0 <= j < k ==> !(origins[j].1 && Stops(reply(origins[j].0)))
    ensures CloseAll(origins, reply).2 == Some(StopOf(reply(origins[k].0)))
    ensures CloseAll(origins, reply).0 == Closing(origins[..k + 1])
  {
    if k > 0 {
      forall j | 0 <= j < k - 1
        ensures !(origins[1..][j].1 && Stops(reply(origins[1..][j].0)))
      {
        assert origins[1..][j] == origins[j + 1];
      }
      CloseAllFirstStop(origins[1..], reply, k - 1);
      assert origins[1..][..k] == origins[..k + 1][1..];
    } else {
      assert origins[..1][1..] == [];
    }
  }

  // ---------------------------------------------------------------------
  // CleanupRequester and CleanupRoutine
  // ---------------------------------------------------------------------

  /** One iteration of `CleanupRequester.run`: a non-200 reply raises; otherwise CLEANED_UP. */
  function CleanupOne(rec: SipRecord, statusCode: string -> int, reason: string): (out: (SipRecord, Option<RoutineError>))
  {
    if statusCode(rec.bagIdentifier) != 200 then (rec, Some(CleanupError(reason, rec.bagIdentifier)))
    else (rec.(processStatus := CLEANED_UP), None)
  }

  function CleanupStep(statusCode: string -> int, reason: string): (nat, SipRecord) -> (SipRecord, Option<RoutineError>)
  {
    (i: nat, rec: SipRecord) => CleanupOne(rec, statusCode, reason)
  }

  /**
   * `CleanupRequester.run`: post each APPROVED identifier to the cleanup
   * service, in table order. `sip_ids` is never appended to, so the message
   * is always "No SIPS to clean up." and the list is empty.
   */
  method RequestCleanup(table: SipTable, statusCode: string -> int, reason: string)
    returns (r: Result<(string, seq<string>), RoutineError>)
    modifies table
    ensures var out := ApplyInOrder(old(table.records), IndicesWithStatus(old(table.records), APPROVED),
                                    CleanupStep(statusCode, reason));
      && table.records == out.0
      && (out.2.None? ==> r == Success(("No SIPS to clean up.", [])))
      && (out.2.Some? ==> r == Failure(out.2.value))
  {
    var step := CleanupStep(statusCode, reason);
    var todo := IndicesWithStatus(table.records, APPROVED);
    ghost var goal := ApplyInOrder(table.records, todo, step);
    var sipIds: seq<string> := [];
    ghost var done: seq<string> := [];
    assert Continues(goal, done, ApplyInOrder(table.records, todo[0..], step)) by {
      assert todo[0..] == todo;
      assert done + goal.1 == goal.1;
    }
    for k := 0 to |todo|
      invariant |table.records| == |old(table.records)|
      invariant Continues(goal, done, ApplyInOrder(table.records, todo[k..], step))
    {
      var i := todo[k];
      ApplyInOrderStep(table.records, todo, k, step);
      ghost var id := table.records[i].bagIdentifier;
      var err := CleanupRecord(table, i, statusCode, reason);
      if err.Some? {
        return Failure(err.value);
      }
      done := done + [id];
    }
    assert todo[|todo|..] == [];
    assert ApplyInOrder(table.records, [], step) == (table.records, [], None);
    assert goal.0 == table.records && goal.2.None?;
    var message := if |sipIds| > 0 then "Requests sent to clean up SIPs." else "No SIPS to clean up.";
    r := Success((message, sipIds));
  }

  /** Load the APPROVED record at `i`, post its identifier, mark it CLEANED_UP and save it. */
  method CleanupRecord(table: SipTable, i: nat, statusCode: string -> int, reason: string) returns (err: Option<RoutineError>)
    requires i < |table.records|
    modifies table
    ensures var (rec, e) := CleanupOne(old(table.records)[i], statusCode, reason);
      table.records == old(table.records)[i := rec] && err == e
  {
    var sip := new Sip.Load(table.records[i]);
    if statusCode(sip.bagIdentifier) != 200 {
      return Some(CleanupError(reason, sip.bagIdentifier));
    }
    sip.processStatus := CLEANED_UP;
    table.records := table.records[i := sip.Record()];
    err := None;
  }

  /**
   * After a cleanup run that raises nothing, every APPROVED record is
   * CLEANED_UP and the rest are unchanged; one that raises names an APPROVED
   * package, which stays APPROVED along with every one after it.
   */
  lemma CleanupRunEffect(records: seq<SipRecord>, statusCode: string -> int, reason: string)
    ensures var todo := IndicesWithStatus(records, APPROVED);
      var (recs, done, err) := ApplyInOrder(records, todo, CleanupStep(statusCode, reason));
      && (forall i :: 0 <= i < |records| && records[i].processStatus != APPROVED ==> recs[i] == records[i])
      && (err.None? ==> forall i :: 0 <= i < |records| && records[i].processStatus == APPROVED ==>
            recs[i] == records[i].(processStatus := CLEANED_UP))
      && (err.Some? ==>
            && |done| < |todo|
            && err.value == CleanupError(reason, records[todo[|done|]].bagIdentifier)
            && statusCode(records[todo[|done|]].bagIdentifier) != 200
            && forall j :: |done| <= j < |todo| ==> recs[todo[j]].processStatus == APPROVED)
  {
    var todo := IndicesWithStatus(records, APPROVED);
    IndicesWithStatusExact(records, APPROVED);
    ApplyInOrderLeavesRest(records, todo, CleanupStep(statusCode, reason));
    CleanupRunCompletes(records, statusCode, reason);
    CleanupRunStops(records, statusCode, reason);
  }

  /** A cleanup run that raises nothing marks every APPROVED record CLEANED_UP. */
  lemma CleanupRunCompletes(records: seq<SipRecord>, statusCode: string -> int, reason: string)
    ensures var out := ApplyInOrder(records, IndicesWithStatus(records, APPROVED), CleanupStep(statusCode, reason));
      out.2.None? ==> forall i :: 0 <= i < |records| && records[i].processStatus == APPROVED ==>
        out.0[i] == records[i].(processStatus := CLEANED_UP)
  {
    var todo := IndicesWithStatus(records, APPROVED);
    var step := CleanupStep(statusCode, reason);
    IndicesWithStatusExact(records, APPROVED);
    ApplyInOrderEffect(records, todo, step);
    var out := ApplyInOrder(records, todo, step);
    if out.2.None? {
      forall i | 0 <= i < |records| && records[i].processStatus == APPROVED
        ensures out.0[i] == records[i].(processStatus := CLEANED_UP)
      {
        var j :| 0 <= j < |todo| && todo[j] == i;
        assert j < |out.1|;
        assert step(i, records[i]) == CleanupOne(records[i], statusCode, reason);
        assert out.0[i] == step(i, records[i]).0;
      }
    }
  }

  /**
   * A cleanup run that raises stops at an APPROVED package whose post did
   * not answer 200, with the cleanup error for it, and leaves it APPROVED.
   */
  lemma CleanupRunStops(records: seq<SipRecord>, statusCode: string -> int, reason: string)
    ensures var todo := IndicesWithStatus(records, APPROVED);
      var out := ApplyInOrder(records, todo, CleanupStep(statusCode, reason));
      out.2.Some? ==>
        && |out.1| < |todo|
        && out.2.value == CleanupError(reason, records[todo[|out.1|]].bagIdentifier)
        && statusCode(records[todo[|out.1|]].bagIdentifier) != 200
        && out.0[todo[|out.1|]].processStatus == APPROVED
  {
    var todo := IndicesWithStatus(records, APPROVED);
    var step := CleanupStep(statusCode, reason);
    IndicesWithStatusExact(records, APPROVED);
    ApplyInOrderEffect(records, todo, step);
    var out := ApplyInOrder(records, todo, step);
    if out.2.Some? {
      var t := todo[|out.1|];
      assert step(t, records[t]) == CleanupOne(records[t], statusCode, reason);
    }
  }

  /** The destination directory's files. */
  class FileSystem {
    var files: set<string>

    constructor (files: set<string>)
      ensures this.files == files
    {
      this.files := files;
    }
  }

  /** `"{}.tar.gz".format(join(dest_dir, identifier))`. */
  function TransferPath(destDir: string, identifier: string): string
  {
    Join(destDir, identifier) + ".tar.gz"
  }

  /** The cleanup removes the very file that delivery wrote, `{dest}/{id}.tar.gz`. */
  lemma TransferPathIsDeliveredPath(destDir: string, identifier: string)
    ensures TransferPath(destDir, identifier) == ArchivePath(destDir, identifier)
    ensures IsArchive(TransferPath(destDir, identifier))
  {
    JoinThenSuffix(destDir, identifier, ".tar.gz");
    ArchivePathIsArchive(destDir, identifier);
  }

  /** `CleanupRoutine(identifier)`: an empty identifier raises. */
  method NewCleanupRoutine(identifier: string, destDir: string) returns (r: Result<CleanupRoutine, RoutineError>)
    ensures r.Failure? <==> identifier == ""
    ensures r.Failure? ==> r.error == CleanupError("No identifier submitted, unable to perform CleanupRoutine.", "")
    ensures r.Success? ==> fresh(r.value) && r.value.identifier == identifier && r.value.destDir == destDir
  {
    if identifier == "" {
      return Failure(CleanupError("No identifier submitted, unable to perform CleanupRoutine.", ""));
    }
    var c := new CleanupRoutine(identifier, destDir);
    r := Success(c);
  }

  class CleanupRoutine {
    const identifier: string
    const destDir: string
    var filepath: string

    constructor (identifier: string, destDir: string)
      ensures this.identifier == identifier && this.destDir == destDir
    {
      this.identifier, this.destDir := identifier, destDir;
      filepath := "";
    }

    /**
     * `run()`: remove `{dest}/{id}.tar.gz` when it exists. `removeError`
     * is what `os.remove` raises, if anything; it surfaces as a CleanupError.
     * After a run that did not raise the file is gone, so a second run
     * reports it not found.
     */
    method Run(fs: FileSystem, removeError: Option<string>) returns (r: Result<(string, string), RoutineError>)
      modifies this, fs
      ensures filepath == TransferPath(destDir, identifier)
      ensures TransferPath(destDir, identifier) !in old(fs.files) ==>
        r == Success(("Transfer was not found.", identifier)) && fs.files == old(fs.files)
      ensures TransferPath(destDir, identifier) in old(fs.files) && removeError.Some? ==>
        r == Failure(CleanupError(removeError.value, identifier)) && fs.files == old(fs.files)
      ensures TransferPath(destDir, identifier) in old(fs.files) && removeError.None? ==>
        r == Success(("Transfer removed.", identifier)) && fs.files == old(fs.files) - {TransferPath(destDir, identifier)}
      ensures r.Success? ==> TransferPath(destDir, identifier) !in fs.files
    {
      filepath := TransferPath(destDir, identifier);
      if filepath in fs.files {
        if removeError.Some? {
          return Failure(CleanupError(removeError.value, identifier));
        }
        fs.files := fs.files - {filepath};
        return Success(("Transfer removed.", identifier));
      }
      r := Success(("Transfer was not found.", identifier));
    }
  }
}
