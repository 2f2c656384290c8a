/**
 * sip_assembly/assemblers.py: the older, resumable assembler. Eight blocks
 * run in a fixed order; each runs only while the package's status is below
 * its threshold, and on success raises the status to exactly that
 * threshold, so a run that stops part-way resumes at the block that failed.
 */
module Assemblers {
  import opened Common
  import opened Paths
  import opened Models

  /** The package operations the blocks call; each reports success, failure or an exception. */
  datatype Stage =
    | MoveToDirectory(dest: string)
    | MoveObjectsDir
    | CreateStructure
    | CreateRightsCsv
    | ValidateRightsCsv
    | CreateSubmissionDocs
    | UpdateBagInfo
    | AddProcessingConfig
    | UpdateManifests

  /**
   * One guarded block: its threshold, the operations it calls in order, and
   * whether reading its input raises first (`sip.data['rights_statements']`
   * without that key).
   */
  datatype Block = Block(threshold: int, stages: seq<Stage>, missingKey: bool)

  /** What `run` gives back: True, False, or the SIPAssemblyError it raises. */
  datatype RunResult = Returned(ok: bool) | AssemblyError

  /** The thresholds of the eight blocks, in order. */
  const Thresholds: seq<int> := [20, 30, 40, 50, 60, 70, 80, 90]

  /**
   * The eight blocks for one package, given where its two moves go
   * (`join(BASE_DIR, dir, bag_identifier)`): move to processing, restructure,
   * rights (CSV work only when `rights_statements` is non-empty), submission
   * documentation, bag-info, processing configuration, manifests, and the
   * move to the transfer source.
   */
  function AssemblyBlocks(processingDest: string, transferDest: string, rights: RightsField): (blocks: seq<Block>)
    ensures |blocks| == |Thresholds| && forall i :: 0 <= i < |blocks| ==> blocks[i].threshold == Thresholds[i]
  {
    [Block(20, [MoveToDirectory(processingDest)], false),
     Block(30, [MoveObjectsDir, CreateStructure], false),
     Block(40, if rights.RightsValue? && HasRights(rights) then [CreateRightsCsv, ValidateRightsCsv] else [],
           rights.NoRightsKey?),
     Block(50, [CreateSubmissionDocs], false),
     Block(60, [UpdateBagInfo], false),
     Block(70, [AddProcessingConfig], false),
     Block(80, [UpdateManifests], false),
     Block(90, [MoveToDirectory(transferDest)], false)]
  }

  /** The first operation of `stages` that does not succeed decides; Done when all succeed. */
  function StagesOutcome(stages: seq<Stage>, outcome: Stage -> Outcome): (o: Outcome)
    ensures o == Done <==> forall k :: 0 <= k < |stages| ==> outcome(stages[k]) == Done
  {
    if stages == [] then Done
    else if outcome(stages[0]) != Done then outcome(stages[0])
    else StagesOutcome(stages[1..], outcome)
  }

  /** A block's outcome: its missing key raises before any operation runs. */
  function BlockOutcome(b: Block, outcome: Stage -> Outcome): Outcome
  {
    if b.missingKey then Raised else StagesOutcome(b.stages, outcome)
  }

  /** The final status and the result of running `blocks` from `status`. */
  function RunBlocks(blocks: seq<Block>, status: int, outcome: Stage -> Outcome): (int, RunResult)
  {
    if blocks == [] then (status, Returned(true))
    else if status < blocks[0].threshold then
      match BlockOutcome(blocks[0], outcome)
      case Done => RunBlocks(blocks[1..], blocks[0].threshold, outcome)
      case Declined => (status, Returned(false))
      case Raised => (status, AssemblyError)
    else RunBlocks(blocks[1..], status, outcome)
  }

  /**
   * `SIPAssembler(dirs)`: the directories come from `dirs` when it is
   * non-empty (a missing key raises), otherwise from the settings.
   */
  method NewAssembler(dirs: map<string, string>, settingsProcessing: string, settingsTransfer: string)
    returns (r: Result<SIPAssembler, string>)
    ensures |dirs| > 0 && !("processing" in dirs && "transfer_source" in dirs) ==> r.Failure?
    ensures |dirs| > 0 && "processing" in dirs && "transfer_source" in dirs ==>
      r.Success? && fresh(r.value)
      && r.value.processingDir == dirs["processing"] && r.value.transferSource == dirs["transfer_source"]
    ensures |dirs| == 0 ==>
      r.Success? && fresh(r.value)
      && r.value.processingDir == settingsProcessing && r.value.transferSource == settingsTransfer
  {
    if |dirs| > 0 {
      if "processing" !in dirs {
        return Failure("processing");
      }
      if "transfer_source" !in dirs {
        return Failure("transfer_source");
      }
      var a := new SIPAssembler(dirs["processing"], dirs["transfer_source"]);
      r := Success(a);
    } else {
      var a := new SIPAssembler(settingsProcessing, settingsTransfer);
      r := Success(a);
    }
  }

  class SIPAssembler {
    const processingDir: string
    const transferSource: string

    constructor (processingDir: string, transferSource: string)
      ensures this.processingDir == processingDir && this.transferSource == transferSource
    {
      this.processingDir := processingDir;
      this.transferSource := transferSource;
    }

    /**
     * One guarded block: below the threshold, run its operations and raise
     * the status to the threshold when they all succeed; report how the run
     * stops otherwise. At or above the threshold, do nothing.
     */
    method RunBlock(sip: Sip, b: Block, outcome: Stage -> Outcome) returns (stop: Option<RunResult>)
      modifies sip
      ensures sip.processStatus ==
        if old(sip.processStatus) < b.threshold && BlockOutcome(b, outcome) == Done then b.threshold
        else old(sip.processStatus)
      ensures stop ==
        if old(sip.processStatus) >= b.threshold then None
        else match BlockOutcome(b, outcome)
             case Done => None
             case Declined => Some(Returned(false))
             case Raised => Some(AssemblyError)
    {
      if sip.processStatus < b.threshold {
        if b.missingKey {
          return Some(AssemblyError);
        }
        var o := StagesOutcome(b.stages, outcome);
        if o == Raised {
          return Some(AssemblyError);
        }
        if o == Declined {
          return Some(Returned(false));
        }
        sip.processStatus := b.threshold;
      }
      stop := None;
    }

    /** `run(sip)`: the package's eight blocks, run from its current status. */
    method Run(sip: Sip, baseDir: string, outcome: Stage -> Outcome) returns (r: RunResult)
      modifies sip
      ensures (sip.processStatus, r) ==
        RunBlocks(AssemblyBlocks(Join(Join(baseDir, processingDir), sip.bagIdentifier),
                                 Join(Join(baseDir, transferSource), sip.bagIdentifier), sip.rights),
                  old(sip.processStatus), outcome)
    {
      var blocks := AssemblyBlocks(Join(Join(baseDir, processingDir), sip.bagIdentifier),
                                  Join(Join(baseDir, transferSource), sip.bagIdentifier), sip.rights);
      r := RunGuardedBlocks(sip, blocks, outcome);
    }

    /** The body of `run`: the eight guarded blocks, in order, with their early returns. */
    method RunGuardedBlocks(sip: Sip, blocks: seq<Block>, outcome: Stage -> Outcome) returns (r: RunResult)
      requires |blocks| == 8
      modifies sip
      ensures (sip.processStatus, r) == RunBlocks(blocks, old(sip.processStatus), outcome)
    {
      assert blocks[0..] == blocks;
      ghost var goal := RunBlocks(blocks, sip.processStatus, outcome);
      var stop: Option<RunResult>;

      // move to the processing directory
      stop := GuardedBlock(sip, blocks, 0, outcome, goal);
      if stop.Some? {
        return stop.value;
      }

      // restructure
      stop := GuardedBlock(sip, blocks, 1, outcome, goal);
      if stop.Some? {
        return stop.value;
      }

      // rights statements
      stop := GuardedBlock(sip, blocks, 2, outcome, goal);
      if stop.Some? {
        return stop.value;
      }

      // submission documentation
      stop := GuardedBlock(sip, blocks, 3, outcome, goal);
      if stop.Some? {
        return stop.value;
      }

      // bag-info.txt
      stop := GuardedBlock(sip, blocks, 4, outcome, goal);
      if stop.Some? {
        return stop.value;
      }

      // processing configuration
      stop := GuardedBlock(sip, blocks, 5, outcome, goal);
      if stop.Some? {
        return stop.value;
      }

      // manifests
      stop := GuardedBlock(sip, blocks, 6, outcome, goal);
      if stop.Some? {
        return stop.value;
      }

      // send to the transfer source
      stop := GuardedBlock(sip, blocks, 7, outcome, goal);
      if stop.Some? {
        return stop.value;
      }

      assert blocks[8..] == [];
      r := Returned(true);
    }

    /**
     * Block `i` of `blocks` as one step of the run towards `goal`, what
     * `RunBlocks` gives for blocks `i..`: either the run stops here with
     * `goal`, or it goes on from the new status towards the same `goal`.
     */
    method GuardedBlock(sip: Sip, blocks: seq<Block>, i: nat, outcome: Stage -> Outcome, ghost goal: (int, RunResult))
      returns (stop: Option<RunResult>)
      requires i < |blocks| && RunBlocks(blocks[i..], sip.processStatus, outcome) == goal
      modifies sip
      ensures stop.Some? ==> (sip.processStatus, stop.value) == goal
      ensures stop.None? ==> RunBlocks(blocks[i + 1..], sip.processStatus, outcome) == goal
    {
      RunBlocksStep(blocks, i, sip.processStatus, outcome);
      stop := RunBlock(sip, blocks[i], outcome);
    }
  }

  lemma RunBlocksStep(blocks: seq<Block>, i: nat, status: int, outcome: Stage -> Outcome)
    requires i < |blocks|
    ensures RunBlocks(blocks[i..], status, outcome) ==
      if status < blocks[i].threshold then
        match BlockOutcome(blocks[i], outcome)
        case Done => RunBlocks(blocks[i + 1..], blocks[i].threshold, outcome)
        case Declined => (status, Returned(false))
        case Raised => (status, AssemblyError)
      else RunBlocks(blocks[i + 1..], status, outcome)
  {
    assert blocks[i..][1..] == blocks[i + 1..];
  }

  // Properties of a run

  /** The thresholds of `blocks`, in order. */
  function ThresholdsOf(blocks: seq<Block>): (ts: seq<int>)
    ensures |ts| == |blocks|
  {
    if blocks == [] then [] else [blocks[0].threshold] + ThresholdsOf(blocks[1..])
  }

  /** Each block's threshold lies above the one before it. */
  ghost predicate Ascending(blocks: seq<Block>)
  {
    forall i, j :: 0 <= i < j < |blocks| ==> blocks[i].threshold < blocks[j].threshold
  }

  /** A run never lowers the status, and leaves it where it was or at a block's threshold. */
  lemma {:induction false} StatusNeverDrops(blocks: seq<Block>, status: int, outcome: Stage -> Outcome)
    ensures RunBlocks(blocks, status, outcome).0 >= status
    ensures RunBlocks(blocks, status, outcome).0 == status
         || RunBlocks(blocks, status, outcome).0 in ThresholdsOf(blocks)
  {
    if blocks != [] {
      if status < blocks[0].threshold && BlockOutcome(blocks[0], outcome) == Done {
        StatusNeverDrops(blocks[1..], blocks[0].threshold, outcome);
      } else if status >= blocks[0].threshold {
        StatusNeverDrops(blocks[1..], status, outcome);
      }
    }
  }

  /**
   * Blocks whose threshold the status has already reached are skipped,
   * whatever their operations would do: a run resumes after them.
   */
  lemma {:induction false} CompletedBlocksAreSkipped(blocks: seq<Block>, k: nat, status: int, outcome: Stage -> Outcome)
    requires k <= |blocks|
    requires forall i :: 0 <= i < k ==> blocks[i].threshold <= status
    ensures RunBlocks(blocks, status, outcome) == RunBlocks(blocks[k..], status, outcome)
  {
    if k > 0 {
      CompletedBlocksAreSkipped(blocks[1..], k - 1, status, outcome);
      assert blocks[1..][k - 1..] == blocks[k..];
    }
  }

  /** Running again from where a run ended gives the same status and the same answer. */
  lemma {:induction false} RerunIsStable(blocks: seq<Block>, status: int, outcome: Stage -> Outcome)
    ensures RunBlocks(blocks, RunBlocks(blocks, status, outcome).0, outcome) == RunBlocks(blocks, status, outcome)
  {
    if blocks != [] {
      var t := blocks[0].threshold;
      if status < t && BlockOutcome(blocks[0], outcome) == Done {
        RerunIsStable(blocks[1..], t, outcome);
        StatusNeverDrops(blocks[1..], t, outcome);
      } else if status >= t {
        RerunIsStable(blocks[1..], status, outcome);
        StatusNeverDrops(blocks[1..], status, outcome);
      }
    }
  }

  /** A run completes exactly when every block above the starting status succeeds. */
  lemma {:induction false} CompletesIff(blocks: seq<Block>, status: int, outcome: Stage -> Outcome)
    requires Ascending(blocks)
    ensures RunBlocks(blocks, status, outcome).1 == Returned(true) <==>
      forall i :: 0 <= i < |blocks| && blocks[i].threshold > status ==> BlockOutcome(blocks[i], outcome) == Done
  {
    if blocks != [] {
      var t := blocks[0].threshold;
      assert Ascending(blocks[1..]);
      if status < t {
        if BlockOutcome(blocks[0], outcome) == Done {
          CompletesIff(blocks[1..], t, outcome);
          assert forall i :: 1 <= i < |blocks| ==> blocks[i].threshold > t;
          assert forall i :: 1 <= i < |blocks| ==> blocks[i] == blocks[1..][i - 1];
        }
      } else {
        CompletesIff(blocks[1..], status, outcome);
        assert forall i :: 1 <= i < |blocks| ==> blocks[i] == blocks[1..][i - 1];
      }
    }
  }

  /** A completed run leaves the status at the last threshold, or where it was if already higher. */
  lemma {:induction false} CompletedRunReachesLastThreshold(blocks: seq<Block>, status: int, outcome: Stage -> Outcome)
    requires Ascending(blocks) && blocks != []
    requires RunBlocks(blocks, status, outcome).1 == Returned(true)
    ensures RunBlocks(blocks, status, outcome).0 ==
      if status < blocks[|blocks| - 1].threshold then blocks[|blocks| - 1].threshold else status
  {
    var t := blocks[0].threshold;
    assert Ascending(blocks[1..]);
    if |blocks| > 1 {
      assert blocks[1..][|blocks| - 2] == blocks[|blocks| - 1];
      if status < t {
        CompletedRunReachesLastThreshold(blocks[1..], t, outcome);
      } else {
        CompletedRunReachesLastThreshold(blocks[1..], status, outcome);
      }
    }
  }

  /**
   * A pending block that does not succeed stops the run below its
   * threshold, with False or the assembly error.
   */
  lemma {:induction false} FailingBlockStopsRun(blocks: seq<Block>, j: nat, status: int, outcome: Stage -> Outcome)
    requires Ascending(blocks) && j < |blocks|
    requires status < blocks[j].threshold && BlockOutcome(blocks[j], outcome) != Done
    ensures RunBlocks(blocks, status, outcome).0 < blocks[j].threshold
    ensures RunBlocks(blocks, status, outcome).1 != Returned(true)
  {
    var t := blocks[0].threshold;
    assert Ascending(blocks[1..]);
    if j > 0 {
      assert blocks[1..][j - 1] == blocks[j];
      if status < t && BlockOutcome(blocks[0], outcome) == Done {
        FailingBlockStopsRun(blocks[1..], j - 1, t, outcome);
      } else if status >= t {
        FailingBlockStopsRun(blocks[1..], j - 1, status, outcome);
      }
    }
  }

  /** The run depends only on the outcomes of the operations its blocks call. */
  lemma {:induction false} RunDependsOnCalledStages(blocks: seq<Block>, status: int, o1: Stage -> Outcome, o2: Stage -> Outcome)
    requires forall i, k :: 0 <= i < |blocks| && 0 <= k < |blocks[i].stages| ==>
      o1(blocks[i].stages[k]) == o2(blocks[i].stages[k])
    ensures RunBlocks(blocks, status, o1) == RunBlocks(blocks, status, o2)
  {
    if blocks != [] {
      StagesAgree(blocks[0].stages, o1, o2);
      assert forall i :: 1 <= i < |blocks| ==> blocks[1..][i - 1] == blocks[i];
      RunDependsOnCalledStages(blocks[1..], if status < blocks[0].threshold then blocks[0].threshold else status, o1, o2);
      RunDependsOnCalledStages(blocks[1..], status, o1, o2);
    }
  }

  lemma {:induction false} StagesAgree(stages: seq<Stage>, o1: Stage -> Outcome, o2: Stage -> Outcome)
    requires forall k :: 0 <= k < |stages| ==> o1(stages[k]) == o2(stages[k])
    ensures StagesOutcome(stages, o1) == StagesOutcome(stages, o2)
  {
    if stages != [] {
      StagesAgree(stages[1..], o1, o2);
    }
  }

  // The eight blocks of `run`

  lemma AssemblyBlocksAscending(processingDest: string, transferDest: string, rights: RightsField)
    ensures Ascending(AssemblyBlocks(processingDest, transferDest, rights))
  {
    var blocks := AssemblyBlocks(processingDest, transferDest, rights);
    forall i, j | 0 <= i < j < |blocks|
      ensures blocks[i].threshold < blocks[j].threshold
    {
      assert blocks[i].threshold == Thresholds[i] && blocks[j].threshold == Thresholds[j];
    }
  }

  /** A package at status 90 or above is left alone and reported assembled. */
  lemma SentPackageIsLeftAlone(processingDest: string, transferDest: string, rights: RightsField, status: int, outcome: Stage -> Outcome)
    requires status >= 90
    ensures RunBlocks(AssemblyBlocks(processingDest, transferDest, rights), status, outcome)
      == (status, Returned(true))
  {
    var blocks := AssemblyBlocks(processingDest, transferDest, rights);
    CompletedBlocksAreSkipped(blocks, 8, status, outcome);
    assert blocks[8..] == [];
  }

  /** A run that returns True leaves the package at status 90 (or above, if it started there). */
  lemma CompletedAssemblyReaches90(processingDest: string, transferDest: string, rights: RightsField, status: int, outcome: Stage -> Outcome)
    requires RunBlocks(AssemblyBlocks(processingDest, transferDest, rights), status, outcome).1
      == Returned(true)
    ensures RunBlocks(AssemblyBlocks(processingDest, transferDest, rights), status, outcome).0
      == if status < 90 then 90 else status
  {
    var blocks := AssemblyBlocks(processingDest, transferDest, rights);
    AssemblyBlocksAscending(processingDest, transferDest, rights);
    CompletedRunReachesLastThreshold(blocks, status, outcome);
  }

  /**
   * Without a `rights_statements` key, a package below 40 never gets past the
   * rights block: the run ends below 40 and does not return True.
   */
  lemma MissingRightsKeyStopsRun(processingDest: string, transferDest: string, status: int, outcome: Stage -> Outcome)
    requires status < 40
    ensures RunBlocks(AssemblyBlocks(processingDest, transferDest, NoRightsKey), status, outcome).0 < 40
    ensures RunBlocks(AssemblyBlocks(processingDest, transferDest, NoRightsKey), status, outcome).1
      != Returned(true)
  {
    var blocks := AssemblyBlocks(processingDest, transferDest, NoRightsKey);
    AssemblyBlocksAscending(processingDest, transferDest, NoRightsKey);
    FailingBlockStopsRun(blocks, 2, status, outcome);
  }

  /**
   * With an empty or null `rights_statements`, no rights CSV is made or
   * validated: what those two operations would do cannot change the run.
   */
  lemma EmptyRightsSkipCsv(processingDest: string, transferDest: string, rights: RightsField, status: int, o1: Stage -> Outcome, o2: Stage -> Outcome)
    requires rights.RightsValue? && !HasRights(rights)
    requires forall st :: st != CreateRightsCsv && st != ValidateRightsCsv ==> o1(st) == o2(st)
    ensures RunBlocks(AssemblyBlocks(processingDest, transferDest, rights), status, o1)
         == RunBlocks(AssemblyBlocks(processingDest, transferDest, rights), status, o2)
  {
    var blocks := AssemblyBlocks(processingDest, transferDest, rights);
    forall i, k | 0 <= i < |blocks| && 0 <= k < |blocks[i].stages|
      ensures o1(blocks[i].stages[k]) == o2(blocks[i].stages[k])
    {
      assert blocks[i].stages[k] != CreateRightsCsv && blocks[i].stages[k] != ValidateRightsCsv;
    }
    RunDependsOnCalledStages(blocks, status, o1, o2);
  }
}
