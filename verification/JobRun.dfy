/**
 * What one coordinator process writes, job by job, and what a crash leaves behind
 * (`run_one_job` and the job loop of bins/cosaci-coordinator/src/main.rs).
 */
module JobRun {
  import opened Machine
  import opened Quorum
  import opened MerkleLog
  import opened Attestation
  import opened Retrieval
  import opened Hex
  import opened Journal

  /** A durable write: one journal record, or one entry of the Merkle log. */
  datatype Write = ToJournal(entry: Entry) | ToLog(artifact: Hash)

  datatype Disk = Disk(journal: seq<Entry>, log: seq<Hash>)

  function ApplyWrite(d: Disk, w: Write): Disk {
    match w
    case ToJournal(e) => d.(journal := d.journal + [e])
    case ToLog(h) => d.(log := d.log + [h])
  }

  function Extend(d: Disk, ws: seq<Write>): Disk {
    if ws == [] then d else ApplyWrite(Extend(d, ws[..|ws| - 1]), ws[|ws| - 1])
  }

  /**
   * How a job went: given up before a committee was formed, given up while assigning, or settled
   * with the runners that answered, the outcome and the consensus artifact.
   */
  datatype JobScript =
    | Abandoned(job: JobId)
    | Unassigned(job: JobId, committee: seq<RunnerId>)
    | Settled(job: JobId, committee: seq<RunnerId>, responders: seq<RunnerId>, attestations: seq<Attestation>,
              outcome: Outcome, artifact: Hash, pipelineHash: Hash)

  predicate Anchoring(s: JobScript) {
    s.Settled? && s.outcome.Pass?
  }

  function Received(job: JobId, responders: seq<RunnerId>): seq<Write> {
    seq(|responders|, i requires 0 <= i < |responders| => ToJournal(AttestationReceived(job, responders[i])))
  }

  function Opening(s: JobScript): seq<Write>
    requires !s.Abandoned?
  {
    [ToJournal(JobSubmitted(s.job)), ToJournal(CommitteeSelected(s.job, s.committee))]
  }

  function Settling(s: JobScript): Write
    requires s.Settled?
  {
    ToJournal(Aggregated(s.job, s.outcome, ToHex(s.artifact)))
  }

  /** Everything a job writes, in order, when the log has `position` entries before it. */
  function WritesOf(s: JobScript, position: nat): seq<Write> {
    match s
    case Abandoned(job) => [ToJournal(JobSubmitted(job))]
    case Unassigned(_, _) => Opening(s)
    case Settled(job, _, responders, _, _, artifact, _) =>
      Opening(s) + Received(job, responders) + [Settling(s)]
      + (if Anchoring(s) then [ToLog(artifact), ToJournal(Anchored(job, position))] else [])
  }

  /** The log after the given jobs. */
  function LogOf(scripts: seq<JobScript>): seq<Hash> {
    if scripts == [] then []
    else
      var s := scripts[|scripts| - 1];
      LogOf(scripts[..|scripts| - 1]) + (if Anchoring(s) then [s.artifact] else [])
  }

  function WritesOfRun(scripts: seq<JobScript>): seq<Write> {
    if scripts == [] then []
    else
      var front := scripts[..|scripts| - 1];
      WritesOfRun(front) + WritesOf(scripts[|scripts| - 1], |LogOf(front)|)
  }

  /** Job identifiers count up from 1. */
  predicate Numbered(scripts: seq<JobScript>) {
    forall i :: 0 <= i < |scripts| ==> scripts[i].job == i + 1
  }

  // ---------------------------------------------------------------------
  // The state after part of a job's writes

  /** What replay makes of a job of which `m > 0` writes reached the disk. */
  function StateAfter(s: JobScript, m: nat, position: nat): JobState {
    if m <= 1 then Submitted
    else if !s.Settled? || m <= 2 + |s.responders| then InFlight
    else if m <= 4 + |s.responders| then AggregatedNotAnchored(s.outcome, ToHex(s.artifact))
    else AnchoredAt(position)
  }

  function JobsWith(jobs: Jobs, s: JobScript, m: nat, position: nat): Jobs {
    if m == 0 then jobs else jobs[s.job := StateAfter(s, m, position)]
  }

  /** Whether the log entry is among the first `m` writes. */
  predicate Appended(s: JobScript, m: nat) {
    Anchoring(s) && m >= 4 + |s.responders|
  }

  function LogWith(log: seq<Hash>, s: JobScript, m: nat): seq<Hash> {
    if Appended(s, m) then log + [s.artifact] else log
  }

  lemma WriteAt(s: JobScript, position: nat, i: nat)
    requires i < |WritesOf(s, position)|
    ensures var w := WritesOf(s, position)[i];
            w == if i == 0 then ToJournal(JobSubmitted(s.job))
                 else if s.Abandoned? then w
                 else if i == 1 then ToJournal(CommitteeSelected(s.job, s.committee))
                 else if s.Unassigned? then w
                 else if i < 2 + |s.responders| then ToJournal(AttestationReceived(s.job, s.responders[i - 2]))
                 else if i == 2 + |s.responders| then Settling(s)
                 else if i == 3 + |s.responders| then ToLog(s.artifact)
                 else ToJournal(Anchored(s.job, position))
    ensures s.Abandoned? ==> i < 1
    ensures s.Unassigned? ==> i < 2
    ensures s.Settled? ==> i < (if Anchoring(s) then 5 else 3) + |s.responders|
  {
    if s.Settled? {
      var tail: seq<Write> := if Anchoring(s) then [ToLog(s.artifact), ToJournal(Anchored(s.job, position))] else [];
      assert WritesOf(s, position) == Opening(s) + Received(s.job, s.responders) + [Settling(s)] + tail;
      assert |Opening(s)| == 2 && |Received(s.job, s.responders)| == |s.responders|;
      hide WritesOf, Settling;
    }
  }

  /** One more write of a job, on the log and on the replayed journal. */
  lemma OneMoreWrite(jobs: Jobs, log: seq<Hash>, s: JobScript, i: nat)
    requires i < |WritesOf(s, |log|)| && s.job !in jobs
    ensures var w := WritesOf(s, |log|)[i];
            var before, after := JobsWith(jobs, s, i, |log|), JobsWith(jobs, s, i + 1, |log|);
            match w
            case ToJournal(e) => ReplayOne(before, e) == after && LogWith(log, s, i + 1) == LogWith(log, s, i)
            case ToLog(h) => before == after && LogWith(log, s, i + 1) == LogWith(log, s, i) + [h]
  {
    hide WritesOf, ToHex;
    WriteAt(s, |log|, i);
  }

  lemma ExtendStep(d: Disk, ws: seq<Write>, m: nat)
    requires 0 < m <= |ws|
    ensures Extend(d, ws[..m]) == ApplyWrite(Extend(d, ws[..m - 1]), ws[m - 1])
  {
    assert ws[..m][..m - 1] == ws[..m - 1];
  }

  /** `mid` is the disk `d` with the first `m` writes of the job. */
  predicate HoldsPart(mid: Disk, d: Disk, s: JobScript, m: nat) {
    mid.log == LogWith(d.log, s, m) &&
    Reconstruct(mid.journal) == JobsWith(Reconstruct(d.journal), s, m, |d.log|)
  }

  lemma HoldsNone(d: Disk, s: JobScript)
    ensures HoldsPart(Extend(d, []), d, s, 0)
  {
    hide Reconstruct;
  }

  lemma HoldsPartStep(mid: Disk, d: Disk, s: JobScript, i: nat)
    requires i < |WritesOf(s, |d.log|)| && s.job !in Reconstruct(d.journal) && HoldsPart(mid, d, s, i)
    ensures HoldsPart(ApplyWrite(mid, WritesOf(s, |d.log|)[i]), d, s, i + 1)
  {
    hide WritesOf, Reconstruct, LogWith, JobsWith, ReplayOne;
    var w := WritesOf(s, |d.log|)[i];
    OneMoreWrite(Reconstruct(d.journal), d.log, s, i);
    if w.ToJournal? {
      ReplayAppend(mid.journal, w.entry);
    }
  }

  lemma {:induction false} PartOfJob(d: Disk, s: JobScript, m: nat)
    requires m <= |WritesOf(s, |d.log|)| && s.job !in Reconstruct(d.journal)
    ensures HoldsPart(Extend(d, WritesOf(s, |d.log|)[..m]), d, s, m)
  {
    hide WritesOf, Reconstruct, HoldsPart, Extend;
    var ws := WritesOf(s, |d.log|);
    if m == 0 {
      assert ws[..0] == [];
      HoldsNone(d, s);
    } else {
      PartOfJob(d, s, m - 1);
      HoldsPartStep(Extend(d, ws[..m - 1]), d, s, m - 1);
      ExtendStep(d, ws, m);
    }
  }

  lemma {:induction false} ExtendTwice(d: Disk, a: seq<Write>, b: seq<Write>)
    ensures Extend(d, a + b) == Extend(Extend(d, a), b)
    decreases |b|
  {
    if b == [] {
      assert a + b == a;
    } else {
      assert (a + b)[..|a + b| - 1] == a + b[..|b| - 1];
      ExtendTwice(d, a, b[..|b| - 1]);
    }
  }

  // ---------------------------------------------------------------------
  // Whole jobs

  /** Replay of complete jobs. */
  function JobsOf(scripts: seq<JobScript>): Jobs {
    if scripts == [] then map[]
    else
      var front, s := scripts[..|scripts| - 1], scripts[|scripts| - 1];
      JobsOf(front)[s.job := FinalState(s, |LogOf(front)|)]
  }

  function FinalState(s: JobScript, position: nat): JobState {
    match s
    case Abandoned(_) => Submitted
    case Unassigned(_, _) => InFlight
    case Settled(_, _, _, _, outcome, artifact, _) =>
      if outcome.Pass? then AnchoredAt(position) else AggregatedNotAnchored(outcome, ToHex(artifact))
  }

  const EMPTY_DISK := Disk([], [])

  /** The process's disk after writing `ws`. */
  function DiskOf(ws: seq<Write>): Disk {
    Extend(EMPTY_DISK, ws)
  }

  lemma {:induction false} JobsAreNumbered(scripts: seq<JobScript>, j: JobId)
    requires Numbered(scripts)
    ensures j in JobsOf(scripts) <==> 1 <= j <= |scripts|
    ensures 1 <= j <= |scripts| ==> JobsOf(scripts)[j] == FinalState(scripts[j - 1], |LogOf(scripts[..j - 1])|)
  {
    if scripts == [] {
    } else {
      var n := |scripts| - 1;
      JobsAreNumbered(scripts[..n], j);
      if 1 <= j <= n {
        assert scripts[..n][..j - 1] == scripts[..j - 1];
      }
    }
  }

  lemma {:induction false} RunOnDisk(scripts: seq<JobScript>)
    requires Numbered(scripts) && |scripts| <= U64_MAX
    ensures DiskOf(WritesOfRun(scripts)).log == LogOf(scripts)
    ensures Reconstruct(DiskOf(WritesOfRun(scripts)).journal) == JobsOf(scripts)
  {
    if scripts == [] {
    } else {
      hide WritesOf, Reconstruct, FinalState, LogOf, JobsOf, WritesOfRun, Extend;
      var n := |scripts| - 1;
      var front, s := scripts[..n], scripts[n];
      RunOnDisk(front);
      JobsAreNumbered(front, s.job);
      JobOnDisk(DiskOf(WritesOfRun(front)), s);
      ExtendTwice(EMPTY_DISK, WritesOfRun(front), WritesOf(s, |LogOf(front)|));
      LastJob(scripts);
    }
  }

  lemma LastJob(scripts: seq<JobScript>)
    requires scripts != []
    ensures var front, s := scripts[..|scripts| - 1], scripts[|scripts| - 1];
            WritesOfRun(scripts) == WritesOfRun(front) + WritesOf(s, |LogOf(front)|) &&
            JobsOf(scripts) == JobsOf(front)[s.job := FinalState(s, |LogOf(front)|)] &&
            LogOf(scripts) == LogOf(front) + if Anchoring(s) then [s.artifact] else []
  {
  }

  lemma JobOnDisk(d: Disk, s: JobScript)
    requires s.job !in Reconstruct(d.journal)
    ensures var d' := Extend(d, WritesOf(s, |d.log|));
            d'.log == d.log + (if Anchoring(s) then [s.artifact] else []) &&
            Reconstruct(d'.journal) == Reconstruct(d.journal)[s.job := FinalState(s, |d.log|)]
  {
    hide WritesOf, Reconstruct, StateAfter, FinalState, Appended, Extend;
    var ws := WritesOf(s, |d.log|);
    PartOfJob(d, s, |ws|);
    assert ws[..|ws|] == ws;
    WholeJob(s, |d.log|);
  }

  lemma WholeJob(s: JobScript, position: nat)
    ensures |WritesOf(s, position)| > 0
    ensures StateAfter(s, |WritesOf(s, position)|, position) == FinalState(s, position)
    ensures Appended(s, |WritesOf(s, position)|) == Anchoring(s)
  {
  }

  // ---------------------------------------------------------------------
  // Positions in the log

  lemma {:induction false} LogGrows(scripts: seq<JobScript>, i: nat)
    requires i <= |scripts|
    ensures LogOf(scripts[..i]) <= LogOf(scripts)
  {
    if i == |scripts| {
      assert scripts[..i] == scripts;
    } else {
      var n := |scripts| - 1;
      LogGrows(scripts[..n], i);
      assert scripts[..n][..i] == scripts[..i];
    }
  }

  lemma LogStep(scripts: seq<JobScript>, i: nat)
    requires i < |scripts|
    ensures LogOf(scripts[..i + 1]) == LogOf(scripts[..i]) + (if Anchoring(scripts[i]) then [scripts[i].artifact] else [])
  {
    assert scripts[..i + 1][..i] == scripts[..i];
  }

  /** An anchored job's artifact sits at the position replay reports. */
  lemma ArtifactAtPosition(scripts: seq<JobScript>, i: nat)
    requires i < |scripts| && Anchoring(scripts[i])
    ensures |LogOf(scripts[..i])| < |LogOf(scripts)|
    ensures LogOf(scripts)[|LogOf(scripts[..i])|] == scripts[i].artifact
  {
    LogStep(scripts, i);
    LogGrows(scripts, i + 1);
  }

  /** Two anchored jobs have different positions. */
  lemma PositionsDiffer(scripts: seq<JobScript>, i: nat, k: nat)
    requires i < k < |scripts| && Anchoring(scripts[i])
    ensures |LogOf(scripts[..i])| < |LogOf(scripts[..k])|
  {
    LogStep(scripts, i);
    LogGrows(scripts[..k], i + 1);
    assert scripts[..k][..i + 1] == scripts[..i + 1];
  }

  /** Every log entry is some job's artifact. */
  lemma {:induction false} PositionIsJobs(scripts: seq<JobScript>, p: nat) returns (i: nat)
    requires p < |LogOf(scripts)|
    ensures i < |scripts| && Anchoring(scripts[i]) && |LogOf(scripts[..i])| == p
  {
    var n := |scripts| - 1;
    if p < |LogOf(scripts[..n])| {
      i := PositionIsJobs(scripts[..n], p);
      assert scripts[..n][..i] == scripts[..i];
    } else {
      i := n;
    }
  }

  // ---------------------------------------------------------------------
  // A crash at any point

  /** `n` jobs complete, then `m` writes of the next one. */
  ghost predicate CutAt(scripts: seq<JobScript>, k: nat, n: nat, m: nat) {
    k <= |WritesOfRun(scripts)| && n <= |scripts| &&
    (n == |scripts| ==> m == 0) &&
    (n < |scripts| ==> m <= |WritesOf(scripts[n], |LogOf(scripts[..n])|)|) &&
    WritesOfRun(scripts)[..k] ==
      WritesOfRun(scripts[..n]) + (if n < |scripts| then WritesOf(scripts[n], |LogOf(scripts[..n])|)[..m] else [])
  }

  lemma {:induction false} FindCut(scripts: seq<JobScript>, k: nat) returns (n: nat, m: nat)
    requires k <= |WritesOfRun(scripts)|
    ensures CutAt(scripts, k, n, m)
  {
    hide WritesOf;
    if scripts == [] {
      n, m := 0, 0;
    } else {
      var l := |scripts| - 1;
      var front := scripts[..l];
      var done, ws := WritesOfRun(front), WritesOf(scripts[l], |LogOf(front)|);
      if k < |done| {
        n, m := FindCut(front, k);
        assert WritesOfRun(scripts)[..k] == done[..k];
        assert front[..n] == scripts[..n];
      } else {
        n, m := l, k - |done|;
        assert WritesOfRun(scripts)[..k] == done + ws[..m];
      }
    }
  }

  /** What the disk holds after a crash at the cut. */
  lemma DiskAtCut(scripts: seq<JobScript>, k: nat, n: nat, m: nat)
    requires Numbered(scripts) && |scripts| <= U64_MAX && CutAt(scripts, k, n, m)
    ensures var d := DiskOf(WritesOfRun(scripts)[..k]);
            var done := scripts[..n];
            if n == |scripts| || m == 0 then d.log == LogOf(done) && Reconstruct(d.journal) == JobsOf(done)
            else d.log == LogWith(LogOf(done), scripts[n], m) &&
                 Reconstruct(d.journal) == JobsOf(done)[scripts[n].job := StateAfter(scripts[n], m, |LogOf(done)|)]
  {
    hide WritesOf;
    var done := scripts[..n];
    RunOnDisk(done);
    if n == |scripts| {
      assert WritesOfRun(done) + [] == WritesOfRun(done);
    } else {
      JobsAreNumbered(done, scripts[n].job);
      ExtendTwice(EMPTY_DISK, WritesOfRun(done), WritesOf(scripts[n], |LogOf(done)|)[..m]);
      PartOfJob(DiskOf(WritesOfRun(done)), scripts[n], m);
    }
  }

  /** Replay marks a job anchored only at a log entry that is its consensus artifact. */
  ghost predicate AnchorsAreTrue(scripts: seq<JobScript>, jobs: Jobs, log: seq<Hash>) {
    forall j :: j in jobs && jobs[j].AnchoredAt? ==>
      1 <= j <= |scripts| && Anchoring(scripts[j - 1]) &&
      jobs[j].position < |log| && log[jobs[j].position] == scripts[j - 1].artifact
  }

  /** No two jobs are anchored at one position. */
  ghost predicate AnchorsAreDistinct(jobs: Jobs) {
    forall i, j :: i in jobs && j in jobs && i != j && jobs[i].AnchoredAt? && jobs[j].AnchoredAt? ==>
      jobs[i].position != jobs[j].position
  }

  ghost predicate IsAnchored(jobs: Jobs, p: nat) {
    exists j :: j in jobs && jobs[j] == AnchoredAt(p)
  }

  ghost predicate AllAnchored(jobs: Jobs, count: int) {
    forall p :: 0 <= p < count ==> IsAnchored(jobs, p)
  }

  /** The last log entry has no `Anchored` record: the process died between the two writes. */
  ghost predicate Orphaned(jobs: Jobs, log: seq<Hash>) {
    log != [] && !IsAnchored(jobs, |log| - 1)
  }

  /**
   * A recoverable disk: true and distinct anchors, all but possibly the last log entry anchored; an
   * orphan belongs to the last submitted job, which is pending re-anchor with outcome `Pass` and
   * that very artifact; no other job is pending with outcome `Pass`.
   */
  ghost predicate Recoverable(scripts: seq<JobScript>, d: Disk) {
    exists last :: RecoverableUpTo(scripts, Reconstruct(d.journal), d.log, last)
  }

  /** As above, with `last` the last submitted job. */
  ghost predicate RecoverableUpTo(scripts: seq<JobScript>, jobs: Jobs, log: seq<Hash>, last: nat) {
    (forall j :: j in jobs <==> 1 <= j <= last) &&
    AnchorsAreTrue(scripts, jobs, log) && AnchorsAreDistinct(jobs) &&
    AllAnchored(jobs, |log| - 1) &&
    (Orphaned(jobs, log) ==>
      last in jobs && jobs[last] == AggregatedNotAnchored(Pass, ToHex(log[|log| - 1]))) &&
    (forall j :: j in jobs && jobs[j].AggregatedNotAnchored? && jobs[j].outcome.Pass? ==> j == last)
  }

  /** After complete jobs nothing is orphaned and no `Pass` is pending. */
  ghost predicate Clean(scripts: seq<JobScript>, jobs: Jobs, log: seq<Hash>, n: nat) {
    (forall j :: j in jobs <==> 1 <= j <= n) &&
    AnchorsAreTrue(scripts, jobs, log) && AnchorsAreDistinct(jobs) &&
    AllAnchored(jobs, |log|) &&
    (forall j :: j in jobs && jobs[j].AnchoredAt? ==> jobs[j].position < |log|) &&
    (forall j :: j in jobs && jobs[j].AggregatedNotAnchored? ==> !jobs[j].outcome.Pass?)
  }

  lemma FinishedAnchorsAreTrue(scripts: seq<JobScript>, n: nat)
    requires Numbered(scripts) && n <= |scripts| <= U64_MAX
    ensures AnchorsAreTrue(scripts, JobsOf(scripts[..n]), LogOf(scripts[..n]))
  {
    var done := scripts[..n];
    var jobs, log := JobsOf(done), LogOf(done);
    hide JobsOf, LogOf;
    forall j | j in jobs && jobs[j].AnchoredAt?
      ensures 1 <= j <= n && Anchoring(scripts[j - 1])
      ensures jobs[j].position < |log| && log[jobs[j].position] == scripts[j - 1].artifact
    {
      JobsAreNumbered(done, j);
      ArtifactAtPosition(done, j - 1);
    }
  }

  lemma FinishedAnchorsAreDistinct(done: seq<JobScript>)
    requires Numbered(done)
    ensures AnchorsAreDistinct(JobsOf(done))
  {
    var jobs := JobsOf(done);
    hide JobsOf, LogOf;
    forall i, j | i in jobs && j in jobs && i < j && jobs[i].AnchoredAt? && jobs[j].AnchoredAt?
      ensures jobs[i].position != jobs[j].position
    {
      JobsAreNumbered(done, i);
      JobsAreNumbered(done, j);
      PositionsDiffer(done, i - 1, j - 1);
    }
  }

  lemma FinishedLogIsAnchored(done: seq<JobScript>)
    requires Numbered(done) && |done| <= U64_MAX
    ensures AllAnchored(JobsOf(done), |LogOf(done)|)
  {
    var jobs, log := JobsOf(done), LogOf(done);
    hide JobsOf, LogOf;
    forall p | 0 <= p < |log| ensures IsAnchored(jobs, p) {
      var i := PositionIsJobs(done, p);
      JobsAreNumbered(done, i + 1);
      assert jobs[i + 1] == AnchoredAt(p);
    }
  }

  lemma FinishedIsClean(scripts: seq<JobScript>, n: nat)
    requires Numbered(scripts) && n <= |scripts| <= U64_MAX
    ensures Clean(scripts, JobsOf(scripts[..n]), LogOf(scripts[..n]), n)
  {
    var done := scripts[..n];
    var jobs := JobsOf(done);
    FinishedAnchorsAreTrue(scripts, n);
    FinishedAnchorsAreDistinct(done);
    FinishedLogIsAnchored(done);
    hide JobsOf, LogOf, ToHex;
    forall j: JobId ensures j in jobs <==> 1 <= j <= n {
      JobsAreNumbered(done, j);
    }
    forall j | j in jobs && jobs[j].AggregatedNotAnchored? ensures !jobs[j].outcome.Pass? {
      JobsAreNumbered(done, j);
    }
  }

  /** Wherever a coordinator process dies, it leaves a recoverable disk. */
  lemma CrashIsRecoverable(scripts: seq<JobScript>, k: nat)
    requires Numbered(scripts) && |scripts| <= U64_MAX && k <= |WritesOfRun(scripts)|
    ensures Recoverable(scripts, DiskOf(WritesOfRun(scripts)[..k]))
  {
    var n, m := FindCut(scripts, k);
    DiskAtCut(scripts, k, n, m);
    FinishedIsClean(scripts, n);
    var jobs, log := JobsOf(scripts[..n]), LogOf(scripts[..n]);
    hide JobsOf, LogOf, WritesOf, WritesOfRun, Clean, RecoverableUpTo, DiskOf, Reconstruct;
    if n == |scripts| || m == 0 {
      CleanIsRecoverable(scripts, jobs, log, n);
    } else {
      TornIsRecoverable(scripts, jobs, log, n, m);
    }
  }

  lemma CleanIsRecoverable(scripts: seq<JobScript>, jobs: Jobs, log: seq<Hash>, n: nat)
    requires Clean(scripts, jobs, log, n)
    ensures RecoverableUpTo(scripts, jobs, log, n)
  {
  }

  lemma TornIsRecoverable(scripts: seq<JobScript>, jobs: Jobs, log: seq<Hash>, n: nat, m: nat)
    requires n < |scripts| <= U64_MAX && Numbered(scripts) && Clean(scripts, jobs, log, n)
    requires 0 < m <= |WritesOf(scripts[n], |log|)|
    ensures RecoverableUpTo(scripts, jobs[scripts[n].job := StateAfter(scripts[n], m, |log|)],
                            LogWith(log, scripts[n], m), n + 1)
  {
    var s := scripts[n];
    WriteAt(s, |log|, m - 1);
    hide WritesOf, ToHex, Clean, RecoverableUpTo;
    if !Appended(s, m) {
      NotYetAppended(scripts, jobs, log, n, StateAfter(s, m, |log|));
    } else if m == 4 + |s.responders| {
      AppendedOnly(scripts, jobs, log, n);
    } else {
      AppendedAndAnchored(scripts, jobs, log, n);
    }
  }

  lemma NotYetAppended(scripts: seq<JobScript>, jobs: Jobs, log: seq<Hash>, n: nat, state: JobState)
    requires n < U64_MAX && Clean(scripts, jobs, log, n) && !state.AnchoredAt?
    ensures RecoverableUpTo(scripts, jobs[n + 1 := state], log, n + 1)
  {
    StillAnchored(scripts, jobs, log, n, state);
  }

  lemma AppendedOnly(scripts: seq<JobScript>, jobs: Jobs, log: seq<Hash>, n: nat)
    requires n < |scripts| <= U64_MAX && Clean(scripts, jobs, log, n) && Anchoring(scripts[n])
    ensures var s := scripts[n];
            RecoverableUpTo(scripts, jobs[n + 1 := AggregatedNotAnchored(Pass, ToHex(s.artifact))],
                            log + [s.artifact], n + 1)
  {
    hide ToHex;
    StillAnchored(scripts, jobs, log, n, AggregatedNotAnchored(Pass, ToHex(scripts[n].artifact)));
  }

  lemma AppendedAndAnchored(scripts: seq<JobScript>, jobs: Jobs, log: seq<Hash>, n: nat)
    requires n < |scripts| <= U64_MAX && Clean(scripts, jobs, log, n) && Anchoring(scripts[n])
    ensures RecoverableUpTo(scripts, jobs[n + 1 := AnchoredAt(|log|)], log + [scripts[n].artifact], n + 1)
  {
    StillAnchored(scripts, jobs, log, n, AnchoredAt(|log|));
    var after: Jobs := jobs[n + 1 := AnchoredAt(|log|)];
    var j: JobId := n + 1;
    assert after[j] == AnchoredAt(|log|);
    assert IsAnchored(after, |log|);
  }

  lemma StillAnchored(scripts: seq<JobScript>, jobs: Jobs, log: seq<Hash>, n: nat, state: JobState)
    requires n < U64_MAX && Clean(scripts, jobs, log, n)
    ensures AllAnchored(jobs[n + 1 := state], |log|)
  {
    var after: Jobs := jobs[n + 1 := state];
    forall p | 0 <= p < |log| ensures IsAnchored(after, p) {
      assert IsAnchored(jobs, p);
      var j :| j in jobs && jobs[j] == AnchoredAt(p);
      assert after[j] == AnchoredAt(p);
    }
  }

  // ---------------------------------------------------------------------
  // Recovery

  /** The crash falls between the log append and the `Anchored` record of a passing job. */
  predicate BetweenTheTwo(scripts: seq<JobScript>, n: nat, m: nat) {
    n < |scripts| && Anchoring(scripts[n]) && m == 4 + |scripts[n].responders|
  }

  /** A crash leaves an orphan exactly when it falls between those two writes. */
  lemma OrphanedIff(scripts: seq<JobScript>, k: nat, n: nat, m: nat)
    requires Numbered(scripts) && |scripts| <= U64_MAX && CutAt(scripts, k, n, m)
    ensures var d := DiskOf(WritesOfRun(scripts)[..k]);
            Orphaned(Reconstruct(d.journal), d.log) <==> BetweenTheTwo(scripts, n, m)
  {
    hide DiskOf, Reconstruct, ToHex, WritesOfRun, AnchorsAreTrue;
    DiskAtCut(scripts, k, n, m);
    FinishedIsClean(scripts, n);
    var jobs, log := JobsOf(scripts[..n]), LogOf(scripts[..n]);
    if n == |scripts| || m == 0 {
      NotOrphaned(jobs, log);
    } else {
      OrphanedPart(scripts, jobs, log, n, m);
    }
  }

  lemma NotOrphaned(jobs: Jobs, log: seq<Hash>)
    requires AllAnchored(jobs, |log|)
    ensures !Orphaned(jobs, log)
  {
  }

  lemma OrphanedPart(scripts: seq<JobScript>, jobs: Jobs, log: seq<Hash>, n: nat, m: nat)
    requires n < |scripts| <= U64_MAX && Numbered(scripts) && Clean(scripts, jobs, log, n)
    requires 0 < m <= |WritesOf(scripts[n], |log|)|
    ensures Orphaned(jobs[scripts[n].job := StateAfter(scripts[n], m, |log|)], LogWith(log, scripts[n], m)) <==>
            BetweenTheTwo(scripts, n, m)
  {
    hide ToHex, AnchorsAreTrue;
    var s := scripts[n];
    var state := StateAfter(s, m, |log|);
    if Appended(s, m) {
      var after := jobs[n + 1 := state];
      assert after[n + 1] == state;
      assert IsAnchored(after, |log|) <==> state == AnchoredAt(|log|);
    } else {
      StillAnchored(scripts, jobs, log, n, state);
    }
  }

  /** The replayed jobs and the log after appending a pending job's artifact and journalling it. */
  function ReAnchored(jobs: Jobs, log: seq<Hash>, job: JobId, artifact: Hash): (Jobs, seq<Hash>) {
    (jobs[job := AnchoredAt(|log|)], log + [artifact])
  }

  /**
   * Re-anchoring the pending `Pass` job leaves every log entry owned by a job exactly when the
   * crash left no orphan; after one, the append is a second copy of an entry nobody owns.
   */
  lemma ReAnchorIsCleanIff(scripts: seq<JobScript>, jobs: Jobs, log: seq<Hash>, last: JobId, artifact: Hash)
    requires RecoverableUpTo(scripts, jobs, log, last)
    requires last in jobs && jobs[last] == AggregatedNotAnchored(Pass, ToHex(artifact))
    ensures var (jobs', log') := ReAnchored(jobs, log, last, artifact);
            AllAnchored(jobs', |log'|) <==> !Orphaned(jobs, log)
    ensures Orphaned(jobs, log) ==> artifact == log[|log| - 1]
  {
    hide ToHex, FromHex, AnchorsAreTrue, AnchorsAreDistinct;
    var after := jobs[last := AnchoredAt(|log|)];
    if Orphaned(jobs, log) {
      FromToHex(artifact);
      FromToHex(log[|log| - 1]);
      assert !IsAnchored(after, |log| - 1);
    } else {
      forall p | 0 <= p < |log| + 1 ensures IsAnchored(after, p) {
        if p == |log| {
          assert after[last] == AnchoredAt(p);
        } else {
          assert IsAnchored(jobs, p);
          var j :| j in jobs && jobs[j] == AnchoredAt(p);
          assert after[j] == AnchoredAt(p);
        }
      }
    }
  }

  /** One passed job, dead after its fourth write: the log holds the artifact and replay does not know. */
  lemma OrphanWitness(artifact: Hash, pipelineHash: Hash)
    ensures var scripts := [Settled(1, [], [], [], Pass, artifact, pipelineHash)];
            var d := DiskOf(WritesOfRun(scripts)[..4]);
            d.log == [artifact] && Orphaned(Reconstruct(d.journal), d.log) &&
            Reconstruct(d.journal) == map[1 := AggregatedNotAnchored(Pass, ToHex(artifact))]
  {
    var s := Settled(1, [], [], [], Pass, artifact, pipelineHash);
    assert |WritesOf(s, 0)| == 5;
    hide WritesOf, WritesOfRun, DiskOf, ToHex, Reconstruct;
    OneJobCut(s);
    DiskAtCut([s], 4, 0, 4);
    assert [s][..0] == [] && [] + [artifact] == [artifact];
  }

  /** Re-anchoring it puts the artifact in the log twice, the first copy owned by nobody. */
  lemma ReAnchoredTwice(artifact: Hash)
    ensures var jobs := map[1 := AggregatedNotAnchored(Pass, ToHex(artifact))];
            var (jobs', log') := ReAnchored(jobs, [artifact], 1, artifact);
            log' == [artifact, artifact] && !IsAnchored(jobs', 0)
  {
    hide ToHex;
  }

  lemma OneJobCut(s: JobScript)
    requires |WritesOf(s, 0)| >= 4
    ensures CutAt([s], 4, 0, 4)
  {
    hide WritesOf;
    var ws := WritesOf(s, 0);
    assert [s][..0] == [];
    assert WritesOfRun([s]) == [] + ws == ws;
    assert [] + ws[..4] == ws[..4];
  }

  /**
   * After complete jobs the three recovery sets are exactly: the jobs given up before they settled,
   * the settled ones that had nothing to anchor, and the passed ones.
   */
  lemma PendingAfterCleanStop(scripts: seq<JobScript>, j: JobId)
    requires Numbered(scripts)
    ensures j in PendingReRun(JobsOf(scripts)) <==> 1 <= j <= |scripts| && !scripts[j - 1].Settled?
    ensures j in PendingReAnchor(JobsOf(scripts)) <==>
            1 <= j <= |scripts| && scripts[j - 1].Settled? && !scripts[j - 1].outcome.Pass?
    ensures j in AnchoredJobs(JobsOf(scripts)) <==>
            1 <= j <= |scripts| && scripts[j - 1].Settled? && scripts[j - 1].outcome.Pass?
  {
    JobsAreNumbered(scripts, j);
  }

  // ---------------------------------------------------------------------
  // Evidence

  function RecordOf(s: JobScript, position: nat): JobRecord
    requires s.Settled?
  {
    JobRecord(s.job, s.pipelineHash, s.attestations, s.artifact, position, position + 1)
  }

  /** The retrieval records after the given jobs. */
  function RecordsOf(scripts: seq<JobScript>): map<JobId, JobRecord> {
    if scripts == [] then map[]
    else
      var front, s := scripts[..|scripts| - 1], scripts[|scripts| - 1];
      if Anchoring(s) then RecordsOf(front)[s.job := RecordOf(s, |LogOf(front)|)] else RecordsOf(front)
  }

  lemma {:induction false} RecordsAreNumbered(scripts: seq<JobScript>, j: JobId)
    requires Numbered(scripts)
    ensures j in RecordsOf(scripts) <==> 1 <= j <= |scripts| && Anchoring(scripts[j - 1])
    ensures j in RecordsOf(scripts) ==>
            RecordsOf(scripts)[j] == RecordOf(scripts[j - 1], |LogOf(scripts[..j - 1])|)
  {
    if scripts == [] {
    } else {
      var n := |scripts| - 1;
      RecordsAreNumbered(scripts[..n], j);
      if 1 <= j <= n {
        assert scripts[..n][..j - 1] == scripts[..j - 1];
      }
    }
  }

  /**
   * The evidence for a recorded job is frozen: any later jobs leave its bundle exactly as it was,
   * and the bundle proves the consensus artifact as the last entry of the log it was anchored to.
   */
  lemma EvidenceIsFrozen(tree: Tree, scripts: seq<JobScript>, more: seq<JobScript>, j: JobId)
    requires Numbered(scripts + more) && j in RecordsOf(scripts)
    ensures var bundle := BuildBundle(tree, RecordsOf(scripts), LogOf(scripts), j);
            bundle.Some? && 1 <= j <= |scripts| && Anchoring(scripts[j - 1]) &&
            bundle.value.proof.entry == scripts[j - 1].artifact &&
            bundle.value.proof.position == bundle.value.proof.length - 1 &&
            bundle.value.record.jobId == j && bundle.value.record.pipelineHash == scripts[j - 1].pipelineHash &&
            bundle.value.record.attestations == scripts[j - 1].attestations &&
            bundle.value.record.consensus == scripts[j - 1].artifact &&
            BuildBundle(tree, RecordsOf(scripts + more), LogOf(scripts + more), j) == bundle
  {
    hide LogOf, RecordsOf, BuildBundle;
    var all := scripts + more;
    assert Numbered(scripts) by {
      assert forall i :: 0 <= i < |scripts| ==> scripts[i] == all[i];
    }
    RecordsAreNumbered(scripts, j);
    RecordsAreNumbered(all, j);
    assert all[..j - 1] == scripts[..j - 1] && all[..|scripts|] == scripts;
    ArtifactAtPosition(scripts, j - 1);
    LogGrows(all, |scripts|);
    var log, later := LogOf(scripts), LogOf(all);
    assert later == log + later[|log|..];
    BundleIsFrozen(tree, RecordsOf(scripts), log, RecordsOf(all), later[|log|..], j);
  }

  /** A job is recorded with the length at which it left the log. */
  lemma RecordedLength(scripts: seq<JobScript>, j: JobId)
    requires Numbered(scripts) && j in RecordsOf(scripts)
    ensures 1 <= j <= |scripts|
    ensures var length := RecordsOf(scripts)[j].lengthAtAnchor;
            length <= |LogOf(scripts)| && LogOf(scripts)[..length] == LogOf(scripts[..j])
  {
    hide RecordsOf;
    RecordsAreNumbered(scripts, j);
    assert scripts[..j][..j - 1] == scripts[..j - 1];
    assert |LogOf(scripts[..j])| == |LogOf(scripts[..j - 1])| + 1;
    LogGrows(scripts, j);
    hide LogOf;
  }

  /**
   * After any jobs the bundle of every recorded job carries the root of the log as the job left it,
   * and any checker that accepts the tree's paths accepts the bundle against that root.
   */
  lemma EvidenceChecks(
    check: (InclusionProof, Hash) -> bool, tree: Tree, scripts: seq<JobScript>, more: seq<JobScript>, j: JobId)
    requires Accepting(check, tree) && Numbered(scripts + more) && j in RecordsOf(scripts)
    ensures var bundle := BuildBundle(tree, RecordsOf(scripts + more), LogOf(scripts + more), j);
            bundle.Some? && 1 <= j <= |scripts| &&
            bundle.value.root == tree.root(LogOf(scripts[..j])) && check(bundle.value.proof, bundle.value.root)
  {
    hide RecordsOf, LogOf, BuildBundle, Accepting, Anchoring, Numbered;
    var all := scripts + more;
    EvidenceIsFrozen(tree, scripts, more, j);
    BundleIff(tree, RecordsOf(all), LogOf(all), j);
    BundleChecks(check, tree, RecordsOf(all), LogOf(all), j);
    RecordedLength(all, j);
    assert all[..j] == scripts[..j];
  }
}
