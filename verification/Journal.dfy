/** The job journal and its replay (crates/cosaci-state/src/journal.rs). */
module Journal {
  import opened Machine
  import opened Quorum

  type JobId = u64

  datatype Entry =
    | JobSubmitted(job: JobId)
    | CommitteeSelected(job: JobId, committee: seq<RunnerId>)
    | AttestationReceived(job: JobId, runner: RunnerId)
    | Aggregated(job: JobId, outcome: Outcome, artifactHex: string)
    | Anchored(job: JobId, position: nat)

  datatype JobState =
    | Submitted
    | InFlight
    | AggregatedNotAnchored(outcome: Outcome, artifactHex: string)
    | AnchoredAt(position: nat)

  type Jobs = map<JobId, JobState>

  function ReplayOne(jobs: Jobs, e: Entry): Jobs {
    match e
    case JobSubmitted(j) => jobs[j := Submitted]
    case CommitteeSelected(j, _) => jobs[j := InFlight]
    case AttestationReceived(j, _) => if j in jobs then jobs else jobs[j := InFlight]
    case Aggregated(j, o, a) => jobs[j := AggregatedNotAnchored(o, a)]
    case Anchored(j, p) => jobs[j := AnchoredAt(p)]
  }

  function Reconstruct(entries: seq<Entry>): Jobs {
    if entries == [] then map[]
    else ReplayOne(Reconstruct(entries[..|entries| - 1]), entries[|entries| - 1])
  }

  method ReconstructState(entries: seq<Entry>) returns (jobs: Jobs)
    ensures jobs == Reconstruct(entries)
  {
    jobs := map[];
    for i := 0 to |entries|
      invariant jobs == Reconstruct(entries[..i])
    {
      assert entries[..i + 1][..i] == entries[..i];
      match entries[i] {
        case JobSubmitted(j) => jobs := jobs[j := Submitted];
        case CommitteeSelected(j, _) => jobs := jobs[j := InFlight];
        case AttestationReceived(j, _) =>
          if j !in jobs {
            jobs := jobs[j := InFlight];
          }
        case Aggregated(j, o, a) => jobs := jobs[j := AggregatedNotAnchored(o, a)];
        case Anchored(j, p) => jobs := jobs[j := AnchoredAt(p)];
      }
    }
    assert entries[..|entries|] == entries;
  }

  function PendingReRun(jobs: Jobs): set<JobId> {
    set j | j in jobs && (jobs[j].Submitted? || jobs[j].InFlight?)
  }

  function PendingReAnchor(jobs: Jobs): set<JobId> {
    set j | j in jobs && jobs[j].AggregatedNotAnchored?
  }

  function AnchoredJobs(jobs: Jobs): set<JobId> {
    set j | j in jobs && jobs[j].AnchoredAt?
  }

  /** Whatever the journal, the three recovery sets partition the jobs it mentions. */
  lemma RecoverySetsPartition(jobs: Jobs)
    ensures PendingReRun(jobs) + PendingReAnchor(jobs) + AnchoredJobs(jobs) == jobs.Keys
    ensures PendingReRun(jobs) !! PendingReAnchor(jobs)
    ensures PendingReRun(jobs) + PendingReAnchor(jobs) !! AnchoredJobs(jobs)
  {
  }

  /** Entry `i` is the last one about the job, attestations aside. */
  predicate Deciding(entries: seq<Entry>, i: nat, j: JobId) {
    i < |entries| && entries[i].job == j && !entries[i].AttestationReceived? &&
    forall k :: i < k < |entries| && entries[k].job == j ==> entries[k].AttestationReceived?
  }

  predicate Attested(entries: seq<Entry>, j: JobId) {
    exists i :: 0 <= i < |entries| && entries[i].job == j && entries[i].AttestationReceived?
  }

  ghost predicate HasDeciding(entries: seq<Entry>, j: JobId) {
    exists i: nat :: Deciding(entries, i, j)
  }

  /** What the journal shows of a job by its deciding entry. */
  predicate Shows(e: Entry, s: JobState) {
    match s
    case Submitted => e.JobSubmitted?
    case InFlight => e.CommitteeSelected?
    case AggregatedNotAnchored(o, a) => e.Aggregated? && e.outcome == o && e.artifactHex == a
    case AnchoredAt(p) => e.Anchored? && e.position == p
  }

  lemma DecidingSnoc(front: seq<Entry>, last: Entry, i: nat, j: JobId)
    ensures Deciding(front + [last], i, j) <==>
            if last.job == j && !last.AttestationReceived? then i == |front| else Deciding(front, i, j)
  {
    var entries := front + [last];
    assert entries[|front|] == last;
    assert forall k :: 0 <= k < |front| ==> entries[k] == front[k];
  }

  lemma HasDecidingSnoc(front: seq<Entry>, last: Entry, j: JobId)
    ensures HasDeciding(front + [last], j) <==>
            HasDeciding(front, j) || (last.job == j && !last.AttestationReceived?)
  {
    hide Deciding;
    if HasDeciding(front, j) {
      var i: nat :| Deciding(front, i, j);
      DecidingSnoc(front, last, i, j);
    }
    if HasDeciding(front + [last], j) {
      var i: nat :| Deciding(front + [last], i, j);
      DecidingSnoc(front, last, i, j);
    }
    DecidingSnoc(front, last, |front|, j);
  }

  /**
   * Replay in terms of the journal alone: a job is known exactly when some entry names it, and
   * attestations alone leave it in flight.
   */
  lemma {:induction false} ReplayKnows(entries: seq<Entry>, j: JobId)
    ensures var jobs := Reconstruct(entries);
            (j in jobs <==> HasDeciding(entries, j) || Attested(entries, j)) &&
            (j in jobs && !HasDeciding(entries, j) ==> jobs[j] == InFlight)
  {
    if entries == [] {
    } else {
      hide HasDeciding, Attested, Reconstruct;
      var n := |entries| - 1;
      var front, last := entries[..n], entries[n];
      assert entries == front + [last];
      ReplayKnows(front, j);
      HasDecidingSnoc(front, last, j);
      AttestedSnoc(front, last, j);
      ReplayStep(entries);
    }
  }

  /** The last entry about a job that is not an attestation decides what replay makes of it. */
  lemma {:induction false} ReplayShows(entries: seq<Entry>, i: nat, j: JobId)
    requires Deciding(entries, i, j)
    ensures j in Reconstruct(entries) && Shows(entries[i], Reconstruct(entries)[j])
  {
    var n := |entries| - 1;
    var front, last := entries[..n], entries[n];
    assert entries == front + [last];
    DecidingSnoc(front, last, i, j);
    ReplayStep(entries);
    hide Deciding, Reconstruct;
    if last.job == j && !last.AttestationReceived? {
    } else {
      ReplayShows(front, i, j);
    }
  }

  lemma ReplayStep(entries: seq<Entry>)
    requires entries != []
    ensures Reconstruct(entries) == ReplayOne(Reconstruct(entries[..|entries| - 1]), entries[|entries| - 1])
  {
  }

  lemma AttestedSnoc(front: seq<Entry>, last: Entry, j: JobId)
    ensures Attested(front + [last], j) <==> Attested(front, j) || (last.job == j && last.AttestationReceived?)
  {
    var entries := front + [last];
    if Attested(front, j) {
      var i :| 0 <= i < |front| && front[i].job == j && front[i].AttestationReceived?;
      assert entries[i] == front[i];
    }
    assert entries[|front|] == last;
  }

  lemma ReplayAppend(entries: seq<Entry>, e: Entry)
    ensures Reconstruct(entries + [e]) == ReplayOne(Reconstruct(entries), e)
  {
    assert (entries + [e])[..|entries|] == entries;
  }
}
