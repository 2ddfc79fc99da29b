/** Verifiable bundles for recorded jobs (crates/cosaci-core/src/retrieval.rs). */
module Retrieval {
  import opened Machine
  import opened MerkleLog
  import opened Attestation

  type JobId = u64

  datatype JobRecord = JobRecord(
    jobId: JobId,
    pipelineHash: Hash,
    attestations: seq<Attestation>,
    consensus: Hash,
    position: nat,
    lengthAtAnchor: nat)

  datatype JobBundle = JobBundle(record: JobRecord, proof: InclusionProof, root: Hash)

  function BuildBundle(tree: Tree, records: map<JobId, JobRecord>, log: seq<Hash>, job: JobId): Option<JobBundle> {
    if job !in records then None
    else
      var r := records[job];
      var proof := ProofAt(tree, log, r.position, r.lengthAtAnchor);
      var root := RootAt(tree, log, r.lengthAtAnchor);
      if proof.None? || root.None? then None else Some(JobBundle(r, proof.value, root.value))
  }

  /** There is a bundle exactly for records whose position and length the log has reached, with the root there. */
  lemma BundleIff(tree: Tree, records: map<JobId, JobRecord>, log: seq<Hash>, job: JobId)
    ensures var bundle := BuildBundle(tree, records, log, job);
            (bundle.Some? <==>
              job in records && records[job].position < records[job].lengthAtAnchor <= |log|) &&
            (bundle.Some? ==>
              bundle.value.record == records[job] &&
              bundle.value.root == tree.root(log[..records[job].lengthAtAnchor]))
  {
    if job in records {
      RootOfPrefix(tree, log, records[job].position, records[job].lengthAtAnchor);
    }
  }

  /** Every bundle is accepted against its own root, by any checker that accepts the tree's paths. */
  lemma BundleChecks(
    check: (InclusionProof, Hash) -> bool, tree: Tree, records: map<JobId, JobRecord>, log: seq<Hash>, job: JobId)
    requires Accepting(check, tree) && BuildBundle(tree, records, log, job).Some?
    ensures var bundle := BuildBundle(tree, records, log, job).value;
            check(bundle.proof, bundle.root)
  {
    hide Accepting;
    BundleIff(tree, records, log, job);
    ProofChecks(check, tree, log, records[job].position, records[job].lengthAtAnchor);
  }

  /** A record anchored as the coordinator anchors: last entry of the log at that length. */
  ghost predicate Anchors(r: JobRecord, log: seq<Hash>) {
    r.lengthAtAnchor == r.position + 1 <= |log| && log[r.position] == r.consensus
  }

  /** The bundle of an anchored record exists, proves the consensus artifact and never changes. */
  lemma BundleIsFrozen(
    tree: Tree, records: map<JobId, JobRecord>, log: seq<Hash>,
    later: map<JobId, JobRecord>, more: seq<Hash>, job: JobId)
    requires job in records && job in later && later[job] == records[job] && Anchors(records[job], log)
    ensures var bundle := BuildBundle(tree, records, log, job);
            bundle.Some? && bundle.value.record == records[job] &&
            bundle.value.proof.entry == records[job].consensus &&
            bundle.value.proof.position == bundle.value.proof.length - 1 &&
            bundle.value.root == tree.root(log[..records[job].lengthAtAnchor]) &&
            bundle.value.proof.path == tree.path(log[..records[job].lengthAtAnchor], records[job].position) &&
            BuildBundle(tree, later, log + more, job) == bundle
  {
    PrefixIsFrozen(tree, log, more, records[job].position, records[job].lengthAtAnchor);
  }
}
