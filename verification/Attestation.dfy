/** The parts of a signed attestation the coordinator acts on (crates/cosaci-core/src/attestation.rs). */
module Attestation {
  import opened Quorum
  import opened MerkleLog

  datatype Attestation = Attestation(runner: RunnerId, result: VoteResult, artifact: Hash)
}
