/**
 * `TxHashSetProcessor`: adopting a downloaded TxHashSet snapshot for a
 * header, then fast-forwarding the confirmed chain to the candidate chain.
 *
 * The node's durable state is one immutable `ChainState`. A write batch is a
 * pending copy of it that becomes the state only when committed. Loading the
 * snapshot and validating it are supplied as functions that may fail.
 */
module TxHashSetProcessor {
  import opened Basics
  import opened Hashes
  import opened ChainStore

  /** A block header, reduced to its height and hash; `GetKernelHandler.BlockHeader` is the same header reduced to its kernel count. */
  datatype BlockHeader = BlockHeader(height: U64, hash: Hash)

  /** The cached accounting totals `ValidateTxHashSet` produces for a header. */
  datatype BlockSums = BlockSums(outputSum: Commitment, kernelSum: Commitment)

  /** A loaded TxHashSet, reduced to the output positions it saves to the block DB. */
  datatype TxHashSet = TxHashSet(snapshot: nat, outputPositions: map<Commitment, nat>)

  datatype ChainState = ChainState(
    headers: map<Hash, BlockHeader>,
    candidate: Chain,
    confirmed: Chain,
    blockSums: map<Hash, BlockSums>,
    outputPositions: map<Commitment, nat>,
    txHashSet: Option<TxHashSet>)

  /** Why a sync attempt stopped. */
  datatype Failure = HeaderNotFound | LoadFailed | ValidationFailed | ChainUpdateFailed

  datatype SyncResult = Committed | Failed(reason: Failure)

  /**
   * The confirmed chain after a successful reconciliation for header height
   * `height`: kept up to the common height, then the candidate's hashes.
   */
  function ReconciledChain(candidate: Chain, confirmed: Chain, height: nat): (r: Chain)
    requires height < |candidate| && |confirmed| > 0
    ensures var c := FindCommonIndex(candidate, confirmed);
      && |r| == Max(c, height) + 1
      && r[..c + 1] == confirmed[..c + 1]
      && (forall h :: c < h <= height ==> r[h] == candidate[h])
  {
    var c := FindCommonIndex(candidate, confirmed);
    if c < height then confirmed[..c + 1] + candidate[c + 1..height + 1] else confirmed[..c + 1]
  }

  /**
   * `UpdateConfirmedChain`: refuses when the candidate chain no longer holds
   * the header at its height; otherwise rewinds the confirmed chain to the
   * common height and appends the candidate's hashes one height at a time.
   */
  method UpdateConfirmedChain(candidate: Chain, confirmed: Chain, header: BlockHeader)
    returns (ok: bool, r: Chain)
    requires header.height < |candidate| && |confirmed| > 0
    ensures ok <==> candidate[header.height] == header.hash
    ensures !ok ==> r == confirmed
    ensures ok ==> r == ReconciledChain(candidate, confirmed, header.height)
  {
    if candidate[header.height] != header.hash {
      return false, confirmed;
    }
    var common := FindCommonIndex(candidate, confirmed);
    r := Rewind(confirmed, common);
    var height := common + 1;
    while height <= header.height
      invariant common + 1 <= height <= |candidate|
      invariant height <= header.height + 1 || height == common + 1
      invariant |r| == height
      invariant r == confirmed[..common + 1] + candidate[common + 1..height]
    {
      var next := AddBlock(r, candidate[height], height);
      assert next == r + [candidate[height]];
      assert candidate[common + 1..height + 1] == candidate[common + 1..height] + [candidate[height]];
      r := next;
      height := height + 1;
    }
    ok := true;
  }

  /**
   * `ProcessTxHashSet`: look up the header, close the live set, load and
   * validate the snapshot, then in one batch store the block sums and output
   * positions, install the set and update the confirmed chain, and commit.
   */
  method ProcessTxHashSet(
    s: ChainState,
    blockHash: Hash,
    load: BlockHeader -> Option<TxHashSet>,
    validate: (TxHashSet, BlockHeader) -> Option<BlockSums>)
    returns (result: SyncResult, s': ChainState)
    // Only the chain update (step 7) reads the candidate and confirmed chains.
    requires (blockHash in s.headers
              && load(s.headers[blockHash]).Some?
              && validate(load(s.headers[blockHash]).value, s.headers[blockHash]).Some?) ==>
      s.headers[blockHash].height < |s.candidate| && |s.confirmed| > 0
    ensures result == Failed(HeaderNotFound) <==> blockHash !in s.headers
    ensures blockHash !in s.headers ==> s' == s
    ensures result.Failed? && result.reason != HeaderNotFound ==> s' == s.(txHashSet := None)
    ensures result.Committed? <==>
      && blockHash in s.headers
      && var header := s.headers[blockHash];
      && load(header).Some?
      && validate(load(header).value, header).Some?
      && s.candidate[header.height] == header.hash
    ensures result.Committed? ==>
      var header := s.headers[blockHash];
      var snapshot := load(header).value;
      && s'.headers == s.headers
      && s'.candidate == s.candidate
      && s'.confirmed == ReconciledChain(s.candidate, s.confirmed, header.height)
      && s'.blockSums == s.blockSums[header.hash := validate(snapshot, header).value]
      && s'.outputPositions == s.outputPositions + snapshot.outputPositions
      && s'.txHashSet == Some(snapshot)
  {
    if blockHash !in s.headers {
      return Failed(HeaderNotFound), s;
    }
    var header := s.headers[blockHash];

    // 1. Close the existing TxHashSet; this write is not part of the batch.
    var state := s.(txHashSet := None);

    // 2. Load the snapshot.
    var loaded := load(header);
    if loaded.None? {
      return Failed(LoadFailed), state;
    }
    var snapshot := loaded.value;

    // 3. Validate it.
    var sums := validate(snapshot, header);
    if sums.None? {
      return Failed(ValidationFailed), state;
    }

    // 4.-6. Block sums, output positions and the new set go into the batch.
    var batch := state.(
      blockSums := state.blockSums[header.hash := sums.value],
      outputPositions := state.outputPositions + snapshot.outputPositions,
      txHashSet := Some(snapshot));

    // 7. Update the confirmed chain inside the batch.
    var ok, confirmed := UpdateConfirmedChain(batch.candidate, batch.confirmed, header);
    if !ok {
      // The batch's manager is closed and the batch is dropped uncommitted.
      return Failed(ChainUpdateFailed), state;
    }
    batch := batch.(confirmed := confirmed);

    // Commit publishes the batch.
    return Committed, batch;
  }
}

module TxHashSetReconciliation {
  import opened Basics
  import opened Hashes
  import opened ChainStore
  import opened TxHashSetProcessor

  /**
   * When the two chains agree on every height up to the common one, the
   * reconciled confirmed chain is exactly the candidate chain up to the header.
   */
  lemma ReconciledIsCandidatePrefix(candidate: Chain, confirmed: Chain, height: nat)
    requires height < |candidate| && |confirmed| > 0
    requires var c := FindCommonIndex(candidate, confirmed);
      c < height && candidate[..c + 1] == confirmed[..c + 1]
    ensures ReconciledChain(candidate, confirmed, height) == candidate[..height + 1]
  {
  }

  /**
   * The fork scenario: a confirmed chain of height 10 and a candidate chain
   * of height 12 share heights 0 to 7 and differ at 8 to 10. Syncing to the
   * candidate's tip keeps heights 0 to 7 and adopts the candidate at 8 to 12.
   */
  lemma ForkScenario(candidate: Chain, confirmed: Chain)
    requires |candidate| == 13 && |confirmed| == 11
    requires forall h :: 0 <= h <= 7 ==> candidate[h] == confirmed[h]
    requires forall h :: 8 <= h <= 10 ==> candidate[h] != confirmed[h]
    ensures FindCommonIndex(candidate, confirmed) == 7
    ensures var r := ReconciledChain(candidate, confirmed, 12);
      && |r| == 13
      && (forall h :: 0 <= h <= 7 ==> r[h] == confirmed[h])
      && (forall h :: 8 <= h <= 12 ==> r[h] == candidate[h])
  {
    assert candidate[7] == confirmed[7];
    var r := ReconciledChain(candidate, confirmed, 12);
    assert r[..8] == confirmed[..8];
    forall h | 0 <= h <= 7
      ensures r[h] == confirmed[h]
    {
      assert r[h] == r[..8][h];
    }
  }

  /** Reconciling a second time against the same candidate changes nothing. */
  lemma ReconcileIdempotent(candidate: Chain, confirmed: Chain, height: nat)
    requires height < |candidate| && |confirmed| > 0
    ensures var r := ReconciledChain(candidate, confirmed, height);
      ReconciledChain(candidate, r, height) == r
  {
  }
}
