/**
 * `GetPMMRIndicesHandler` (`get_pmmr_indices`): a page of the output set by
 * leaf index. The range query `GetOutputsByLeafIndex`, the leaf-to-position
 * mapping and the range-proof hash are supplied as functions.
 */
module GetPMMRIndicesHandler {
  import opened Basics
  import opened Hashes
  import opened JsonUtil
  import opened Rpc

  const DEFAULT_START_INDEX: U64 := 1
  const DEFAULT_MAX: U64 := 100
  /** The largest page the handler asks the TxHashSet for. */
  const MAX_OUTPUTS: U64 := 1000

  const NO_TXHASHSET: string := "TxHashSet not available"
  const PARAMS_MESSAGE: string := "Expected params array"

  datatype OutputFeatures = DefaultOutput | CoinbaseOutput

  datatype OutputDTO = OutputDTO(
    features: OutputFeatures,
    commitment: Commitment,
    spent: bool,
    rangeProof: seq<byte>,
    blockHeight: U64,
    leafIndex: nat)

  /** What `GetOutputsByLeafIndex` answers. */
  datatype OutputRange = OutputRange(outputs: seq<OutputDTO>, highestIndex: U64, lastRetrievedIndex: U64)

  /** One entry of `outputs`; its `merkle_proof` is always null and so is not carried. */
  datatype OutputEntry = OutputEntry(
    outputType: OutputFeatures,
    commit: Commitment,
    spent: bool,
    proof: seq<byte>,
    proofHash: Hash,
    blockHeight: U64,
    mmrIndex: nat)

  datatype OutputListing = OutputListing(highestIndex: U64, lastRetrievedIndex: U64, outputs: seq<OutputEntry>)

  /** What the handler reads from the live TxHashSet. */
  datatype OutputView = OutputView(
    /** `GetOutputsByLeafIndex(startIndex, max)` */
    outputsByLeafIndex: (U64, U64) -> OutputRange,
    /** `LeafIndex::GetPosition`, the same function as `GetKernelHandler.ChainView.position` */
    position: nat -> nat,
    /** Blake2b of the serialized range proof */
    proofHash: seq<byte> -> Hash)

  datatype RangeArgs = RangeArgs(startIndex: U64, max: U64)

  /**
   * Reads the optional `[start_index, max]`: the start defaults to 1, `max`
   * defaults to 100 and is capped at 1000; params that are present but not
   * an array (a JSON `null` included) are refused.
   */
  function ParseRangeArgs(params: Option<Json>): (r: Response<RangeArgs>)
    ensures params.None? ==> r == Ok(RangeArgs(DEFAULT_START_INDEX, DEFAULT_MAX))
    ensures params.Some? && !params.value.Arr? ==> r == Error(InvalidParams(PARAMS_MESSAGE))
    ensures r.Ok? ==> r.value.max <= MAX_OUTPUTS
    ensures r.Ok? && params.Some? && params.value.Arr? ==>
      var items := params.value.items;
      && (!Given(items, 0) ==> r.value.startIndex == DEFAULT_START_INDEX)
      && (Given(items, 0) ==> ToUInt64(items[0]) == Some(r.value.startIndex))
      && (!Given(items, 1) ==> r.value.max == DEFAULT_MAX)
      && (Given(items, 1) ==> ToUInt64(items[1]).Some? && r.value.max == Min(ToUInt64(items[1]).value, MAX_OUTPUTS))
    ensures params.Some? && params.value.Arr? ==>
      var items := params.value.items;
      (r.Ok? <==> (Given(items, 0) ==> ToUInt64(items[0]).Some?) && (Given(items, 1) ==> ToUInt64(items[1]).Some?))
  {
    var requested :- if params.None? then
        Ok(RangeArgs(DEFAULT_START_INDEX, DEFAULT_MAX))
      else if !params.value.Arr? then
        Error(InvalidParams(PARAMS_MESSAGE))
      else
        var items := params.value.items;
        var start :- if Given(items, 0) then FromConversion(ToUInt64(items[0])) else Ok(DEFAULT_START_INDEX);
        var max :- if Given(items, 1) then FromConversion(ToUInt64(items[1])) else Ok(DEFAULT_MAX);
        Ok(RangeArgs(start, max));
    Ok(requested.(max := if requested.max > MAX_OUTPUTS then MAX_OUTPUTS else requested.max))
  }

  /** The reply entry for one output: `mmr_index` is its leaf's position plus one. */
  function ToEntry(view: OutputView, info: OutputDTO): (e: OutputEntry)
    ensures e.mmrIndex == view.position(info.leafIndex) + 1
    ensures e.commit == info.commitment && e.spent == info.spent && e.blockHeight == info.blockHeight
    ensures e.outputType == info.features && e.proof == info.rangeProof
    ensures e.proofHash == view.proofHash(info.rangeProof)
  {
    OutputEntry(info.features, info.commitment, info.spent, info.rangeProof,
      view.proofHash(info.rangeProof), info.blockHeight, view.position(info.leafIndex) + 1)
  }

  /** `GetPMMRIndicesHandler::Handle`; `live` is false when the TxHashSet has been released. */
  function Handle(live: bool, params: Option<Json>, view: OutputView): (r: Response<OutputListing>)
    ensures !live ==> r == Error(InternalError(NO_TXHASHSET))
    ensures live && ParseRangeArgs(params).Error? ==> r == Error(ParseRangeArgs(params).error)
    ensures live && ParseRangeArgs(params).Ok? ==>
      var args := ParseRangeArgs(params).value;
      var range := view.outputsByLeafIndex(args.startIndex, args.max);
      && args.max <= MAX_OUTPUTS
      && r.Ok?
      && r.value.highestIndex == range.highestIndex
      && r.value.lastRetrievedIndex == range.lastRetrievedIndex
      && |r.value.outputs| == |range.outputs|
      && forall i :: 0 <= i < |range.outputs| ==> r.value.outputs[i] == ToEntry(view, range.outputs[i])
  {
    if !live then Error(InternalError(NO_TXHASHSET))
    else
      var args :- ParseRangeArgs(params);
      var range := view.outputsByLeafIndex(args.startIndex, args.max);
      var entries := seq(|range.outputs|, i requires 0 <= i < |range.outputs| => ToEntry(view, range.outputs[i]));
      Ok(OutputListing(range.highestIndex, range.lastRetrievedIndex, entries))
  }
}
