/**
 * `GetKernelHandler` (`get_kernel`): finds a transaction kernel by its excess
 * commitment, searching confirmed blocks from the highest height down, and
 * reports where it sits in the kernel MMR.
 */
module GetKernelHandler {
  import opened Basics
  import opened Hashes
  import opened JsonUtil
  import opened Rpc

  datatype KernelFeatures = Plain | Coinbase | HeightLocked | NoRecentDuplicate

  datatype TransactionKernel = TransactionKernel(features: KernelFeatures, excess: Commitment, signature: seq<byte>)

  /**
   * A confirmed header, reduced to the total kernel count up to and
   * including its block. It is the same `BlockHeader` that
   * `TxHashSetProcessor.BlockHeader` reduces to its height and hash; each
   * module keeps only the fields it reads.
   */
  datatype BlockHeader = BlockHeader(numKernels: U64)

  datatype FullBlock = FullBlock(kernels: seq<TransactionKernel>)

  /** The located kernel: its block height, `mmr_index` and the kernel itself. */
  datatype LocatedKernel = LocatedKernel(height: U64, mmrIndex: nat, kernel: TransactionKernel)

  /** What the handler reads from the confirmed chain. */
  datatype ChainView = ChainView(
    headerAt: nat -> Option<BlockHeader>,
    blockAt: nat -> Option<FullBlock>,
    /** `LeafIndex::GetPosition`, the MMR position of a leaf index (also a parameter of `GetPMMRIndicesHandler.OutputView`) */
    position: nat -> nat)

  datatype Query = Query(excess: Commitment, minHeight: U64, maxHeight: U64)

  const PARAMS_MESSAGE: string := "Expected 3 parameters: excess, min_height, max_height"
  const EXCESS_REQUIRED: string := "Kernel excess required"
  /** Stands for the text of the exception `ConvertToCommitment` throws. */
  const BAD_COMMITMENT: string := "Invalid commitment"
  const RANGE_MESSAGE: string := "min_height must be <= max_height"

  /**
   * Reads `[excess, min_height, max_height]` against the confirmed tip:
   * `min_height` defaults to 0, `max_height` defaults to the tip and is
   * clamped to it, and an empty range is refused.
   */
  function ParseQuery(params: Json, tip: Option<U64>): (r: Response<Query>)
    ensures !params.Arr? || |params.items| < 3 ==> r == Error(InvalidParams(PARAMS_MESSAGE))
    ensures params.Arr? && |params.items| >= 3 && params.items[0].Null? ==>
      r == Error(InvalidParams(EXCESS_REQUIRED))
    ensures params.Arr? && |params.items| >= 3 && !params.items[0].Null? ==>
      (ToCommitment(params.items[0]).None? <==> r == Error(InvalidParams(BAD_COMMITMENT)))
    ensures r.Ok? ==>
      && params.Arr? && |params.items| >= 3
      && ToCommitment(params.items[0]) == Some(r.value.excess)
      && tip.Some?
      && r.value.minHeight <= r.value.maxHeight <= tip.value
      && (params.items[1].Null? ==> r.value.minHeight == 0)
      && (!params.items[1].Null? ==> ToUInt64(params.items[1]) == Some(r.value.minHeight))
      && (params.items[2].Null? ==> r.value.maxHeight == tip.value)
      && (!params.items[2].Null? ==>
            ToUInt64(params.items[2]).Some? && r.value.maxHeight == Min(ToUInt64(params.items[2]).value, tip.value))
    ensures (params.Arr? && |params.items| >= 3 && ToCommitment(params.items[0]).Some?
      && !params.items[1].Null? && ToUInt64(params.items[1]).None?) ==>
      r == Error(ConversionFailed)
    ensures (params.Arr? && |params.items| >= 3 && ToCommitment(params.items[0]).Some? && tip.Some?
      && (!params.items[1].Null? ==> ToUInt64(params.items[1]).Some?)
      && !params.items[2].Null? && ToUInt64(params.items[2]).None?) ==>
      r == Error(ConversionFailed)
    ensures (params.Arr? && |params.items| >= 3 && ToCommitment(params.items[0]).Some?
      && (!params.items[1].Null? ==> ToUInt64(params.items[1]).Some?) && tip.None?) ==>
      r == Error(InternalError(NO_TIP))
    ensures (params.Arr? && |params.items| >= 3 && ToCommitment(params.items[0]).Some? && tip.Some?
      && (!params.items[1].Null? ==> ToUInt64(params.items[1]).Some?)
      && (!params.items[2].Null? ==> ToUInt64(params.items[2]).Some?)) ==>
      var min := if params.items[1].Null? then 0 else ToUInt64(params.items[1]).value;
      var max := if params.items[2].Null? then tip.value else Min(ToUInt64(params.items[2]).value, tip.value);
      (r.Ok? <==> min <= max) && (min > max ==> r == Error(InvalidParams(RANGE_MESSAGE)))
  {
    if !params.Arr? || |params.items| < 3 then Error(InvalidParams(PARAMS_MESSAGE))
    else if params.items[0].Null? then Error(InvalidParams(EXCESS_REQUIRED))
    else
      var items := params.items;
      match ToCommitment(items[0])
      case None => Error(InvalidParams(BAD_COMMITMENT))
      case Some(excess) =>
        var minHeight :- if items[1].Null? then Ok(0) else FromConversion(ToUInt64(items[1]));
        if tip.None? then Error(InternalError(NO_TIP))
        else
          var requested :- if items[2].Null? then Ok(tip.value) else FromConversion(ToUInt64(items[2]));
          var maxHeight := if requested > tip.value then tip.value else requested;
          if minHeight > maxHeight then Error(InvalidParams(RANGE_MESSAGE))
          else Ok(Query(excess, minHeight, maxHeight))
  }

  /** Some kernel of `kernels` has the excess. */
  predicate Contains(kernels: seq<TransactionKernel>, excess: Commitment)
  {
    exists i :: 0 <= i < |kernels| && kernels[i].excess == excess
  }

  /** Height `h` has both a confirmed header and a block, and the block holds the excess. */
  predicate MatchesAt(chain: ChainView, excess: Commitment, h: nat)
  {
    chain.headerAt(h).Some? && chain.blockAt(h).Some? && Contains(chain.blockAt(h).value.kernels, excess)
  }

  /**
   * Leaf index of the block's `idx`-th kernel: the kernels before this block
   * (the header total minus the block's own, saturating at zero) plus `idx`.
   */
  function KernelLeafIndex(header: BlockHeader, block: FullBlock, idx: nat): (leaf: nat)
    requires idx < |block.kernels|
    ensures header.numKernels >= |block.kernels| ==> leaf == header.numKernels - |block.kernels| + idx
    ensures header.numKernels < |block.kernels| ==> leaf == idx
    ensures leaf < Max(header.numKernels, |block.kernels|)
  {
    SaturatingSub(header.numKernels, |block.kernels|) + idx
  }

  /** The inner loop: index of the first kernel with the excess, if any. */
  method FirstMatch(kernels: seq<TransactionKernel>, excess: Commitment) returns (r: Option<nat>)
    ensures r.None? <==> !Contains(kernels, excess)
    ensures r.Some? ==> r.value < |kernels| && kernels[r.value].excess == excess
    ensures r.Some? ==> forall j :: 0 <= j < r.value ==> kernels[j].excess != excess
  {
    var i := 0;
    while i < |kernels|
      invariant 0 <= i <= |kernels|
      invariant forall j :: 0 <= j < i ==> kernels[j].excess != excess
    {
      if kernels[i].excess == excess {
        return Some(i);
      }
      i := i + 1;
    }
    return None;
  }

  /**
   * `loc` is the reply the search owes for `q`: the first kernel with the
   * excess in the highest block of [minHeight, maxHeight] that holds one,
   * with `mmr_index` = position of that kernel's leaf index + 1.
   */
  predicate IsAnswer(chain: ChainView, q: Query, loc: LocatedKernel)
  {
    && q.minHeight <= loc.height <= q.maxHeight
    && MatchesAt(chain, q.excess, loc.height)
    && (forall h :: loc.height < h <= q.maxHeight ==> !MatchesAt(chain, q.excess, h))
    && var kernels := chain.blockAt(loc.height).value.kernels;
       exists idx :: 0 <= idx < |kernels|
         && kernels[idx] == loc.kernel
         && loc.kernel.excess == q.excess
         && (forall j :: 0 <= j < idx ==> kernels[j].excess != q.excess)
         && loc.mmrIndex == chain.position(
              KernelLeafIndex(chain.headerAt(loc.height).value, chain.blockAt(loc.height).value, idx)) + 1
  }

  /**
   * The backward search: heights `maxHeight` down to `minHeight`, both
   * included; none exactly when no height in range matches, otherwise the
   * answer `IsAnswer` describes.
   */
  method Search(chain: ChainView, q: Query) returns (r: Option<LocatedKernel>)
    requires q.minHeight <= q.maxHeight
    ensures r.None? <==> forall h :: q.minHeight <= h <= q.maxHeight ==> !MatchesAt(chain, q.excess, h)
    ensures r.Some? ==> IsAnswer(chain, q, r.value)
  {
    var height: U64 := q.maxHeight;
    while true
      invariant q.minHeight <= height <= q.maxHeight
      invariant forall h :: height < h <= q.maxHeight ==> !MatchesAt(chain, q.excess, h)
      decreases height
    {
      var header := chain.headerAt(height);
      if header.Some? {
        var block := chain.blockAt(height);
        if block.Some? {
          var idx := FirstMatch(block.value.kernels, q.excess);
          if idx.Some? {
            var leaf := KernelLeafIndex(header.value, block.value, idx.value);
            assert MatchesAt(chain, q.excess, height);
            return Some(LocatedKernel(height, chain.position(leaf) + 1, block.value.kernels[idx.value]));
          }
        }
      }
      if height == q.minHeight {
        break;
      }
      height := height - 1;
    }
    return None;
  }

  /** `GetKernelHandler::Handle`; `Ok(None)` is the `"Ok": null` reply. */
  method Handle(params: Option<Json>, chainAvailable: bool, tip: Option<U64>, chain: ChainView)
    returns (r: Response<Option<LocatedKernel>>)
    ensures params.None? ==> r == Error(ParamsMissing)
    ensures params.Some? && !chainAvailable ==> r == Error(InternalError(CHAIN_UNAVAILABLE))
    ensures params.Some? && chainAvailable && ParseQuery(params.value, tip).Error? ==>
      r == Error(ParseQuery(params.value, tip).error)
    ensures params.Some? && chainAvailable && ParseQuery(params.value, tip).Ok? ==>
      var q := ParseQuery(params.value, tip).value;
      && r.Ok?
      && (r.value.None? <==> forall h :: q.minHeight <= h <= q.maxHeight ==> !MatchesAt(chain, q.excess, h))
      && (r.value.Some? ==> IsAnswer(chain, q, r.value.value))
  {
    if params.None? {
      return Error(ParamsMissing);
    }
    if !chainAvailable {
      return Error(InternalError(CHAIN_UNAVAILABLE));
    }
    var q :- ParseQuery(params.value, tip);
    var found := Search(chain, q);
    return Ok(found);
  }
}
