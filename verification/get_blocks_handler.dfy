/**
 * `GetBlocksHandler` (`get_blocks`): a page of full blocks of the confirmed
 * chain between two heights. Block storage is a function from height to the
 * block's JSON (`FullBlock::ToJSON`), `None` where no block is stored.
 */
module GetBlocksHandler {
  import opened Basics
  import opened JsonUtil
  import opened Rpc

  type BlockStore = nat -> Option<Json>

  const DEFAULT_MAX_BLOCKS: U64 := 100
  const PARAMS_MESSAGE: string := "Expected parameters: start_height, end_height, max, include_proof"

  datatype Query = Query(startHeight: U64, endHeight: U64, maxBlocks: U64, includeProof: bool)

  datatype BlockListing = BlockListing(lastRetrievedHeight: nat, blocks: seq<Json>)

  /**
   * Reads `[start_height, end_height?, max?, include_proof?]`: the end
   * defaults to the start and is raised to it, `max` defaults to 100 and 0
   * means 1, `include_proof` defaults to true.
   */
  function ParseQuery(params: Json): (r: Response<Query>)
    ensures !params.Arr? || |params.items| < 1 || params.items[0].Null? ==>
      r == Error(InvalidParams(PARAMS_MESSAGE))
    ensures r.Error? && params.Arr? && Given(params.items, 0) ==> r == Error(ConversionFailed)
    ensures r.Ok? ==>
      params.Arr? && Given(params.items, 0) && ToUInt64(params.items[0]) == Some(r.value.startHeight)
    ensures r.Ok? ==> 1 <= r.value.maxBlocks && r.value.startHeight <= r.value.endHeight
    ensures r.Ok? && !Given(params.items, 1) ==> r.value.endHeight == r.value.startHeight
    ensures r.Ok? && Given(params.items, 1) ==>
      && ToUInt64(params.items[1]).Some?
      && r.value.endHeight == Max(ToUInt64(params.items[1]).value, r.value.startHeight)
    ensures r.Ok? && !Given(params.items, 2) ==> r.value.maxBlocks == DEFAULT_MAX_BLOCKS
    ensures r.Ok? && Given(params.items, 2) ==>
      && ToUInt64(params.items[2]).Some?
      && r.value.maxBlocks == Max(ToUInt64(params.items[2]).value, 1)
    ensures r.Ok? && !Given(params.items, 3) ==> r.value.includeProof
    ensures r.Ok? && Given(params.items, 3) ==> Some(r.value.includeProof) == AsBool(params.items[3])
    ensures params.Arr? && Given(params.items, 0) ==>
      (r.Ok? <==>
        && ToUInt64(params.items[0]).Some?
        && (Given(params.items, 1) ==> ToUInt64(params.items[1]).Some?)
        && (Given(params.items, 2) ==> ToUInt64(params.items[2]).Some?)
        && (Given(params.items, 3) ==> AsBool(params.items[3]).Some?))
  {
    if !params.Arr? || |params.items| < 1 || params.items[0].Null? then
      Error(InvalidParams(PARAMS_MESSAGE))
    else
      var items := params.items;
      var start :- FromConversion(ToUInt64(items[0]));
      var end :- if Given(items, 1) then FromConversion(ToUInt64(items[1])) else Ok(start);
      var requested :- if Given(items, 2) then FromConversion(ToUInt64(items[2])) else Ok(DEFAULT_MAX_BLOCKS);
      var includeProof :- if Given(items, 3) then FromConversion(AsBool(items[3])) else Ok(true);
      Ok(Query(start, if end < start then start else end, if requested == 0 then 1 else requested, includeProof))
  }

  /** The block as returned: without `include_proof`, each output loses its `proof` member. */
  function BlockView(block: Json, includeProof: bool): (r: Json)
    ensures includeProof ==> r == block
    ensures !includeProof && block.Obj? && "outputs" in block.members && block.members["outputs"].Arr? ==>
      var outputs := block.members["outputs"].items;
      && r.Obj? && r.members.Keys == block.members.Keys
      && (forall k :: k in r.members && k != "outputs" ==> r.members[k] == block.members[k])
      && r.members["outputs"].Arr? && |r.members["outputs"].items| == |outputs|
      && forall i :: 0 <= i < |outputs| ==> r.members["outputs"].items[i] == RemoveMember(outputs[i], "proof")
    ensures !(block.Obj? && "outputs" in block.members && block.members["outputs"].Arr?) ==> r == block
  {
    if !includeProof && block.Obj? && "outputs" in block.members && block.members["outputs"].Arr? then
      var outputs := block.members["outputs"].items;
      var stripped := seq(|outputs|, i requires 0 <= i < |outputs| => RemoveMember(outputs[i], "proof"));
      Obj(block.members["outputs" := Arr(stripped)])
    else
      block
  }

  /** The heights in `[lo, hi)` that hold a block, in increasing order. */
  function StoredHeights(store: BlockStore, lo: nat, hi: nat): (hs: seq<nat>)
    decreases hi
  {
    if hi <= lo then []
    else StoredHeights(store, lo, hi - 1) + (if store(hi - 1).Some? then [hi - 1] else [])
  }

  /** Every listed height lies in the range and holds a block. */
  lemma {:induction false} StoredHeightAt(store: BlockStore, lo: nat, hi: nat, i: nat)
    requires i < |StoredHeights(store, lo, hi)|
    ensures var h := StoredHeights(store, lo, hi)[i]; lo <= h < hi && store(h).Some?
    decreases hi
  {
    var prefix := StoredHeights(store, lo, hi - 1);
    var tail: seq<nat> := if store(hi - 1).Some? then [hi - 1] else [];
    var hs := StoredHeights(store, lo, hi);
    assert hs == prefix + tail;
    if i < |prefix| {
      StoredHeightAt(store, lo, hi - 1, i);
      assert hs[i] == prefix[i];
    } else {
      assert hs[i] == tail[i - |prefix|] == hi - 1;
    }
  }

  /** The listed heights are strictly increasing. */
  lemma {:induction false} StoredHeightsIncreasing(store: BlockStore, lo: nat, hi: nat, i: nat, j: nat)
    requires i < j < |StoredHeights(store, lo, hi)|
    ensures StoredHeights(store, lo, hi)[i] < StoredHeights(store, lo, hi)[j]
    decreases hi
  {
    var prefix := StoredHeights(store, lo, hi - 1);
    var tail: seq<nat> := if store(hi - 1).Some? then [hi - 1] else [];
    var hs := StoredHeights(store, lo, hi);
    assert hs == prefix + tail;
    assert hs[i] == prefix[i];
    if j < |prefix| {
      StoredHeightsIncreasing(store, lo, hi - 1, i, j);
      assert hs[j] == prefix[j];
    } else {
      StoredHeightAt(store, lo, hi - 1, i);
      assert hs[j] == tail[j - |prefix|] == hi - 1;
    }
  }

  /** Every height of the range that holds a block is listed. */
  lemma {:induction false} StoredHeightsComplete(store: BlockStore, lo: nat, hi: nat, h: nat)
    requires lo <= h < hi && store(h).Some?
    ensures h in StoredHeights(store, lo, hi)
    decreases hi
  {
    var prefix := StoredHeights(store, lo, hi - 1);
    var tail: seq<nat> := if store(hi - 1).Some? then [hi - 1] else [];
    var hs := StoredHeights(store, lo, hi);
    assert hs == prefix + tail;
    if h < hi - 1 {
      StoredHeightsComplete(store, lo, hi - 1, h);
      var k :| 0 <= k < |prefix| && prefix[k] == h;
      assert hs[k] == h;
    } else {
      assert hs[|prefix|] == h;
    }
  }

  /** `StoredHeights` lists exactly the stored heights of the range, increasing. */
  lemma {:induction false} StoredHeightsSpec(store: BlockStore, lo: nat, hi: nat)
    ensures var hs := StoredHeights(store, lo, hi);
      && (forall i :: 0 <= i < |hs| ==> lo <= hs[i] < hi && store(hs[i]).Some?)
      && (forall i, j :: 0 <= i < j < |hs| ==> hs[i] < hs[j])
      && (forall h :: lo <= h < hi && store(h).Some? ==> h in hs)
  {
    var hs := StoredHeights(store, lo, hi);
    forall i | 0 <= i < |hs|
      ensures lo <= hs[i] < hi && store(hs[i]).Some?
    {
      StoredHeightAt(store, lo, hi, i);
    }
    forall i, j | 0 <= i < j < |hs|
      ensures hs[i] < hs[j]
    {
      StoredHeightsIncreasing(store, lo, hi, i, j);
    }
    forall h | lo <= h < hi && store(h).Some?
      ensures h in hs
    {
      StoredHeightsComplete(store, lo, hi, h);
    }
  }

  lemma {:induction false} StoredHeightsPrefix(store: BlockStore, lo: nat, a: nat, b: nat)
    requires a <= b
    ensures StoredHeights(store, lo, a) <= StoredHeights(store, lo, b)
    decreases b - a
  {
    if a < b {
      StoredHeightsPrefix(store, lo, a, b - 1);
    }
  }

  /**
   * The heights a page returns: the first `maxBlocks` heights in
   * `[start, end]` that hold a block, in increasing order.
   */
  function PageHeights(store: BlockStore, start: nat, end: nat, maxBlocks: nat): (hs: seq<nat>)
  {
    var stored := StoredHeights(store, start, end + 1);
    stored[..Min(maxBlocks, |stored|)]
  }

  /** `last_retrieved_height`: the last returned height, or the start when nothing was returned. */
  function LastRetrieved(heights: seq<nat>, start: nat): (h: nat)
  {
    if |heights| == 0 then start else heights[|heights| - 1]
  }

  /**
   * A page holds at most `maxBlocks` heights, strictly increasing, all within
   * `[start, end]` and all holding a block; missing blocks are skipped
   * without using up the budget, so every stored height in range up to the
   * last one retrieved (all of them, on a short page) is on the page.
   */
  lemma PageHeightsSpec(store: BlockStore, start: nat, end: nat, maxBlocks: nat)
    requires 1 <= maxBlocks
    ensures var hs := PageHeights(store, start, end, maxBlocks);
      && |hs| <= maxBlocks
      && (forall i, j :: 0 <= i < j < |hs| ==> hs[i] < hs[j])
      && (forall i :: 0 <= i < |hs| ==> start <= hs[i] <= end && store(hs[i]).Some?)
      && (forall h :: start <= h <= end && store(h).Some? && (|hs| < maxBlocks || h <= LastRetrieved(hs, start)) ==> h in hs)
  {
    var stored := StoredHeights(store, start, end + 1);
    StoredHeightsSpec(store, start, end + 1);
    var hs := PageHeights(store, start, end, maxBlocks);
    forall i | 0 <= i < |hs|
      ensures start <= hs[i] <= end && store(hs[i]).Some?
    {
      StoredHeightAt(store, start, end + 1, i);
      assert hs[i] == stored[i];
    }
    forall i, j | 0 <= i < j < |hs|
      ensures hs[i] < hs[j]
    {
      StoredHeightsIncreasing(store, start, end + 1, i, j);
      assert hs[i] == stored[i] && hs[j] == stored[j];
    }
    forall h | start <= h <= end && store(h).Some? && (|hs| < maxBlocks || h <= LastRetrieved(hs, start))
      ensures h in hs
    {
      PageContainsStored(stored, hs, maxBlocks, start, h);
    }
  }

  /** The step of `PageHeightsSpec` for one stored height. */
  lemma PageContainsStored(stored: seq<nat>, hs: seq<nat>, maxBlocks: nat, start: nat, h: nat)
    requires forall i, j :: 0 <= i < j < |stored| ==> stored[i] < stored[j]
    requires hs == stored[..Min(maxBlocks, |stored|)]
    requires h in stored
    requires |hs| < maxBlocks || h <= LastRetrieved(hs, start)
    requires 1 <= maxBlocks
    ensures h in hs
  {
    var k :| 0 <= k < |stored| && stored[k] == h;
    assert k < |hs|;
    assert hs[k] == h;
  }

  /**
   * The pagination loop: walks heights `start..end`, skipping missing blocks,
   * until `maxBlocks` blocks are collected; returns their heights, the blocks
   * and `last_retrieved_height`.
   */
  method CollectBlocks(store: BlockStore, start: nat, end: nat, maxBlocks: nat, includeProof: bool)
    returns (heights: seq<nat>, blocks: seq<Json>, lastRetrieved: nat)
    requires start <= end && 1 <= maxBlocks
    ensures heights == PageHeights(store, start, end, maxBlocks)
    ensures |blocks| == |heights|
    ensures forall i :: 0 <= i < |heights| ==>
      store(heights[i]).Some? && blocks[i] == BlockView(store(heights[i]).value, includeProof)
    ensures lastRetrieved == LastRetrieved(heights, start)
  {
    heights, blocks := [], [];
    lastRetrieved := start;
    var height := start;
    while height <= end && |heights| < maxBlocks
      invariant start <= height <= end + 1
      invariant heights == StoredHeights(store, start, height)
      invariant |heights| <= maxBlocks
      invariant |blocks| == |heights|
      invariant forall i :: 0 <= i < |heights| ==> store(heights[i]).Some?
      invariant forall i :: 0 <= i < |heights| ==> blocks[i] == BlockView(store(heights[i]).value, includeProof)
      invariant lastRetrieved == LastRetrieved(heights, start)
    {
      var block := store(height);
      if block.Some? {
        heights := heights + [height];
        blocks := blocks + [BlockView(block.value, includeProof)];
        lastRetrieved := height;
      }
      height := height + 1;
    }
    StoredHeightsPrefix(store, start, height, end + 1);
  }

  /**
   * `GetBlocksHandler::Handle`: parameter checks, tip clamping, then the page.
   * `tip` is the confirmed tip's height, `None` when it cannot be read.
   */
  method Handle(params: Option<Json>, chainAvailable: bool, tip: Option<U64>, store: BlockStore)
    returns (r: Response<BlockListing>)
    ensures params.None? ==> r == Error(ParamsMissing)
    ensures params.Some? && !chainAvailable ==> r == Error(InternalError(CHAIN_UNAVAILABLE))
    ensures params.Some? && chainAvailable && ParseQuery(params.value).Error? ==>
      r == Error(ParseQuery(params.value).error)
    ensures params.Some? && chainAvailable && ParseQuery(params.value).Ok? && tip.None? ==>
      r == Error(InternalError(NO_TIP))
    ensures (params.Some? && chainAvailable && ParseQuery(params.value).Ok? && tip.Some?
      && ParseQuery(params.value).value.startHeight > tip.value) ==>
      r == Ok(BlockListing(tip.value, []))
    ensures (params.Some? && chainAvailable && ParseQuery(params.value).Ok? && tip.Some?
      && ParseQuery(params.value).value.startHeight <= tip.value) ==>
      var q := ParseQuery(params.value).value;
      var heights := PageHeights(store, q.startHeight, Min(q.endHeight, tip.value), q.maxBlocks);
      && r.Ok?
      && |r.value.blocks| == |heights|
      && (forall i :: 0 <= i < |heights| ==>
            store(heights[i]).Some? && r.value.blocks[i] == BlockView(store(heights[i]).value, q.includeProof))
      && r.value.lastRetrievedHeight == LastRetrieved(heights, q.startHeight)
  {
    if params.None? {
      return Error(ParamsMissing);
    }
    if !chainAvailable {
      return Error(InternalError(CHAIN_UNAVAILABLE));
    }
    var q :- ParseQuery(params.value);
    if tip.None? {
      return Error(InternalError(NO_TIP));
    }
    if q.startHeight > tip.value {
      return Ok(BlockListing(tip.value, []));
    }
    var end := if q.endHeight > tip.value then tip.value else q.endHeight;
    var heights, blocks, last := CollectBlocks(store, q.startHeight, end, q.maxBlocks, q.includeProof);
    return Ok(BlockListing(last, blocks));
  }
}
