/**
 * A chain view (candidate or confirmed) as the sequence of block hashes
 * indexed by height, with the chain-store operations the TxHashSet
 * processor relies on.
 */
module ChainStore {
  import opened Basics
  import opened Hashes

  /** `chain[h]` is the hash of the block at height `h`. */
  type Chain = seq<Hash>

  /**
   * `FindCommonIndex`: the greatest height below both chain lengths at which
   * the two chains hold the same hash; height 0 (genesis) is taken as common
   * when no other height is.
   */
  function FindCommonIndex(a: Chain, b: Chain): (h: nat)
    ensures h == 0 || (h < |a| && h < |b| && a[h] == b[h])
    ensures |a| > 0 && |b| > 0 ==> h < |a| && h < |b|
    ensures forall k :: h < k < |a| && k < |b| ==> a[k] != b[k]
  {
    if |a| == 0 || |b| == 0 then 0 else CommonAtOrBelow(a, b, Min(|a|, |b|) - 1)
  }

  /** Walks down from height `k` to the first height where the chains agree. */
  function CommonAtOrBelow(a: Chain, b: Chain, k: nat): (h: nat)
    requires k < |a| && k < |b|
    ensures h <= k
    ensures h == 0 || a[h] == b[h]
    ensures forall j :: h < j <= k ==> a[j] != b[j]
    decreases k
  {
    if k == 0 || a[k] == b[k] then k else CommonAtOrBelow(a, b, k - 1)
  }

  /** `Chain::Rewind(height)`: drops every entry above `height`; no-op when there is none. */
  function Rewind(c: Chain, height: nat): (r: Chain)
    ensures |r| == Min(height + 1, |c|)
    ensures r == c[..|r|]
  {
    if height + 1 < |c| then c[..height + 1] else c
  }

  /** `Chain::AddBlock(hash, height)`: appends; only the next height may be added. */
  function AddBlock(c: Chain, hash: Hash, height: nat): (r: Chain)
    requires height == |c|
    ensures |r| == height + 1
    ensures r[..height] == c && r[height] == hash
  {
    c + [hash]
  }
}
