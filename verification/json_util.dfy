/**
 * The JSON values an RPC request carries, and the conversions the handlers
 * apply to them. A conversion that returns `None` stands for the exception
 * the source's conversion throws.
 */
module JsonUtil {
  import opened Basics
  import opened Hashes

  datatype Json =
    | Null
    | Bool(b: bool)
    | Num(n: int)
    | Str(s: string)
    | Arr(items: seq<Json>)
    | Obj(members: map<string, Json>)

  /** `params.size() > i && !params[i].isNull()`: the i-th parameter was supplied. */
  predicate Given(items: seq<Json>, i: nat)
  {
    i < |items| && !items[i].Null?
  }

  /** `ConvertToUInt64`: non-negative integers below 2^64 convert, everything else throws. */
  function ToUInt64(j: Json): (r: Option<U64>)
    ensures r.Some? <==> j.Num? && 0 <= j.n < U64_LIMIT
    ensures r.Some? ==> r.value == j.n
  {
    match j
    case Num(n) => if 0 <= n < U64_LIMIT then Some(n) else None
    case _ => None
  }

  /** jsoncpp's `asBool`: null is false, numbers are true when non-zero, text and containers throw. */
  function AsBool(j: Json): (r: Option<bool>)
    ensures j.Bool? ==> r == Some(j.b)
    ensures j.Num? ==> r == Some(j.n != 0)
    ensures r.None? <==> j.Str? || j.Arr? || j.Obj?
  {
    match j
    case Null => Some(false)
    case Bool(b) => Some(b)
    case Num(n) => Some(n != 0)
    case _ => None
  }

  /** `removeMember(key)`: objects lose the key, every other value is left as it is. */
  function RemoveMember(j: Json, key: string): (r: Json)
    ensures j.Obj? ==> r.Obj? && r.members.Keys == j.members.Keys - {key}
    ensures j.Obj? ==> forall k :: k in r.members ==> r.members[k] == j.members[k]
    ensures !j.Obj? ==> r == j
  {
    match j
    case Obj(m) => Obj(m - {key})
    case _ => j
  }

  /** Value of one hexadecimal digit, either case. */
  function HexDigit(c: char): (r: Option<nat>)
    ensures r.Some? ==> r.value < 16
  {
    if '0' <= c <= '9' then Some(c as nat - '0' as nat)
    else if 'a' <= c <= 'f' then Some(c as nat - 'a' as nat + 10)
    else if 'A' <= c <= 'F' then Some(c as nat - 'A' as nat + 10)
    else None
  }

  /** Lower-case digit for a value below 16. */
  function HexChar(v: nat): (c: char)
    requires v < 16
  {
    if v < 10 then ('0' as nat + v) as char else ('a' as nat + v - 10) as char
  }

  /** Decodes pairs of hexadecimal digits; odd length or a non-digit fails. */
  function FromHex(s: string): (r: Option<seq<byte>>)
    ensures r.Some? ==> 2 * |r.value| == |s|
    decreases |s|
  {
    if |s| == 0 then Some([])
    else if |s| == 1 then None
    else match (HexDigit(s[0]), HexDigit(s[1]), FromHex(s[2..]))
      case (Some(hi), Some(lo), Some(rest)) => Some([(16 * hi + lo) as byte] + rest)
      case _ => None
  }

  /** `ToHex`: two lower-case digits per byte. */
  function ToHex(bytes: seq<byte>): (s: string)
    ensures |s| == 2 * |bytes|
  {
    if |bytes| == 0 then ""
    else [HexChar(bytes[0] / 16), HexChar(bytes[0] % 16)] + ToHex(bytes[1..])
  }

  lemma HexCharDigit(v: nat)
    requires v < 16
    ensures HexDigit(HexChar(v)) == Some(v)
  {
  }

  /** Decoding what `ToHex` printed gives back the bytes. */
  lemma {:induction false} HexRoundTrip(bytes: seq<byte>)
    ensures FromHex(ToHex(bytes)) == Some(bytes)
    decreases |bytes|
  {
    if |bytes| > 0 {
      var s := ToHex(bytes);
      HexCharDigit(bytes[0] / 16);
      HexCharDigit(bytes[0] % 16);
      assert s[2..] == ToHex(bytes[1..]);
      HexRoundTrip(bytes[1..]);
      assert bytes == [bytes[0]] + bytes[1..];
    }
  }

  /** `ConvertToCommitment`: a string of 66 hexadecimal digits; anything else throws. */
  function ToCommitment(j: Json): (r: Option<Commitment>)
    ensures r.Some? ==> j.Str? && |j.s| == 2 * COMMITMENT_SIZE && FromHex(j.s) == Some(r.value)
    ensures j.Str? && |j.s| == 2 * COMMITMENT_SIZE && FromHex(j.s).Some? ==> r.Some?
  {
    if j.Str? && |j.s| == 2 * COMMITMENT_SIZE then
      match FromHex(j.s)
      case Some(bytes) => Some(bytes)
      case None => None
    else None
  }

  /** A commitment printed with `ToHex` converts back to itself. */
  lemma CommitmentRoundTrip(c: Commitment)
    ensures ToCommitment(Str(ToHex(c))) == Some(c)
  {
    HexRoundTrip(c);
  }
}
