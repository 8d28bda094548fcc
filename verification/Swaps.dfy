/** Atomic swaps (packages/iov-bcp/src/atomicswaptypes.ts, transactions.ts). */
module Swaps {
  import opened Results

  datatype SwapId = SwapId(prefix: Option<string>, data: seq<byte>)

  /** `swapIdEquals` compares prefix, length and every byte. */
  predicate SwapIdEquals(left: SwapId, right: SwapId) {
    && left.prefix == right.prefix
    && |left.data| == |right.data|
    && (forall i | 0 <= i < |left.data| :: left.data[i] == right.data[i])
  }

  lemma SwapIdEqualsIsIdentity(left: SwapId, right: SwapId)
    ensures SwapIdEquals(left, right) <==> left == right
  {
    if SwapIdEquals(left, right) {
      assert left.data == right.data;
    }
  }

  datatype SwapData = SwapData(
    id: SwapId, sender: string, recipient: string, hash: seq<byte>, amounts: seq<nat>, timeout: nat)

  datatype Settlement =
    | Claim(swapId: SwapId, preimage: seq<byte>)
    | Abort(swapId: SwapId)

  datatype SwapEvent = Offer(data: SwapData) | Settle(settlement: Settlement)

  datatype AtomicSwap =
    | Open(data: SwapData)
    | Claimed(data: SwapData, preimage: seq<byte>)
    | Aborted(data: SwapData)

  function IdOf(e: SwapEvent): SwapId {
    match e
    case Offer(data) => data.id
    case Settle(settlement) => settlement.swapId
  }

  function SettleAtomicSwap(data: SwapData, settlement: Settlement): AtomicSwap {
    match settlement
    case Claim(_, preimage) => Claimed(data, preimage)
    case Abort(_) => Aborted(data)
  }

  /** `findIndex`: the first position whose ID equals id, or the length when there is none. */
  function IndexOfId(ids: seq<SwapId>, id: SwapId): (i: nat)
    ensures i <= |ids|
    ensures i < |ids| ==> ids[i] == id
    ensures i < |ids| <==> id in ids
  {
    FirstIndexFrom(ids, id, 0)
  }

  function FirstIndexFrom(ids: seq<SwapId>, id: SwapId, from: nat): (i: nat)
    requires from <= |ids|
    ensures from <= i <= |ids|
    ensures i < |ids| ==> ids[i] == id
    ensures forall j | from <= j < i :: ids[j] != id
    decreases |ids| - from
  {
    if from == |ids| then from
    else
      SwapIdEqualsIsIdentity(ids[from], id);
      if SwapIdEquals(ids[from], id) then from else FirstIndexFrom(ids, id, from + 1)
  }

  /** `splice(i, 1)`. */
  function RemoveAt<T>(s: seq<T>, i: nat): (r: seq<T>)
    requires i < |s|
    ensures |r| == |s| - 1
  {
    seq(|s| - 1, j requires 0 <= j < |s| - 1 => if j < i then s[j] else s[j + 1])
  }

  /** One element is taken out; the others keep their order. */
  lemma RemoveAtSplices<T>(s: seq<T>, i: nat)
    requires i < |s|
    ensures RemoveAt(s, i) == s[..i] + s[i + 1..]
  {
  }
}
