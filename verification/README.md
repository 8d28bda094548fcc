# Verified models of IOV-Core

IOV-Core is a TypeScript client library for several blockchains. This project models the parts of it
that are hard to get right and proves what they promise, for every input and every run:

* **Event protocols.** The buffering `concat` of live streams, `dropDuplicates` and the `liveTx` stream
  built from them; the pools of `AtomicSwapMerger` and the two ways in which swaps are reconstructed from
  transactions; the request queue of `QueueingStreamingSocket`; the height cursor behind the polling
  `liveTx` streams; the pagination of `txSearchAll`.
* **Exact codecs and arithmetic.** Decimals, hex, the tagged JSON of `TransactionEncoder`, the canonical
  form of `sortJson`, DER and fixed-length signatures, base-128 varints with the messages made of them,
  SLIP-0010 key derivation, version selection and the proportional fund split of the governor.

Objects whose handlers update fields are classes (`ConcatStream.Concat`, `SwapMerger.AtomicSwapMerger`,
`RequestQueue.QueueingStreamingSocket`, `HeightPolling.Poller`, `DropDuplicatesStream.DropDuplicates`), and
loops are methods with loops. Each is proved equal to a function of the old state, and `Run` folds those
functions over an arbitrary event sequence, so that the theorems range over every interleaving. Streams,
sockets, servers and timers appear as sequences of events, HMAC-SHA512 and point multiplication as
arbitrary functions, `BN` values as integers.

`dafny verify dfyconfig.toml` checks the whole project.

| file | contents |
|---|---|
| `Common.dfy` | results, options and bytes; sequences and their multisets; decimal digits; big-endian integers |
| `ConcatStream.dfy`, `ConcatProofs.dfy` | `concat`: handlers and runs |
| `DropDuplicates.dfy`, `LiveTransactions.dfy`, `EthereumLiveTransactions.dfy` | `dropDuplicates`, and `liveTx` of the BNS and the Ethereum connection |
| `Swaps.dfy`, `SwapMerger.dfy`, `MergerInputs.dfy`, `SwapReconstruction.dfy`, `SwapWatching.dfy` | atomic swaps: the merger, `getSwaps`, the Ethereum log fold, `watchSwaps` |
| `RequestQueue.dfy` | the request queue of the socket |
| `HeightPolling.dfy` | polling by height |
| `TxSearch.dfy` | paginated search |
| `DecimalNumbers.dfy` | `Decimal` |
| `Hex.dfy`, `TransactionEncoding.dfy`, `TransactionEncodingProofs.dfy` | hex and the transaction encoder |
| `SortJson.dfy`, `SortJsonProofs.dfy`, `SortJsonTies.dfy` | canonical sign documents: the model and the order of one object, whole documents, ties |
| `Secp256k1Signatures.dfy`, `Slip10.dfy` | signatures and key derivation |
| `AminoEncoding.dfy` | varints, versions, timestamps |
| `LatestVersions.dfy`, `FundDistribution.dfy` | the governor: latest versions, distribution of funds |

## Where the code does less than one might expect

Each of these is stated as an exact condition.

* `concat` ends the emptying of a queue at the first `undefined` in it. A complete run gives the full
  concatenation if and only if no `undefined` arrived from a stream whose turn had not come
  (`CompleteRunIsFullConcatenationIff`; `UndefinedOutOfTurnLosesValues` is the smallest such run).
* `processQueue` sets its flag before it looks at the queue. Started on an empty queue, or one that begins
  with an empty request, it leaves the flag set and nothing is sent any more (`StallsIff`, `StalledForever`,
  `ConnectingWithoutRequestsStalls`). The flag is released in the middle of the loop, so that activations
  overlap; a failing send then puts its request back behind later ones (`KeepsQueueOrderIff`,
  `OverlapBreaksOrder`).
* The fold over Ethereum logs ignores a settlement that precedes its offer, the merger does not
  (`ReconstructionsAgreeIff`, `EarlySettlement`). `getSwaps` throws when a release is found twice without its
  offer (`NeverThrowsIffAccepted`, `RepeatedReleaseThrows`), and `watchSwaps` fails when both of its streams bring a
  release before the offer (`WatchFailsIff`, `DoubleReleaseFails`). The comment on `getSwaps` speaks of open swaps only; the code returns settled
  ones as well, and so does the model.
* A poller misses a transaction that appears at or below a height it has already passed
  (`EmitsExactlyOnceIff`, `LateArrivalIsMissed`).
* `encodeInt` shifts 32-bit integers with sign and is right in [0, 2^31) only (`ReadsBackIff`); timestamps
  before 1970 or from 2038-01-19 on are not read back (`TimeReadsBackIff`).
* `toJson` and `fromJson` lose entries with the key `__proto__`, because assigning to it stores no entry
  (`RoundTripIff`, `PrototypeEntryIsLost`).
* JavaScript objects list array-index keys first, whatever the order of insertion, and `localeCompare` can
  call different strings equal. Sorted keys ascend, and the sorted form is unique, exactly when these two
  do not interfere (`AscendsIff`, `NumericKeysDoNotAscend`, `OneFormIff`).
* `getElectionRuleById` takes the latest rule with the ID, whatever its electorate, so that it can give another rule than
  the listing of an electorate (`LookupAgreesWithListingIff`, `SharedIdFindsOtherRule`).
* `txSearchAll` from a later page on compares what it has collected with the number of all matches, so it
  never ends if there are matches on earlier pages (`SearchEndsIff`, `SecondPageNeverEnds`).
* `fromDer` accepts more than DER: extra leading zeros and bytes after the second integer
  (`EncodingGivesBackIff`, `AcceptsTrailingBytesAndZeros`). The extended signature admits the recovery
  parameter 4, which its error message excludes; the model follows the code.

## Model

| member | source | states |
|---|---|---|
| ConcatStream.Concat.constructor | packages/iov-stream/src/concat.ts:21-62 | one empty queue per stream, the first stream is active; with no streams at all completion is signalled at once |
| ConcatStream.Concat.EmitAllQueuesEvents | packages/iov-stream/src/concat.ts:44-53 | the loop emits a queue up to its first `undefined`, removes that one too and leaves the rest |
| ConcatStream.Concat.Next | packages/iov-stream/src/concat.ts:67-73 | a value of the active stream is emitted, any other is buffered in its stream's queue |
| ConcatStream.Concat.Complete | packages/iov-stream/src/concat.ts:74-89 | the nested loops are the recursion that empties the queues of completed streams in order, then signals completion or empties the queue of the stream that becomes active |
| ConcatStream.Concat.Fail | packages/iov-stream/src/concat.ts:90-93 | the error is passed on and all buffers are forgotten |
| ConcatProofs.EmitsInStreamOrder | packages/iov-stream/src/concat.ts:40-97 | for any number of streams, at every moment of every interleaving, the output is everything received from the streams before the first open one, then everything received from that one; completion has been signalled once if all have completed, otherwise not at all |
| ConcatProofs.ValuesAreAccountedFor | packages/iov-stream/src/concat.ts:44-89 | in every run, emitted values plus values that can still be emitted plus `undefined` values that came out of turn are all the values received |
| ConcatProofs.CompletesOnce | packages/iov-stream/src/concat.ts:74-89 | whatever the streams carry, completion is signalled exactly once and exactly when all streams have completed |
| ConcatProofs.CompleteRunIsFullConcatenationIff | packages/iov-stream/src/concat.ts:44-89 | when all streams have completed, the output is the full concatenation in stream order if and only if no `undefined` arrived from a stream whose turn had not come |
| ConcatProofs.FailureEndsTheRun | packages/iov-stream/src/concat.ts:90-93 | a failure reaches the listener once, emits nothing, excludes completion and leaves the buffers reset |
| ConcatProofs.UndefinedOutOfTurnLosesValues | packages/iov-stream/src/concat.ts:47-50 | a run with two streams that completes and loses a defined value |
| ConcatProofs.DrainStopsAtUndefined | packages/iov-stream/src/concat.ts:44-53 | emptying a queue emits what is before its first `undefined`, drops that one and leaves everything behind it |
| DropDuplicatesStream.DropDuplicates.Next | packages/iov-stream/src/dropduplicates.ts:27-37 | after every value, what has passed is the first occurrences among all received values, and the remembered keys are those of all received values |
| DropDuplicatesStream.EachKeyPassesOnce | packages/iov-stream/src/dropduplicates.ts:20-33 | no key passes twice, and the keys that pass are exactly those that came in and had not been seen |
| DropDuplicatesStream.FirstOccurrencesOfConcatenation | packages/iov-stream/src/dropduplicates.ts:31-33 | what passes of two streams in sequence is what passes of the first, then what of the second is new after the first |
| LiveTransactions.DeliversEachTransactionOnce | packages/iov-bns/src/bnsconnection.ts:645-656 | for every overlap and interleaving of history and updates no ID is delivered twice; the delivered IDs are those of the history while the search is pending and the union afterwards; the history comes first, then transactions that only the updates contain |
| LiveTransactions.DeliveryOnlyGrows | packages/iov-bns/src/bnsconnection.ts:645-656 | an event never takes back or reorders what was delivered |
| EthereumLiveTransactions.PollersAreIndependent | packages/iov-ethereum/src/ethereumconnection.ts:844-897 | under every interleaving of the polls each of the two cursors is where its poller would be on its own |
| EthereumLiveTransactions.DeliversUnionOnce | packages/iov-ethereum/src/ethereumconnection.ts:844-912 | under every interleaving of the polls no ID is delivered twice, and the delivered IDs are the union of what the two pollers emit |
| EthereumLiveTransactions.DeliveryOnlyGrows | packages/iov-ethereum/src/ethereumconnection.ts:858-912 | a poll never takes back or reorders what was delivered |
| EthereumLiveTransactions.ReliableSourcesAreDelivered | packages/iov-ethereum/src/ethereumconnection.ts:844-912 | if both sources only append and nothing arrives late, exactly the IDs of transfers between the two heights, both included, that either source has last shown are delivered, once each |
| Swaps.SwapIdEqualsIsIdentity | packages/iov-bcp/src/transactions.ts:84-90 | the comparison of prefix, length and bytes is equality of swap IDs |
| Swaps.RemoveAtSplices | packages/iov-bcp/src/atomicswapmerger.ts:41-44 | taking an element out of a pool keeps the order of the others |
| SwapMerger.AtomicSwapMerger.Process | packages/iov-bcp/src/atomicswapmerger.ts:33-76 | new pools and returned swap or error for an offer or a settlement |
| SwapMerger.PoolsAreTheBalance | packages/iov-bcp/src/atomicswapmerger.ts:33-76 | over every event sequence both pools are free of duplicate IDs and disjoint, and for each ID accepted offers minus accepted settlements equals its presence in the open pool minus its presence in the settling pool |
| SwapMerger.ThrowsIffBalanceLeavesRange | packages/iov-bcp/src/atomicswapmerger.ts:47-74 | after any events, `process` throws if and only if the balance of the ID would leave {-1, 0, 1}, and then the pools are unchanged; the error is that of the open pool at 2 and that of the settling pool at -2 |
| SwapMerger.RunForm | packages/iov-bcp/src/atomicswapmerger.ts:10-76 | with at most one offer and one settlement per ID nothing throws, the open pool is the offers without settlement, the settling pool the settlements without offer, and the settled swaps are exactly the matching pairs, with their data and preimage |
| SwapMerger.ArrivalOrderDoesNotMatter | packages/iov-bcp/src/atomicswapmerger.ts:10-76 | under the same assumption every permutation of the events gives the same pools and the same settled swaps |
| MergerInputs.NeverThrowsIffAccepted | packages/iov-bns/src/bnsconnection.ts:523-528 | feeding the merger throws if and only if an ID is offered twice, released twice without an offer or released three times with one |
| MergerInputs.RepeatedReleaseThrows | packages/iov-bns/src/bnsconnection.ts:519-528 | the shortest input that throws: a release that both searches have found, without its offer |
| MergerInputs.FirstReleaseSettles | packages/iov-bns/src/bnsconnection.ts:514-530 | for every input that does not throw, also with releases that both searches found, each offered swap is returned once: open if it has no release, otherwise as its first release leaves it |
| SwapReconstruction.GetSwaps | packages/iov-bns/src/bnsconnection.ts:514-530 | the two loops succeed if and only if no ID is offered twice, released twice without an offer or three times with one, and then return the open swaps followed by the settled ones of the merger run |
| SwapReconstruction.LogFoldForm | packages/iov-ethereum/src/ethereumconnection.ts:267-292 | the fold lists each ID once; a swap is open if no settlement follows its offer, otherwise it is claimed with that preimage or aborted |
| SwapReconstruction.MergerForm | packages/iov-bns/src/bnsconnection.ts:514-530 | `getSwaps` does not throw and lists, once each, the offers without settlement as open and the matching pairs as settled |
| SwapReconstruction.ReconstructionsAgreeIff | packages/iov-ethereum/src/ethereumconnection.ts:1318-1339 | on every log with at most one offer and one settlement per ID the fold and `getSwaps` give the same swaps if and only if no settlement precedes its offer |
| SwapReconstruction.EarlySettlement | packages/iov-ethereum/src/ethereumconnection.ts:274-278 | the shortest log on which they disagree: a settlement and then its offer, reported as open by the fold and as settled by the merger |
| SwapReconstruction.UntrackedSettlementChangesNothing | packages/iov-ethereum/src/ethereumconnection.ts:274-278 | a settlement for an ID that was never offered changes neither reconstruction |
| SwapWatching.SwapWatcher.Next | packages/iov-bns/src/bnsconnection.ts:543-555 | a transaction of either stream is filtered, given to the merger and reported; an exception ends the stream |
| SwapWatching.LiveStreamsDeliverOnce | packages/iov-bns/src/bnsconnection.ts:540-541 | two `liveTx` streams in any interleaving bring each transaction at most once per stream |
| SwapWatching.NeverThrowsIffReleasesFollow | packages/iov-bcp/src/atomicswapmerger.ts:33-76 | with at most one offer per ID, the merger fed in any order throws if and only if at some moment an ID has been released twice without an offer or three times with one |
| SwapWatching.WatchFailsIff | packages/iov-bns/src/bnsconnection.ts:538-556 | under every interleaving the stream fails if and only if at some moment both streams have brought the release of a swap whose offer has not come |
| SwapWatching.ChainOrderNeverFails | packages/iov-bns/src/bnsconnection.ts:538-556 | if releases come after their offers on the first stream, the stream never fails, however the second is interleaved |
| SwapWatching.DoubleReleaseFails | packages/iov-bns/src/bnsconnection.ts:547-554 | the shortest run that fails: both streams bring a release first |
| SwapWatching.LastWordIsFirstRelease | packages/iov-bns/src/bnsconnection.ts:538-556 | under every interleaving that does not fail, the last report on an ID is the offered swap, open or as its first release leaves it, and there is none on other IDs |
| RequestQueue.QueueingStreamingSocket.StartProcessQueue | packages/iov-socket/src/queueingstreamingsocket.ts:100-109 | `processQueue` up to its first `await` |
| RequestQueue.QueueingStreamingSocket.Enqueue | packages/iov-socket/src/queueingstreamingsocket.ts:93-98 | the step of `queueRequest` |
| RequestQueue.QueueingStreamingSocket.UpdateStatus | packages/iov-socket/src/queueingstreamingsocket.ts:54-87 | the steps of status changes; being connected starts an activation |
| RequestQueue.QueueingStreamingSocket.ResumeAfterSuccess | packages/iov-socket/src/queueingstreamingsocket.ts:107-110 | the activation of a successful send releases the flag and goes on with the next request |
| RequestQueue.QueueingStreamingSocket.ResumeAfterFailure | packages/iov-socket/src/queueingstreamingsocket.ts:111-116 | the activation of a failed send puts its request in front, releases the flag and ends |
| RequestQueue.RequestsAreConserved | packages/iov-socket/src/queueingstreamingsocket.ts:93-118 | over every run of overlapping activations, status changes, successes and failures each non-empty request has been queued as often as it is delivered, in flight or waiting |
| RequestQueue.KeepsQueueOrder | packages/iov-socket/src/queueingstreamingsocket.ts:93-118 | in runs without failures, or in which only the newest live send fails, requests reach the socket in queue order |
| RequestQueue.KeepsQueueOrderIff | packages/iov-socket/src/queueingstreamingsocket.ts:100-118 | for distinct requests the queue order holds at every moment if and only if no send fails while a later one is in flight or delivered |
| RequestQueue.OutOfOrderFailure | packages/iov-socket/src/queueingstreamingsocket.ts:111-116 | the failure of a send that is not the newest breaks the queue order |
| RequestQueue.OverlapBreaksOrder | packages/iov-socket/src/queueingstreamingsocket.ts:107-116 | a run from the initial state in which two activations overlap and a failing send puts its request behind one that has already been sent |
| RequestQueue.StallsIff | packages/iov-socket/src/queueingstreamingsocket.ts:100-118 | the exact events and states in which the flag stays set with no activation left to clear it |
| RequestQueue.StalledForever | packages/iov-socket/src/queueingstreamingsocket.ts:100-118 | from then on nothing is sent and every request only lengthens the queue |
| RequestQueue.EmptyRequestStalls | packages/iov-socket/src/queueingstreamingsocket.ts:100-118 | an empty request at the front is taken out by the next activation and ends it; without sends in flight, all requests behind it wait for ever |
| RequestQueue.ConnectingWithoutRequestsStalls | packages/iov-socket/src/queueingstreamingsocket.ts:54-64 | connecting before the first request is such a case |
| HeightPolling.Poller.constructor | packages/iov-lisk/src/liskconnection.ts:386-387 | the initial cursor and the upper bound, where 0 stands for no bound |
| HeightPolling.Poller.Poll | packages/iov-lisk/src/liskconnection.ts:389-402 | one poll emits the search result and moves the cursor through it |
| HeightPolling.CursorIsMaximum | packages/iov-ethereum/src/ethereumconnection.ts:858-864 | whatever the order of the results, the cursor becomes the maximum of its old value and the greatest height plus one |
| HeightPolling.SearchFinds | packages/iov-lisk/src/liskconnection.ts:478-507 | a search finds exactly the transfers (type 0) of the snapshot whose height is at least the minimum and at most the maximum |
| HeightPolling.SearchKeepsOrder | packages/iov-lisk/src/liskconnection.ts:491-507 | the results have the order of the snapshot |
| HeightPolling.EmitsExactlyOnceIff | packages/iov-lisk/src/liskconnection.ts:383-414 | with non-overlapping polls nothing is emitted twice and nothing but transfers of the latest snapshot in the range of heights; all of these are emitted if and only if none of them ever appeared at or below the height of one known before |
| HeightPolling.LateArrivalIsMissed | packages/iov-lisk/src/liskconnection.ts:395-401 | two polls of which the second shows a transaction at or below the height of a known one: it is not emitted |
| HeightPolling.CompleteSnapshotsAreEmittedOnce | packages/iov-lisk/src/liskconnection.ts:478-507 | with snapshots complete up to a height that never decreases, each matching transaction up to that height is emitted exactly once and no other is |
| DecimalNumbers.PrintThenParse | packages/iov-encoding/src/decimal.ts:87-99 | for every natural number of atomics and 0 to 100 fractional digits, parsing the printed decimal gives it back |
| DecimalNumbers.PrintsNoExtraZeros | packages/iov-encoding/src/decimal.ts:87-99 | the text is a numeral that begins with 0 only alone or before the point, and whose fraction does not end with 0 |
| DecimalNumbers.SyntaxErrors | packages/iov-encoding/src/decimal.ts:16-43 | only numerals are accepted, and the only error for a numeral is too many fractional digits |
| DecimalNumbers.ParseErrors | packages/iov-encoding/src/decimal.ts:13-20 | fewer than 0 or more than 100 fractional digits are refused first; then the first character that is neither digit nor point, with its position counted from 1 |
| DecimalNumbers.PointErrors | packages/iov-encoding/src/decimal.ts:30-43 | a point without digits behind it and a second point are refused, each with its error |
| DecimalNumbers.AcceptsExactlyTheRepresentable | packages/iov-encoding/src/decimal.ts:13-52 | a numeral is accepted if and only if its value is a multiple of the smallest unit, and then the result has exactly that rational value |
| DecimalNumbers.SameTextIffSameValue | packages/iov-encoding/src/decimal.ts:87-99 | two decimals, also with different numbers of fractional digits, print alike if and only if their rational values are equal |
| DecimalNumbers.PlusAddsValues | packages/iov-encoding/src/decimal.ts:116-120 | the sum through printed numbers is the exact sum; different fractional digits are an error |
| Hex.EncodeHex | packages/iov-encoding/src/encoding.ts:11-17 | the loop computes the hex text |
| Hex.DecodeHex | packages/iov-encoding/src/encoding.ts:19-34 | the loop computes the decoding, with its two errors |
| Hex.HexDigits | packages/iov-encoding/src/encoding.ts:13-31 | the sixteen digits, in both cases for decoding and in lower case for encoding |
| Hex.HexRoundTrip | packages/iov-encoding/src/encoding.ts:11-34 | decoding the hex text of any bytes gives the bytes |
| Hex.LowerCaseRoundTrip | packages/iov-encoding/src/encoding.ts:11-34 | encoding what was decoded gives the lower-case form of the text |
| TransactionEncoding.Encode | packages/iov-encoding/src/transactionencoder.ts:24-69 | the recursive encoder with its loops |
| TransactionEncoding.EncodeObject | packages/iov-encoding/src/transactionencoder.ts:48-66 | filling an object key by key, skipping undefined entries |
| TransactionEncoding.Decode | packages/iov-encoding/src/transactionencoder.ts:71-113 | the recursive decoder with its errors |
| TransactionEncoding.DecodeObject | packages/iov-encoding/src/transactionencoder.ts:99-110 | filling the decoded object key by key |
| TransactionEncodingProofs.EncodesIff | packages/iov-encoding/src/transactionencoder.ts:10-69 | a value can be encoded if and only if it is made of the supported types, with undefined as an object entry only |
| TransactionEncodingProofs.EncodesScalars | packages/iov-encoding/src/transactionencoder.ts:25-39 | a text gets the prefix "string:", bytes become "bytes:" and their hex text, other scalars stay |
| TransactionEncodingProofs.DecodesIff | packages/iov-encoding/src/transactionencoder.ts:71-113 | for all nested values, decoding succeeds if and only if every text begins with "string:", or with "bytes:" followed by an even number of hex digits |
| TransactionEncodingProofs.FirstErrorWins | packages/iov-encoding/src/transactionencoder.ts:92-94 | an array fails with the error of its first item that cannot be decoded |
| TransactionEncodingProofs.FirstEntryErrorWins | packages/iov-encoding/src/transactionencoder.ts:104-109 | an object fails with the error of its first value that cannot be decoded |
| TransactionEncodingProofs.JsonFailsByItsTexts | packages/iov-encoding/src/transactionencoder.ts:71-113 | a JSON value of any depth fails only because of a text in it; a value that is no JSON has its own error |
| TransactionEncodingProofs.EachItemOnItsOwn | packages/iov-encoding/src/transactionencoder.ts:41-43 | arrays keep their length, and every item is encoded and decoded on its own (decoding: lines 92-94) |
| TransactionEncodingProofs.DecodesText | packages/iov-encoding/src/transactionencoder.ts:80-90 | what a text decodes to by its prefix; any other prefix is the error for unknown prefixes |
| TransactionEncodingProofs.ResultIsJson | packages/iov-encoding/src/json.ts:25-73 | every encoding is a JSON-compatible value |
| TransactionEncodingProofs.EncodeThenDecode | packages/iov-encoding/src/transactionencoder.ts:24-113 | decoding the encoding gives the value without undefined entries and without entries at the prototype key, at every level |
| TransactionEncodingProofs.RoundTripIff | packages/iov-encoding/src/transactionencoder.ts:24-113 | the round trip always succeeds, and loses nothing but undefined entries if and only if no object has an entry `__proto__` |
| TransactionEncodingProofs.PrototypeEntryIsLost | packages/iov-encoding/src/transactionencoder.ts:53-65 | an object whose only key is `__proto__` comes back empty |
| TransactionEncodingProofs.AssignReplaces | packages/iov-encoding/src/transactionencoder.ts:53-65 | the assignment to a key gives it the value, keeps the other entries and the keys distinct, and stores nothing for "__proto__" |
| TransactionEncodingProofs.SameEncodingIff | packages/iov-encoding/src/transactionencoder.ts:24-69 | two values have the same encoding if and only if they are equal up to undefined entries and entries at the prototype key; strings and bytes are never confused |
| SortJsonProofs.SortKeepsContent | packages/iov-cosmoshub/src/cosmoshubcodec.ts:27-43 | sorting keeps every key and value at every level |
| SortJson.ArrayIndexIff | packages/iov-cosmoshub/src/cosmoshubcodec.ts:34-41 | the keys that an object lists first are the decimal texts of numbers below 2^32 - 1 |
| SortJson.WithMemberReplaces | packages/iov-cosmoshub/src/cosmoshubcodec.ts:36-39 | spreading an object and setting a key it has keeps the place of the key and replaces the value |
| SortJsonProofs.SortIsListed | packages/iov-cosmoshub/src/cosmoshubcodec.ts:35-41 | the result lists array-index keys first and by number at every level, as a JavaScript object does |
| SortJsonProofs.CanonicalForm | packages/iov-cosmoshub/src/cosmoshubcodec.ts:27-43 | if the collation tells the keys of each object apart, two documents have the same sorted form if and only if they are equal up to the order of object keys, at every level |
| SortJsonTies.SortingIsIdempotent | packages/iov-cosmoshub/src/cosmoshubcodec.ts:27-43 | sorting twice is sorting once, for every collation and every document |
| SortJsonProofs.AscendsIff | packages/iov-cosmoshub/src/cosmoshubcodec.ts:34-42 | keys ascend strictly at every level of the result if and only if the collation tells the keys of each object apart and agrees with the listing of array-index keys |
| SortJsonProofs.NumericKeysDoNotAscend | packages/iov-cosmoshub/src/cosmoshubcodec.ts:34-41 | for every collation that puts "10" before "9", a document with these two keys whose sorted form does not ascend |
| SortJsonTies.TiesHaveAnotherForm | packages/iov-cosmoshub/src/cosmoshubcodec.ts:34-42 | if two keys of some object are equal for the collation, there is another document that a JavaScript object can list, with the same content and a different sorted form |
| SortJsonTies.OneFormIff | packages/iov-cosmoshub/src/cosmoshubcodec.ts:27-43 | all rearrangements of a document that JavaScript objects can list have one sorted form if and only if the collation tells the keys of each object apart |
| Secp256k1Signatures.TrimLeadingNullBytes | packages/iov-crypto/src/secp256k1signature.ts:1-11 | the loop removes the leading zero bytes |
| Secp256k1Signatures.ParseDer | packages/iov-crypto/src/secp256k1signature.ts:33-74 | the parser with its errors, including truncated data |
| Secp256k1Signatures.DerRoundTrip | packages/iov-crypto/src/secp256k1signature.ts:122-133 | for every valid signature, decoding its DER form gives the same r and s |
| Secp256k1Signatures.EncodesStrictDer | packages/iov-crypto/src/secp256k1signature.ts:122-133 | the bytes are 0x30, the length, and twice 0x02, a length and a content; both contents are minimal and non-negative as section 8.3 of ITU-T X.690 asks, keep their value, and all lengths are below 128 |
| Secp256k1Signatures.EncodingGivesBackIff | packages/iov-crypto/src/secp256k1signature.ts:33-74 | of all accepted data, encoding the decoded signature gives the data back if and only if the data is strict DER |
| Secp256k1Signatures.AcceptsIff | packages/iov-crypto/src/secp256k1signature.ts:33-94 | data is accepted if and only if it is 0x30, the length of the rest and two INTEGERs (0x02, a length below 128, content) with positive values below 256^32; the second may be cut off or followed by more |
| Secp256k1Signatures.ReadableIsAccepted | packages/iov-crypto/src/secp256k1signature.ts:45-73 | the signature read from such data has the values of the two contents |
| Secp256k1Signatures.FrameErrors | packages/iov-crypto/src/secp256k1signature.ts:36-53 | the errors for a wrong prefix, length, tag or a length of 128 and more |
| Secp256k1Signatures.AcceptsTrailingBytesAndZeros | packages/iov-crypto/src/secp256k1signature.ts:45-73 | data with extra leading zeros and trailing bytes decodes to the same signature |
| Secp256k1Signatures.FixedLengthRoundTrip | packages/iov-crypto/src/secp256k1signature.ts:144-178 | both fixed-length forms decode to what was encoded |
| Secp256k1Signatures.FixedLengthAcceptsIff | packages/iov-crypto/src/secp256k1signature.ts:23-31 | exactly the data of the right length with non-zero r and s, and a recovery parameter of at most 4, is accepted, and encoding gives it back |
| Secp256k1Signatures.FixedLengthNumbers | packages/iov-crypto/src/secp256k1signature.ts:23-31 | the two halves of 64 bytes are the numbers r and s; another length, a zero r and a zero s each have their error, in this order |
| Secp256k1Signatures.ExtendedNumbers | packages/iov-crypto/src/secp256k1signature.ts:144-169 | the same for 65 bytes, whose last byte is the recovery parameter, refused above 4 |
| Secp256k1Signatures.PaddingKeepsTheNumber | packages/iov-crypto/src/secp256k1signature.ts:96-120 | `r(length)` and `s(length)` have exactly that length and the same number, and throw if and only if the length is too small |
| AminoEncoding.ReadsBackIff | packages/iov-tendermint-rpc/src/encodings.ts:192-195 | an integer is read back from its encoding as a base-128 varint if and only if it is in [0, 2^31) |
| AminoEncoding.EncodingIsMinimal | packages/iov-tendermint-rpc/src/encodings.ts:192-195 | no varint for the same number is shorter |
| AminoEncoding.EncodingIsPrefixFree | packages/iov-tendermint-rpc/src/encodings.ts:192-195 | no encoding is a prefix of that of another number |
| AminoEncoding.VersionReadsBackIff | packages/iov-tendermint-rpc/src/encodings.ts:214-218 | a version is read back if and only if both numbers are in [0, 2^31) |
| AminoEncoding.TimeReadsBackIff | packages/iov-tendermint-rpc/src/encodings.ts:198-205 | a timestamp is read back, to the nanosecond, if and only if it lies in the first 2^31 seconds from 1970 |
| AminoEncoding.TimeFields | packages/iov-tendermint-rpc/src/encodings.ts:198-205 | for all timestamps: the seconds are rounded down, the milliseconds left by `%` are negative before 1970 |
| AminoEncoding.BitOperators | packages/iov-tendermint-rpc/src/encodings.ts:192-195 | the two bit operators take an integer modulo 2^32 between -2^31 and 2^31, then its last eight bits or its quotient by 128 rounded down |
| AminoEncoding.RemainderTruncates | packages/iov-tendermint-rpc/src/encodings.ts:202-202 | `%` has the sign of the dividend |
| LatestVersions.GroupByCallback | packages/iov-bns-governance/src/utils.ts:1-23 | the loop gives one group per key in first-seen order, each with the values of its key in order |
| LatestVersions.GroupsPartition | packages/iov-bns-governance/src/utils.ts:1-23 | the groups together are the input, and none is empty |
| LatestVersions.LatestIsGreatest | packages/iov-bns-governance/src/utils.ts:25-33 | the fold finds the last of the values with the greatest version |
| LatestVersions.OneLatestRulePerId | packages/iov-bns-governance/src/governor.ts:66-71 | one rule per distinct ID of the electorate, in first-seen order, each with the greatest version among the electorate's rules with its ID |
| LatestVersions.LookupAgreesWithListingIff | packages/iov-bns-governance/src/governor.ts:73-82 | looking up a listed rule by its ID gives that rule if and only if no rule of another electorate with the same ID overtakes it: with a greater version, or with the same version and a later place |
| LatestVersions.SharedIdFindsOtherRule | packages/iov-bns-governance/src/governor.ts:66-82 | two rules of two electorates with the same ID: the lookup finds the later version, the listing of the first electorate gives the other |
| FundDistribution.ShareIsProportional | packages/iov-bns-governance/src/governor.ts:230-236 | a share is the exact proportion rounded down |
| FundDistribution.MessagesOfDistribution | packages/iov-bns-governance/src/governor.ts:221-239 | one message per token and recipient, token by token and in the order of the recipients; each goes to its recipient, in that token, with the exact proportion of the balance rounded down |
| FundDistribution.RefusedIff | packages/iov-bns-governance/src/governor.ts:213-215 | only an empty list of recipients is refused |
| FundDistribution.SplitsTheBalance | packages/iov-bns-governance/src/governor.ts:221-239 | for each token the shares add up to at most the balance and leave less than one unit per recipient with positive weight, and these are exactly the sends of that token |
| TxSearch.CollectPages | packages/iov-tendermint-rpc/src/client.ts:199-212 | the loop ends, and has collected the pages from the first requested one up to some page, as many transactions as announced |
| TxSearch.TxSearchAll | packages/iov-tendermint-rpc/src/client.ts:198-221 | returns all matches of the server, ordered by height, for every way of splitting them into pages and every start page before which there is no match |
| TxSearch.AllPagesAreFlat | packages/iov-tendermint-rpc/src/client.ts:196-212 | all matches are the pages one after the other, beginning with page 1 |
| TxSearch.SearchEndsIff | packages/iov-tendermint-rpc/src/client.ts:196-212 | from a given start page some request reaches the announced number if and only if no match is on an earlier page |
| TxSearch.SecondPageNeverEnds | packages/iov-tendermint-rpc/src/client.ts:197-212 | with one match on page 1 the loop that starts on page 2 never collects anything |
| TxSearch.TxSearchPage | packages/iov-tendermint-rpc/src/client.ts:186-194 | one page, sorted by height and stable within each block, with the number of all matches |
| TxSearch.CollectedSorts | packages/iov-tendermint-rpc/src/client.ts:186-215 | once the number is right, sorting page by page and then as a whole is sorting the list of all matches |
| TxSearch.PageSizeDoesNotMatter | packages/iov-tendermint-rpc/src/client.ts:186-221 | the result is the same for any two page splits, ascending in height, a permutation of the matches, and stable within each block |
| Slip10.DerivePathLoop | packages/iov-crypto/src/slip10.ts:56-66 | the loop along the path is the recursive derivation, ending at the first error |
| Slip10.DerivedKeysAreGood | packages/iov-crypto/src/slip10.ts:56-175 | for all hash functions, curves, paths and numbers of retries a derived secp256k1 key is 32 bytes long and encodes an integer in [1, n-1]; all keys and chain codes are 32 bytes |
| Slip10.MasterNode | packages/iov-crypto/src/slip10.ts:68-81 | the master key and chain code are the left and the right half of the HMAC of the seed, keyed with "Bitcoin seed" or "ed25519 seed"; on secp256k1 the digest is the next seed while its left half is not in [1, n-1] |
| Slip10.HardenedChild | packages/iov-crypto/src/slip10.ts:90-92 | a hardened child (index from 2^31 on) comes from the HMAC of a zero byte, the parent key and the index in four big-endian bytes, keyed with the parent chain code |
| Slip10.NormalChild | packages/iov-crypto/src/slip10.ts:93-106 | a normal child comes from the HMAC of the serialized point of the parent key and the index; ed25519 refuses it |
| Slip10.Ed25519Child | packages/iov-crypto/src/slip10.ts:134-146 | on ed25519 key and chain code are the left and the right half of the digest |
| Slip10.Secp256k1Child | packages/iov-crypto/src/slip10.ts:134-165 | on secp256k1 the key is the sum of left half and parent key modulo n and the chain code the right half; if the left half is not below n or the sum is zero, the next digest is the HMAC of a byte 1, the right half and the index |
| Slip10.OrderOfTheCurve | packages/iov-crypto/src/slip10.ts:177-180 | n is 2^256 - 0x14551231950B75FC4402DA1732FC9BEBF |
| Slip10.UsableIsGood | packages/iov-crypto/src/slip10.ts:148-165 | a child key is the sum of the left half and the parent key modulo n |
| Slip10.FirstUsableAttempt | packages/iov-crypto/src/slip10.ts:153-159 | the child comes from the first usable digest in the chain of retries |
| Slip10.PathsCompose | packages/iov-crypto/src/slip10.ts:56-66 | deriving along p and then q is deriving along p + q |
| Slip10.Ed25519NeedsHardenedPaths | packages/iov-crypto/src/slip10.ts:83-95 | ed25519 derivation succeeds if and only if every index is at least 2^31, and is refused otherwise |
| Slip10.SpareRetriesDoNotMatter | packages/iov-crypto/src/slip10.ts:73-75 | an outcome does not depend on how many retries were allowed |

## Left out

- Re-entrance in `concat`: handlers are atomic; unsubscribing or failing inside a listener call, and a stream that fails while the others are still being subscribed, are not modelled.
- The network, timers, promises and the stream library: they appear as events in an arbitrary order.
- Overlapping polls: the pollers are modelled with one poll after the other, and the server's answer is one snapshot per poll.
- HeightPolling.Poller.Poll: models the result filter of the Lisk search; how the Ethereum connection searches its scraper and its logs is not modelled, only that its two pollers move their cursors in the same way and are merged.
- TxSearch.TxSearchAll: needs a fixed set of matches and, for a start page above 1, no match before that page, because otherwise the loop does not end; a server that answers pages beyond the last with an error is not modelled.
- SwapReconstruction.GetSwaps: takes the offers and releases as found; the search queries, the filters by sender, recipient or hash and the decoding of contract logs are not modelled.
- SwapWatching.SwapWatcher.Next: an error of one of the two `liveTx` streams, which the merged stream passes on, is not modelled.
- Slip10.DerivePathLoop: the source repeats without bound; the model has a number of retries and a third outcome when they do not suffice, so termination with probability one is not stated.
- FundDistribution.SplitsTheBalance: for a positive total weight; dividing by zero and the limits of `muln` and `divn` belong to the number library, which is not part of this model.
- The other proposal types of the governor: each builds one message.
- `Decimal.fromAtomics` and `toFloatApproximation`, and fractional digits that are not integers: parsing of arbitrary strings by the number library and floating point are not modelled.
- `encodeString`, `encodeBytes`, `encodeBlockId` and the base64, UTF-8 and RFC 3339 encodings.
- Class instances such as dates in `sortJson`; in the transaction encoder they are values that cannot be encoded.
- SortJsonProofs.SortKeepsContent: takes object spread as ECMAScript defines it. Compiled for es2017 it becomes `Object.assign`, which would drop a member with the key `__proto__` as the transaction encoder does.
- The array sort is taken to be stable, as ECMAScript 2019 requires; older engines may order ties differently.
- Cryptographic primitives: HMAC-SHA512 and point multiplication are arbitrary functions.
- Message codecs of the blockchains, wallets and profiles, `ReconnectingSocket`, the faucet client, the command line interface.
