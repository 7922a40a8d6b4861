# Verified models of wallet components

The wallet checks headers, addresses, keys and server replies on its own, without a full node. This project
models the parts of it whose correctness is not obvious from reading one function, and proves what they promise.
`dafny verify dfyconfig.toml` checks everything.

| Part | Files | What it is |
|---|---|---|
| Arithmetic | `Arith`, `Digits`, `Sequences`, `Sorting`, `Strings`, `BitStrings` | shared facts: powers and division, digit and bit strings, alphabets, stable sorting |
| Square roots | `NumberTheory`, `ModularSqrt` | Tonelli-Shanks, from Euclid's lemma, Fermat and the existence of a non-residue upwards |
| Difficulty | `CompactTarget`, `Asert`, `AsertFactor` | both compact-target codecs, the ASERT rule and its approximation of powers of two |
| Addresses | `CashAddrChecksum`, `ConvertBits`, `CashAddr`, `BaseCoding` | CashAddr with its 40-bit checksum; Base58 and base 43 |
| Headers | `HeaderTree`, `HeaderStore`, `HeaderRuns`, `ForkSearch` | chains in per-fork files, the in-place swap with the parent, whole histories of the store, and the search for a server's fork point |
| Protocols | `RequestModel`, `RequestTracking`, `RequestDelivery`, `RequestSubscriptions`, `RequestHandlers`, `LookupRace`, `BlockLookups` | client requests across connections and server switches; racing lookups |
| Keys and phrases | `Bip32`, `Mnemonic` | public and private derivation with cached branches; BIP39 and Electrum phrases |
| Selection and caching | `Prng`, `CoinChooser`, `CollisionHash`, `ExpiringCache`, `ScriptOps` | coin selection, shortened collision hashes, the tick-based cache, script pushes |

How the models are built:

- Code that updates objects, files, arrays or dictionaries is a class or a method with loops, proved against a
  function of the old state; the lemmas about that function carry the properties. `HeaderStore` is proved against
  `HeaderTree`, `RequestHandlers` against `RequestModel` (with the run properties in `RequestTracking`, `RequestDelivery` and
  `RequestSubscriptions`), the
  locked sections in `BlockLookups` against `LookupRace`.
- Errors are values: results, options or an outcome datatype with one constructor for each exception that the
  source distinguishes.
- Hashes, HMAC and curve operations are function parameters. Where more than their length is needed it is a
  hypothesis: `Bip32.GroupLaws` and `Bip32.CollisionFree` (which `Bip32.LawsConsistent` shows can be met), `Mnemonic.Digest`,
  `Prng.Hashes`. Header records are numbers; fee estimates, penalties and the clock are parameters.
- A property of a search or of concurrent threads is stated over every run: a sequence of steps in any order.

Where the code differs from what it says or from what one expects, the model follows the code:

- `base_encode` writes one extra symbol for empty or all-zero input (electronfittexxcoin/bitcoin.py:570-583), so
  the round trip and the agreement of the two encoders hold exactly for inputs with a non-zero byte.
- `encode` of CashAddr accepts hash sizes such as 36 that `decode` refuses (electronfittexxcoin/cashaddr.py:85-95);
  a prefix in mixed case does not survive either. `CashAddr.DecodeOfEncode` has the exact condition. An address
  whose payload is the checksum alone fails on the last symbol it does not have (electronfittexxcoin/cashaddr.py:170).
- The two compact encoders differ above MAX_TARGET, where one clamps: `CompactTarget.EncodersAgree` has the exact
  bound. Compact forms of size below 3 with non-zero dropped bytes do not round-trip.
- The CashAddr checksum sees only the low five bits of a prefix character, so `1` may stand for `q` in a prefix:
  `CashAddr.TypingBurstJudged` has the exact condition.
- A lone zero byte pushed minimally becomes the empty push (electronfittexxcoin/bitcoin.py:396-397).
- In `modular_sqrt` the case p = 2 is never reached: the symbol test before it answers 0
  (electronfittexxcoin/msqr.py:22-27).
- The comment beside `lookup_asynch_all` holds only when an error callback is given; without one a failure is
  counted as a call that does nothing.
- In `save_chunk` the height compared with the checkpoint is computed from the chunk after its lower part was cut
  off, but with the uncut base height (electronfittexxcoin/blockchain.py:347-353).
- When a chain is swapped with its parent, third chains that fork off above the swapped fork point are not moved;
  `HeaderTree.ExchangePreservesMeaning` shows that this is exactly when the swap changes what a chain means.
- A parent may end below the fork point of a child after a chunk or a swap cut it short. The child's next swap then
  asks for a read of negative length (electronfittexxcoin/blockchain.py:371), which is an exception, before anything
  of the swap is written; the header or chunk stays. `HeaderStore.Store.SwapWithParent` has the exact condition for
  one swap, `HeaderRuns.RunCovered` the one for whole histories, `HeaderRuns.RefusedSwap` an input.
- A search that goes back from the header just above the reported tip repeats its request for as long as the tip
  stays and no chain holds the header at it (electronfittexxcoin/network.py:1402-1417): `ForkSearch.AheadOfTipEnds`.
- The exponent of the difficulty rule is truncated toward zero, so a half-life that takes the delay across zero may
  raise it by one unit less than a shift: `Asert.HalfLifeExponent`.
- Catching up goes back from any header that does not follow the chain's top, also from one that a chain holds
  already because another server announced it (electronfittexxcoin/network.py:1461-1472). Such a search ends with
  `bad` on a chain: `ForkSearch.CatchUpFromHeldHeader` has an input, `ForkSearch.BadHeaderIsNew` the exact condition.
- A client request queued with `interface='random'` waits without being sent again when that connection goes down
  while another one is current (electronfittexxcoin/network.py:464-484): `RequestTracking.StrandedRequest` has an
  input, `RequestTracking.OnItsWayExactly` the exact condition; the next switch rescues it.

## Model

| member | source | states |
|---|---|---|
| ModularSqrt.ModularSqrt | electronfittexxcoin/msqr.py:3-82 | for every prime p and every a >= 0: with p odd, a root below p whenever one exists and 0 otherwise; with p = 2 always 0 |
| ModularSqrt.LegendreValues | electronfittexxcoin/msqr.py:84-94 | for odd p the symbol is 0 exactly on multiples of p, otherwise 1 or -1, and 1 on every non-zero square |
| ModularSqrt.RootBySinglePower | electronfittexxcoin/msqr.py:28-29 | when p = 3 (mod 4) and the symbol is 1, one power is a root |
| ModularSqrt.OddPart | electronfittexxcoin/msqr.py:31-38 | p - 1 = s * 2^e with s odd and e at least 1 |
| ModularSqrt.LeastNonResidue | electronfittexxcoin/msqr.py:40-45 | the search for a symbol of -1 ends below p, at the least such number |
| NumberTheory.NonResidueExists | electronfittexxcoin/msqr.py:40-45 | every odd prime has a number whose symbol is -1 (by Fermat and the bound on the roots of a polynomial), so the search ends |
| NumberTheory.Fermat | electronfittexxcoin/msqr.py:84-94 | Fermat's little theorem, on which Euler's criterion rests |
| ModularSqrt.OrderExponent | electronfittexxcoin/msqr.py:68-73 | the inner loop finds the least m with b^(2^m) = 1, and m is below r |
| ModularSqrt.Step | electronfittexxcoin/msqr.py:78-82 | one turn keeps x^2 = ab, g^(2^(r-1)) = -1 and b^(2^(r-1)) = 1 modulo p, with r falling to m |
| ModularSqrt.Refine | electronfittexxcoin/msqr.py:62-82 | from any state with the invariant the loop ends with a square root of a |
| CompactTarget.CompactMeaning | electronfittexxcoin/asert_daa.py:91-104 | the written mantissa has 16 to 23 bits and is the target exactly (size up to 3) or without its lowest bytes |
| CompactTarget.DecodeOfEncode | electronfittexxcoin/asert_daa.py:86-104 | a written target can be read back, is at least 1 and not above the original (clamped to the maximum), and its loss e has e * 2^15 < t |
| CompactTarget.GreatestRepresentable | electronfittexxcoin/asert_daa.py:86-104 | no readable compact form has a value strictly between the written one and the original |
| CompactTarget.EncodeOfDecode | electronfittexxcoin/asert_daa.py:30-40 | writing what was read gives the same bits if and only if the size is at least 3 or the dropped mantissa bytes are zero |
| CompactTarget.CompactUnique | electronfittexxcoin/asert_daa.py:91-104 | a target has only one form with a 16 to 23 bit mantissa |
| CompactTarget.NumBits | electronfittexxcoin/blockchain.py:64-74 | scanning little-endian bytes downwards computes the bit length of the number they hold |
| CompactTarget.ScanCompact | electronfittexxcoin/blockchain.py:88-94 | the byte-scanning form computes the same mantissa and size as the bit-length form for all 256-bit targets |
| CompactTarget.NodeTargetToBits | electronfittexxcoin/blockchain.py:83-104 | the node encoder gives the normalised form of every 256-bit target and refuses larger ones |
| CompactTarget.EncodersAgree | electronfittexxcoin/blockchain.py:83-104 | for a positive 256-bit target the two encoders agree if and only if it is below 2^224 |
| CompactTarget.DecodersAgree | electronfittexxcoin/blockchain.py:107-125 | whatever the ASERT decoder reads, the node decoder reads as the same target |
| CompactTarget.NodeDecodeOfEncode | electronfittexxcoin/blockchain.py:83-125 | the node decoder reads every positive 256-bit target the node encoder writes, with loss e * 2^15 < t |
| Asert.Bounded | electronfittexxcoin/asert_daa.py:115-157 | a result exists exactly when the anchor can be read and the delay is inside the asserted range; its decoded target lies in 1 .. MAX_TARGET |
| Asert.Monotone | electronfittexxcoin/asert_daa.py:115-157 | the decoded next target never falls as time grows nor rises as height grows |
| Asert.ScaledTargetMonotone | electronfittexxcoin/asert_daa.py:134-150 | the scaled target never falls as the exponent grows, also where the fraction wraps into the next shift |
| Asert.NextTarget | electronfittexxcoin/asert_daa.py:150-157 | the result decodes to the scaled target (at least 1) rounded down to the greatest representable one |
| AsertFactor.FactorDoubles | electronfittexxcoin/asert_daa.py:134-141 | the factor approximates a power of two: for every fraction up to a half, its square is the factor of twice the fraction, but for 36 of 65536 units |
| AsertFactor.FactorAtOne | electronfittexxcoin/asert_daa.py:134-141 | the factor is exactly 1 at fraction 0 and 2 at fraction 1 |
| Asert.OnSchedule | electronfittexxcoin/asert_daa.py:122-157 | on schedule the result is the compact form of the anchor target |
| Asert.HalfLifeExponent | electronfittexxcoin/asert_daa.py:122-132 | one half-life later the exponent is one shift higher, or one unit less exactly where the delay crosses zero and the division is not exact |
| Asert.HalfLifeDoubles | electronfittexxcoin/asert_daa.py:122-150 | one half-life later the scaled target is at most double, up to one bit, and at least double for every delay except one that crosses zero with an inexact division |
| CashAddrChecksum.MixIn | electronfittexxcoin/cashaddr.py:31-40 | the five conditional xors give the recursive form that the linearity and injectivity lemmas are about |
| CashAddrChecksum.StepLinear | electronfittexxcoin/cashaddr.py:29-40 | one step is linear: the step of a difference of registers and symbols is the difference of the steps |
| CashAddrChecksum.ComputePolymod | electronfittexxcoin/cashaddr.py:25-42 | the loop computes the left-to-right run of the linear step, with the final 1 added |
| CashAddrChecksum.StepInjective | electronfittexxcoin/cashaddr.py:29-40 | for a fixed symbol the step is invertible on 40-bit states |
| CashAddrChecksum.ShortRunInjective | electronfittexxcoin/cashaddr.py:28-40 | from one state, two different sequences of up to 8 symbols never lead to the same state |
| CashAddrChecksum.BurstDetected | electronfittexxcoin/cashaddr.py:25-42 | different symbol sequences of any length that differ only inside a window of 8 never have the same polymod |
| CashAddrChecksum.ChecksumUnique | electronfittexxcoin/cashaddr.py:53-58 | the appended 8 symbols make the polymod zero, and no other 8 symbols do |
| CashAddrChecksum.GeneratorsReduce | electronfittexxcoin/cashaddr.py:31-40 | the five constants are x^8 reduced by the palindromic code polynomial 1, 19, 3, 25, 11, 25, 3, 19, 1 over the field of 32 elements, and its multiples by 2, 4, 8 and 16 |
| CashAddrChecksum.ShortRun | electronfittexxcoin/cashaddr.py:27-30 | up to seven symbols stand in the register unchanged behind the initial one, so leading zeros count |
| ConvertBits.Convert | electronfittexxcoin/cashaddr.py:61-78 | the accumulator loop cuts the bits of the input into groups of the new width, completing or dropping the rest |
| ConvertBits.PackUnpack | electronfittexxcoin/cashaddr.py:61-78 | 8-to-5 regrouping with padding is undone by 5-to-8 regrouping without; the surplus is less than 5 zero bits |
| ConvertBits.UnpackPack | electronfittexxcoin/cashaddr.py:164-173 | 5-to-8 regrouping of symbols with less than 5 zero surplus bits is undone by 8-to-5 regrouping |
| CashAddr.SizeFieldMeaning | electronfittexxcoin/cashaddr.py:85-99 | a size field announces its own hash size exactly for the eight standard sizes |
| CashAddr.SizeOfMeaning | electronfittexxcoin/cashaddr.py:174-179 | every version byte announces a standard size, which is written with the same three bits |
| CashAddr.EncodesStandard | electronfittexxcoin/cashaddr.py:85-99 | a hash of standard size is encoded whenever its kind is known (or, unchecked, below 32), and fails on nothing but the kind |
| CashAddr.DecodeOfEncode | electronfittexxcoin/cashaddr.py:154-209 | decoding an encoded address returns prefix, kind and hash if and only if the hash has a standard size and the prefix is non-empty, printable, without separator and in lower case, or in upper case with no lower-case letter in the whole address |
| CashAddr.EncodeOfDecode | electronfittexxcoin/cashaddr.py:154-209 | re-encoding any accepted address gives its lower-case form; an accepted lower-case address is given back exactly |
| CashAddr.TypingBurstJudged | electronfittexxcoin/cashaddr.py:45-50 | with at most eight consecutive characters of prefix, separator and body changed, an accepted address is accepted again if and only if the body is the same and changed prefix characters agree in their low five bits |
| CashAddr.AddressBurstRejected | electronfittexxcoin/cashaddr.py:126-136 | mistyping lower-case letters of the prefix or any characters of the body within eight consecutive ones is always rejected |
| CashAddr.TypingBurstRejected | electronfittexxcoin/cashaddr.py:126-136 | changing characters inside any window of 8 of an accepted payload is always rejected |
| HeaderTree.ExchangePreservesMeaning | electronfittexxcoin/blockchain.py:357-389 | when the branches differ at the fork point, the swap keeps what every chain object gives for every height if and only if no third chain forks off above it |
| HeaderTree.ExchangeKeepsMeaning | electronfittexxcoin/blockchain.py:357-389 | without a third fork above the fork point every chain object keeps what it gives, whether or not the branches differ |
| HeaderTree.PairExchanged | electronfittexxcoin/blockchain.py:366-380 | the two chains trade places: each base gives afterwards what the other gave |
| HeaderTree.OthersUnchanged | electronfittexxcoin/blockchain.py:357-389 | without a third fork above the fork point every other chain gives the same header at every height |
| HeaderTree.ExchangeCovered | electronfittexxcoin/blockchain.py:357-389 | after an exchange every parent still holds all headers below its children's fork points if and only if the forks of either chain lie within the branch it now has |
| HeaderTree.SwapOrdersBranches | electronfittexxcoin/blockchain.py:360-362 | after the swap the parent's branch is at least as long, and swapping again does nothing |
| HeaderTree.SaveMeaning | electronfittexxcoin/blockchain.py:404-410 | saving a header adds that header to its chain and changes nothing that any chain gives for any other height, swap included, when a swap meets no third fork |
| HeaderTree.AppendMeaning | electronfittexxcoin/blockchain.py:404-409 | appending changes one height of one chain and what hangs on nothing else |
| HeaderTree.ForkMeaning | electronfittexxcoin/blockchain.py:286-291 | a new fork leaves what every existing chain gives unchanged |
| HeaderTree.ForkReads | electronfittexxcoin/blockchain.py:286-291 | a new fork gives its header at its base, its parent's headers below and none above |
| HeaderStore.WrittenMeaning | electronfittexxcoin/blockchain.py:391-402 | record by record what a file holds after a write with or without truncation |
| HeaderStore.Store.Write | electronfittexxcoin/blockchain.py:391-402 | only the chain's own file changes, as described, and the recorded size is the file's size |
| HeaderStore.Store.Exchange | electronfittexxcoin/blockchain.py:363-389 | files, sizes, bases, parents and dictionary entries of the two chains after the in-place exchange |
| HeaderStore.Store.SwapWithParent | electronfittexxcoin/blockchain.py:357-389 | the store is valid and means the swapped tree, and every dictionary entry is the same object under its new base; the swap fails, and changes nothing, if and only if the parent ends below the fork point |
| HeaderStore.Store.ReadHeader | electronfittexxcoin/blockchain.py:412-433 | reading ends and gives the header of the tree of chains, or none below 0, above the top or for an empty record |
| HeaderStore.Store.SaveHeader | electronfittexxcoin/blockchain.py:404-410 | the store is valid and means the tree with the header appended and swapped if longer; the header stays where the swap fails |
| HeaderStore.Store.SaveChunk | electronfittexxcoin/blockchain.py:345-355 | the store is valid and means the tree with the chunk overlaid (truncating only above the checkpoint) and swapped if longer; the chunk stays where the swap fails |
| HeaderStore.ChunkMeaning | electronfittexxcoin/blockchain.py:345-354 | after a chunk is written the chain gives the chunk at its heights, nothing above them if the chunk ends above the checkpoint, and what it gave before everywhere else |
| HeaderStore.Store.CreateFork | electronfittexxcoin/blockchain.py:286-291 | the store then means the tree with one more chain that holds the header alone |
| HeaderRuns.StepCovered | electronfittexxcoin/blockchain.py:286-410 | a save, chunk or fork leaves every parent holding all headers below its forks if and only if a chunk does not end below a fork of its chain and no fork of a chain that moves up lies beyond the branch it receives |
| HeaderRuns.RunCovered | electronfittexxcoin/blockchain.py:286-410 | over every history of saves, chunks and forks every parent reaches its forks throughout, and no swap fails, if and only if that condition holds at each step |
| HeaderRuns.RefusedSwap | electronfittexxcoin/blockchain.py:357-371 | a history of a chunk, a fork and a save after which the next save of the fork stores its header and fails to swap |
| HeaderRuns.Take | electronfittexxcoin/blockchain.py:286-410 | each step on a valid store leaves a valid store that holds the next tree, failed swaps included |
| HeaderRuns.Replay | electronfittexxcoin/blockchain.py:286-410 | every history leaves a valid store that holds the tree at its end |
| HeaderRuns.WriteKeepsHeaders | electronfittexxcoin/blockchain.py:345-402 | a write keeps all headers of a file if and only if it agrees with those it covers and cuts none off; appending always does |
| HeaderRuns.RunKeepsHeaders | electronfittexxcoin/blockchain.py:286-410 | over every history of such writes and of forks in which no third chain hangs on swapped branches, each chain object still gives every header it once gave |
| ForkSearch.SearchStepProgress | electronfittexxcoin/network.py:1382-1417 | each reply ends the search at the fork point or at the checkpoint, or keeps the invariant with phase or distance strictly smaller; a bad header that was moved is on no chain |
| ForkSearch.SearchResult | electronfittexxcoin/network.py:1378-1492 | every search from either entry with its bad header at or below the tip ends, however the tip rises: bad = good + 1 with the good header on the interface's chain, or the server dropped at the checkpoint; the bad header is the one the search started with or is on no chain |
| ForkSearch.BadHeaderIsNew | electronfittexxcoin/network.py:1378-1492 | a search that is not dropped ends with its bad header on no chain if and only if it started with such a header |
| ForkSearch.HeldBadStays | electronfittexxcoin/network.py:1378-1417 | a search from a header that a chain holds never moves the bad header and never drops the server |
| ForkSearch.CatchUpFromHeldHeader | electronfittexxcoin/network.py:1461-1472 | an input on which catch-up goes back from a header that a chain already holds, and the search ends with it still there |
| ForkSearch.RepliesFall | electronfittexxcoin/network.py:1402-1417 | doubling backwards and halving the gap leave strictly fewer replies to come, measured from any tip reported since the search began |
| ForkSearch.ReachDoubles | electronfittexxcoin/network.py:1402-1406 | while no reply finds the header and the tip stays, request n reaches back 2^n times as far from the tip as the first, down to the checkpoint |
| ForkSearch.SearchIsShort | electronfittexxcoin/network.py:1402-1417 | a search takes at most 2 * bitlength(tip - checkpoint - 1) + 2 replies for the tip it started with, however the tip rises meanwhile |
| ForkSearch.EntriesEstablishInvariant | electronfittexxcoin/network.py:1665-1672 | both ways into the search, this one and catching up (lines 1461-1472), establish its invariant for every header above the checkpoint and up to the tip, held by a chain or not |
| ForkSearch.AheadOfTip | electronfittexxcoin/network.py:1402-1417 | going back from just above the reported tip: the search ends or repeats its request until the tip rises, and then has its invariant |
| ForkSearch.AheadOfTipEnds | electronfittexxcoin/network.py:1402-1417 | a whole search that goes back from just above the reported tip ends if and only if a chain holds the header at the tip or the tip rises some time |
| ForkSearch.FinishCases | electronfittexxcoin/network.py:1418-1457 | at the fork point the chain reaches the good header, as the source asserts, and passes it if it holds the bad one; what follows: dropped, joined to a chain that holds the bad header already or to the parent of a fork there, a rewritten or new fork, or catching up |
| ForkSearch.NewHeaderFinish | electronfittexxcoin/network.py:1418-1457 | a whole search for a header on no chain never ends because a chain holds it: it joins a parent, rests on or continues a chain that ends at the good header, or catches up behind the header itself |
| ForkSearch.Interface.OnHeaderReply | electronfittexxcoin/network.py:1378-1492 | the handler changes the interface exactly as the step and the final decision say |
| RequestTracking.RunConserves | electronfittexxcoin/network.py:873-1074 | over every run, for every request: waiting before + issued = waiting after + answered + cancelled |
| RequestTracking.AnsweredAtMostOnce | electronfittexxcoin/network.py:873-890 | over every run from an empty table a client callback is called at most once per request issued |
| RequestTracking.SwitchRefiles | electronfittexxcoin/network.py:489-521 | a switch re-files each unanswered request, in order, under exactly one fresh id and queues it on the new connection; no old id stays filed |
| RequestTracking.LateReplySilent | electronfittexxcoin/network.py:878-890 | once an id is no longer filed, a reply to it never reaches a client, in any later run |
| RequestTracking.RepliesFromBeforeSwitchSilent | electronfittexxcoin/network.py:754-773 | after a switch no reply to any request sent before it fires a client callback |
| RequestTracking.CarriedWhereQueued | electronfittexxcoin/network.py:464-487 | over every run each waiting request is carried by exactly the connection it was last queued on if that has not gone down since, and by none if it has or if there was none |
| RequestTracking.OnItsWayExactly | electronfittexxcoin/network.py:464-487 | a waiting request is on its way if and only if it was last queued on a connection and that one has not gone down since |
| RequestTracking.StrandedRequest | electronfittexxcoin/network.py:464-484 | a request queued on another connection that then goes down waits although nothing carries it and the current connection is idle |
| RequestTracking.SwitchRescues | electronfittexxcoin/network.py:489-521 | after a switch to another connected server every waiting request is on its way over it, wherever it was queued before |
| RequestTracking.NothingForgotten | electronfittexxcoin/network.py:489-521 | over every run that queues its client requests on the current connection each waiting one is on its way over it; a connection with nothing on it then means nothing is waiting |
| RequestTracking.RunThrottled | electronfittexxcoin/interface.py:382-423 | over every run each connection keeps fewer than max + chunkSize requests unanswered |
| RequestTracking.RunAdvances | electronfittexxcoin/network.py:448-487 | over every run ids grow and no id is filed twice |
| RequestTracking.PendingIssued | electronfittexxcoin/network.py:971-996 | with a connection each queued request that is not a subscription is issued exactly as often as it was queued, and the queue ends empty; without one it stays |
| RequestTracking.CancelledPending | electronfittexxcoin/network.py:998-1027 | a cancellation removes every queued occurrence of a matching request and no other |
| RequestDelivery.TransmissionMoves | electronfittexxcoin/interface.py:382-423 | below the limit a transmission moves a full chunk of queued requests, or all of them if fewer, in order and unchanged; at the limit nothing |
| RequestDelivery.QueuedIsSent | electronfittexxcoin/interface.py:382-423 | while its connection stays up, the request at place k of a queue has been sent after at most k + 1 transmissions made below the limit |
| RequestDelivery.RightAnswer | electronfittexxcoin/network.py:873-890 | over every run a reply handed to a client answers the call this client made, and the client gets that response |
| RequestDelivery.MessagesConserved | electronfittexxcoin/network.py:961-996 | over every run messages handed in are still queued, or were issued, or were cancelled while queued |
| RequestSubscriptions.SubscribedExactly | electronfittexxcoin/network.py:971-989 | over every run a callback is listed for a subscription exactly when a message sent asked for it, and at most once |
| RequestSubscriptions.ReplyNotifies | electronfittexxcoin/network.py:887-917 | a reply no client waits for calls each subscribed callback once, with the response, and no other |
| RequestSubscriptions.CacheIsLastReply | electronfittexxcoin/network.py:912-916 | over every run the cached response of a key is that of the last reply to a subscription of it since the last switch |
| RequestSubscriptions.AnsweredFromCache | electronfittexxcoin/network.py:988-996 | a cached subscription is answered at once with the cached response and not sent; every other message is filed |
| RequestSubscriptions.SharedKey | electronfittexxcoin/network.py:868-871 | two calls share a key exactly when name and first parameter agree |
| RequestSubscriptions.RefusedWhenFull | electronfittexxcoin/network.py:471-474 | a request with a limit is refused exactly when the limit is positive and reached |
| RequestHandlers.Interface.SendRequests | electronfittexxcoin/interface.py:391-423 | the first queued requests, up to the throttle, move to the table of unanswered ones |
| RequestHandlers.Interface.TakeReply | electronfittexxcoin/interface.py:493-499 | a known wire id is answered once, an unknown one changes nothing |
| RequestHandlers.Network.QueueRequest | electronfittexxcoin/network.py:448-487 | files a client request under a fresh id and queues it on the current or another chosen connection, keeps it for later when there is none, or refuses it when the queue is too full |
| RequestHandlers.Network.SwitchToInterface | electronfittexxcoin/network.py:754-773 | the whole new state of a switch: nothing for the current server, no current connection for an unknown one, else everything re-filed |
| RequestHandlers.Network.ProcessPendingSends | electronfittexxcoin/network.py:971-996 | queued messages are subscribed, answered from the cache or filed, in order; nothing happens without a connection |
| RequestHandlers.Network.ProcessReply | electronfittexxcoin/network.py:873-920 | the client callback of the filed request, or else the subscribers, are called; the reply to a subscription is cached |
| RequestHandlers.Network.CancelRequests | electronfittexxcoin/network.py:998-1074 | exactly the matching requests and queued messages of the callback are removed |
| LookupRace.StepInvariant | electronfittexxcoin/cashacct.py:697-717 | every atomic move of any lookup thread keeps the counters in step with the threads |
| LookupRace.ExactlyOneCallback | electronfittexxcoin/cashacct.py:690-749 | when no thread can move, exactly one callback was made: success if and only if a lookup was counted as successful |
| LookupRace.AnyInterleaving | electronfittexxcoin/cashacct.py:690-749 | for any number of servers and any interleaving: at most 4n moves, never more than one callback, exactly one at the end |
| BlockLookups.ActConsistent | electronfittexxcoin/cashacct.py:1328-1357 | a block is in flight exactly while one live lookup serves it |
| BlockLookups.HistoryConserves | electronfittexxcoin/cashacct.py:1328-1357 | for every callback pair: waiting before + registered = waiting after + called |
| BlockLookups.EachPairCalledOnce | electronfittexxcoin/cashacct.py:1328-1357 | over every history no pair is called more often than registered, and at quiescence each was called exactly that often |
| BlockLookups.RightCallback | electronfittexxcoin/cashacct.py:1328-1349 | over every history a pair's success callback is called exactly as often as the pair was waiting when a lookup for its block reported a success that verified, its error callback exactly as often as when one reported anything else |
| BlockLookups.NoErrorCalls | electronfittexxcoin/cashacct.py:1328-1349 | when every lookup that reports succeeds and verifies, no error callback is called |
| BlockLookups.SharedCounters.SuccessSection | electronfittexxcoin/cashacct.py:697-705 | the locked section of a success and whether its thread calls back |
| BlockLookups.SharedCounters.ErrorSection | electronfittexxcoin/cashacct.py:706-717 | the locked section of a failure and whether its thread calls back |
| BlockLookups.Verifier.VerifyBlock | electronfittexxcoin/cashacct.py:1350-1357 | a registration joins the lookup in flight or starts one |
| BlockLookups.Verifier.OnOutcome | electronfittexxcoin/cashacct.py:1328-1349 | an outcome takes the whole list of its block and calls each pair in it |
| BaseCoding.BaseEncode | electronfittexxcoin/bitcoin.py:556-585 | the encoder computes the recoding of the bytes: leading zeros kept one for one, the rest written as a number |
| BaseCoding.BaseDecode | electronfittexxcoin/bitcoin.py:588-622 | the decoder computes the recoding of the symbols, and reports forbidden characters and a wrong length |
| BaseCoding.RecodeRoundTrip | electronfittexxcoin/bitcoin.py:556-622 | recoding and recoding back gives the same digits if and only if one of them is not zero |
| BaseCoding.DecodeOfEncode | electronfittexxcoin/bitcoin.py:556-622 | decoding undoes encoding, in base 58 and base 43, if and only if the byte string has a non-zero byte; the length check then passes |
| BaseCoding.EncodeOfDecode | electronfittexxcoin/bitcoin.py:556-622 | encoding undoes decoding of an accepted string if and only if it has a symbol other than the zero symbol |
| BaseCoding.Encode58 | electronfittexxcoin/address.py:822-837 | the second Base58 encoder computes the recoding without a digit for the number zero |
| BaseCoding.Base58EncodersAgree | electronfittexxcoin/address.py:822-837 | the two independent Base58 encoders agree if and only if the byte string has a non-zero byte |
| BaseCoding.AlphabetsDistinct | electronfittexxcoin/bitcoin.py:549-553 | the alphabets have 58 and 43 different characters |
| BaseCoding.Alphabet58Meaning | electronfittexxcoin/bitcoin.py:549-550 | base 58 uses digits, capitals and small letters in ascending order, without 0, O, I and l |
| CollisionHash.MinimalHashes | electronfittexxcoin/cashacct.py:1550-1576 | every registered hash of every name is listed with its shortest prefix, and nothing else is listed |
| CollisionHash.ShortestMeaning | electronfittexxcoin/cashacct.py:1550-1576 | the prefix matches no different hash of the name and no shorter one has a chance: each matches another registration; empty if and only if the name occurs once; full for a repeated hash |
| CollisionHash.NeighboursSuffice | electronfittexxcoin/cashacct.py:1558-1570 | in a sorted list a conflict with any registration is a conflict with one of the two neighbours |
| CollisionHash.BeforeMeaning | electronfittexxcoin/cashacct.py:1545-1548 | the order of the list: the first place where two strings differ decides, or else the length; any two strings are ordered |
| CollisionHash.Measure | electronfittexxcoin/cashacct.py:1558-1570 | comparing sorted neighbours only, the array ends with the shortest sufficient length of every registration |
| ScriptOps.GetOps | electronfittexxcoin/address.py:728-775 | the cursor loop computes the parse of the whole script, or reports truncation |
| ScriptOps.AcceptedScripts | electronfittexxcoin/address.py:728-775 | the accepted scripts are exactly the written forms of well-formed operations, each consumed exactly, and each has only one reading |
| ScriptOps.PushIsWritten | electronfittexxcoin/bitcoin.py:367-403 | a push is the written form of one well-formed operation |
| ScriptOps.PushOverflows | electronfittexxcoin/bitcoin.py:367-378 | a push fails exactly when the data has 2^32 bytes or more |
| ScriptOps.PushHeaderBytes | electronfittexxcoin/bitcoin.py:367-378 | a long push starts with the code of its length's width and the length, low byte first, and ends with the data |
| ScriptOps.SinglePushes | electronfittexxcoin/bitcoin.py:384-403 | the minimal push of a single byte: one byte for 0, for 1 to 16 and for 0x81, two otherwise |
| ScriptOps.LittleEndianByte | electronfittexxcoin/bitcoin.py:367-378 | byte i of a little-endian number counts the 256^i |
| ScriptOps.ParseOfPushes | electronfittexxcoin/bitcoin.py:384-403 | parsing any concatenation of pushes yields one operation per push, with the pushed string if and only if minimal pushing met neither a lone zero byte nor, without synthesized data, a small number |
| ScriptOps.MinimalPushIsShortest | electronfittexxcoin/bitcoin.py:384-403 | no operation that stands for the data (other than a lone zero byte) is written in fewer bytes than its minimal push |
| Mnemonic.Inner | electronfittexxcoin/mnemonic.py:349-361 | the phrase made from entropy spells, eleven bits a word, the entropy and the first bits of its hash |
| Mnemonic.IsChecksumValid | electronfittexxcoin/mnemonic.py:371-396 | accepts a text if and only if its words spell some supported entropy and its checksum; unknown words are reported apart |
| Mnemonic.PassesIsMatch | electronfittexxcoin/mnemonic.py:388-396 | the comparison of base-2048 arithmetic is the comparison of the bit strings |
| Mnemonic.MadePhrasePasses | electronfittexxcoin/mnemonic.py:349-396 | every phrase made from 16, 20, 24, 28 or 32 bytes of entropy passes the test |
| Mnemonic.MnemonicEncode | electronfittexxcoin/mnemonic.py:415-422 | the words are the base-n digits of the number, least significant first |
| Mnemonic.MnemonicDecode | electronfittexxcoin/mnemonic.py:424-430 | the number of the words read backwards, or the failure on an unknown word |
| Mnemonic.DecodeOfEncode | electronfittexxcoin/mnemonic.py:415-430 | decoding undoes encoding for every natural number |
| Mnemonic.EncodeOfDecode | electronfittexxcoin/mnemonic.py:415-430 | encoding undoes decoding if and only if the last word is not the first of the list |
| Mnemonic.SplitOfJoin | electronfittexxcoin/mnemonic.py:422-427 | splitting a joined phrase gives its words back |
| Prng.PRNG.GetBytes | electronfittexxcoin/coinchooser.py:44-49 | the next n bytes of one fixed stream, whatever was read before |
| Prng.SplitReads | electronfittexxcoin/coinchooser.py:44-49 | however reads are split, they give the bytes of one read of the total length |
| Prng.PRNG.RandInt | electronfittexxcoin/coinchooser.py:51-59 | a number in the range, determined by the stream and the position |
| Prng.BytesFromMeaning | electronfittexxcoin/coinchooser.py:53-58 | the number of bytes drawn is the least that can tell the values apart |
| Prng.BlocksAreChained | electronfittexxcoin/coinchooser.py:41-49 | the stream starts with the first digest and each block of 32 bytes is the hash of the one before |
| Prng.PowerDraw | electronfittexxcoin/coinchooser.py:51-59 | a draw below 256^m takes m bytes, which are its digits, the highest first |
| Prng.DrawBytesTotal | electronfittexxcoin/coinchooser.py:64-68 | a shuffle uses just the bytes of its draws |
| Prng.PRNG.Shuffle | electronfittexxcoin/coinchooser.py:64-68 | an in-place permutation determined by the items, the stream and the position |
| Prng.EveryOrder | electronfittexxcoin/coinchooser.py:64-68 | every order of the items is the result of some draws |
| CoinChooser.BucketizeCoins | electronfittexxcoin/coinchooser.py:87-99 | one non-empty bucket an address, coins in order, every coin in exactly one bucket, and values and sizes are the totals of the coins |
| CoinChooser.StripUnneeded | electronfittexxcoin/coinchooser.py:73-80 | what remains is sufficient and, if paying takes anything, insufficient without its least valuable bucket |
| CoinChooser.Chooser.BucketCandidates | electronfittexxcoin/coinchooser.py:217-243 | every candidate uses each bucket at most once, suffices and needs its least valuable bucket; all sufficient singletons are among them; giving up implies the whole set is insufficient; the result is determined by buckets, payment and generator state |
| CoinChooser.ChoicesPromise | electronfittexxcoin/coinchooser.py:217-240 | what the choices determined by the seed promise, over at most 100 attempts |
| CoinChooser.Chooser.ChooseBuckets | electronfittexxcoin/coinchooser.py:245-251 | the winner is the first of the candidates tried that has the least penalty of them all, every sufficient singleton being tried; no result exactly without buckets |
| CoinChooser.CoinsSpentOnce | electronfittexxcoin/coinchooser.py:87-99 | a candidate spends no coin more often than it is there, and its coins are worth at least the amount and the fee |
| CoinChooser.CoinsPay | electronfittexxcoin/coinchooser.py:185-190 | buckets suffice if and only if their coins together are worth at least the amount and the fee for their size |
| CoinChooser.SumsUnordered | electronfittexxcoin/coinchooser.py:185-190 | value and size, hence sufficiency, depend on which buckets are taken and not on their order |
| Bip32.StepCommutes | electronfittexxcoin/bitcoin.py:987-1021 | one step without hardening commutes with taking the public side, failures included; a hardened one has no public counterpart |
| Bip32.PathCommutes | electronfittexxcoin/bitcoin.py:1180-1199 | along every path without hardened steps the public side of the private child is the publicly derived child |
| Bip32.HardenedStops | electronfittexxcoin/bitcoin.py:1008-1010 | a path with a hardened step cannot be followed publicly |
| Bip32.PrivChildrenDiffer | electronfittexxcoin/bitcoin.py:987-1004 | with a collision-free digest two private children coincide if and only if node and index do, hardened or not |
| Bip32.PubChildrenDiffer | electronfittexxcoin/bitcoin.py:1006-1021 | the same for public children |
| Bip32.PathsDiffer | electronfittexxcoin/bitcoin.py:1196-1199 | different paths of one length lead to different private nodes |
| Bip32.ChildPoint | electronfittexxcoin/bitcoin.py:993-1004 | the child's point is the parent's plus the authenticated multiple of the generator, and its chain code the rest of the digest, hardened or not |
| Bip32.Bip32PrivateKey | electronfittexxcoin/bitcoin.py:1196-1199 | the loop follows the whole path |
| Bip32.Bip32PublicDerivation | electronfittexxcoin/bitcoin.py:1180-1193 | the loop derives the extended key at the end of the path, with its depth, parent fingerprint and index |
| Bip32.PubChildNamesParent | electronfittexxcoin/bitcoin.py:1180-1193 | a derived extended public key is the child of the one above it, names it by fingerprint and stands one level deeper under its index |
| Bip32.PrivChildNamesParent | electronfittexxcoin/bitcoin.py:1158-1177 | the same for extended private keys, hardened steps included |
| Bip32.ReadableXprv | electronfittexxcoin/bitcoin.py:1075-1085 | an extended private key can be read exactly when its secret has a public key |
| Bip32.ExtendedKeysCommute | electronfittexxcoin/bitcoin.py:1158-1193 | deriving below an extended private key and taking its public half is deriving below the public key: same place, chain code and key |
| Bip32.WatchingMatchesSpending | electronfittexxcoin/keystore.py:297-312 | the watching-only key of an address is the public key of its spending key, and exists with it except when child 0 of the master or the branch does not exist or the depth is used up |
| Bip32.Keystore.DerivePubkey | electronfittexxcoin/keystore.py:297-305 | with any contents of the cached branches the key is the one derived afresh, and the caches stay right |
| Bip32.Keystore.AddXprv | electronfittexxcoin/keystore.py:409-412 | a new private key replaces the public one and clears the cached branches |
| Bip32.Keystore.GetPubkeyFromXpub | electronfittexxcoin/keystore.py:307-312 | follows the sequence below an extended public key |
| Bip32.Keystore.GetPrivateKey | electronfittexxcoin/keystore.py:414-418 | the secret at the end of the sequence |
| ExpiringCache.PassMeaning | electronfittexxcoin/caches.py:181-197 | after a pass the size is at most maxlen; nothing is timed out at an age up to the timeout; exactly the excess is evicted |
| ExpiringCache.PassKeepsYoung | electronfittexxcoin/caches.py:181-190 | a pass keeps every age below two timeouts |
| ExpiringCache.RunBounds | electronfittexxcoin/caches.py:181-257 | over every run of accesses, stores and passes no entry reaches the age of two timeouts and the size after a pass is at most maxlen |
| ExpiringCache.EntriesBearLastUse | electronfittexxcoin/caches.py:54-71 | over every run each entry holds the value last stored and bears the tick of its last access or store |
| ExpiringCache.Cache.TryToExpireOldItems | electronfittexxcoin/caches.py:202-239 | exactly num entries are dropped and no dropped one was accessed later than a kept one |
| ExpiringCache.Cache.RemoveTimedOutItems | electronfittexxcoin/caches.py:241-257 | exactly the entries older than the cutoff are dropped and counted |
| ExpiringCache.Cache.Expire | electronfittexxcoin/caches.py:183-197 | one cache in a pass: timeouts first, then the overflow |
| ExpiringCache.Manager.PassAll | electronfittexxcoin/caches.py:181-197 | the tick rises by one and every cache passes it |
| ExpiringCache.Cache.Get | electronfittexxcoin/caches.py:62-69 | a hit gives the value and refreshes the entry, a miss changes nothing |
| ExpiringCache.Cache.Put | electronfittexxcoin/caches.py:70-71 | the entry is stored with the present tick |

## Left out

- Forks above a swapped fork point: `swap_with_parent` does not re-parent them; the exact condition is proved, what such chains then mean is not.
- HeaderStore.Store.SaveHeader: header records are whole and numbered; partial records at the end of a file, locks, flushing and missing files are not modelled.
- HeaderStore.Store.SwapWithParent: the exception of a failed read is an outcome; what the callers do with it, which is to drop the server, is left out.
- HeaderStore.Store.ReadHeader: the optional chunk of headers not yet stored is not consulted.
- Proof of work and linkage of stored headers (`verify_header`, `connect_chunk`): the code accepts a bits mismatch and stores a chunk after a failed check, so there is no such guarantee to prove.
- ForkSearch.BadHeaderIsNew: stored chains are taken to be linked above the checkpoint, so a chain that holds a header of the server holds those before it.
- ForkSearch.SearchResult: server headers and stored chains are fixed during a search, the checkpoint height is positive, and networks without a checkpoint are not modelled; replies of other shapes and timeouts drop the server and are left out.
- Asert.Bounded: the floating-point division of the exponent is exact division truncated toward zero.
- CashAddr.DecodeOfEncode: case mapping is that of the ASCII letters.
- RequestHandlers.Network.QueueRequest: the random draw is any choice, including none; the failure of a request without callback and without a connection is left out.
- RequestHandlers.Network.SwitchToInterface: the calls re-sent for subscriptions and fees are a parameter; the background connection to an unknown server, status and notifications are left out, and connections are values in a dictionary, so aliasing with `Interface` objects is not captured.
- RequestHandlers.Interface.SendRequests: a failing or blocking pipe is left out.
- RequestSubscriptions.SubscribedExactly: taking back subscriptions is left out.
- RequestHandlers.Network.ProcessReply: unsolicited notifications and the dispatch of results by method name are left out; the subscription key is the pair of name and first parameter rather than their concatenation.
- LookupRace.AnyInterleaving: the staggering delays are any pauses; a lookup thread is assumed to report exactly once, as `lookup_asynch` does.
- Mnemonic.IsChecksumValid: the text is the normalised one, white space is ASCII white space, and drawing new entropy until the phrase is not ambiguous is left out.
- Bip32.Bip32PublicDerivation: the path is a list of indexes below 2^32 rather than a string, and extended keys are records rather than Base58 strings; passwords are left out.
- CoinChooser.Chooser.BucketCandidates: the candidates are in order of discovery, not in the order of a Python set; change outputs and the penalty itself are left out, the winner has the least of any penalty given.
- CollisionHash.MinimalHashes: names are already lower-cased and sorted with their full hashes, as its callers do.
- ExpiringCache.Cache.TryToExpireOldItems: dictionaries are unordered, so entries of equal tick may be dropped in any order; other threads act between passes, not inside one.
- Base58.decode of address.py: it converts through single bytes and cannot decode real payloads; `base_decode` is modelled instead.
- SHA, HMAC, AES, scrypt and secp256k1 themselves, ECIES and BIP38.
- Files, sockets, TLS, JSON-RPC, plugins, hardware devices, user interface, exchange rates and packaging.
- Contacts, invoices, command parsing, header field packing, padding and variable-length integers: easy members only.
