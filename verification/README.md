# Verified model of the node's core data structures

This project models, in Dafny, the parts of the node whose correctness is a matter of state and
arithmetic alone, and proves what each of them is for. Code that changes things step by step in
C++ is modelled step by step: classes with the source's fields, methods with its loops, branches
and asserts. Each method is proved against a specification on values, and the specifications are
what the theorems are about.

* **Address manager** (`AddrMan*.dfy`). `AddrManState` has the tables and the invariant that
  `Check_` samples; `AddrManSpec` says what `Add_`, `Good_` and the others do to the *view*, the map
  from addresses to their records, without ids, counts or positions; `AddrMan` is the class. The bucket
  and position hashes are functions in `Env`; random draws and the clock are parameters. `AddrManLaws` says in seconds,
  slots and draws what the specifications come to, `AddrManRead` what reading any stream gives.
* **Unspent outputs** (`Coins*.dfy`). A stack of caches over a database, of any height, stands for one
  flat map from txid to unspent coins (`CoinsLayers`, `CoinsView`); pruned coins count as absent.
  `CoinsUndo` spends outputs and takes it back, `CoinsStream` is the stored form.
* **Zerocoin denominations** (`Denominations`, `ChangeMaking`, `ZerocoinSpends`, `ZerocoinChange`,
  `MintChoice`, `MintSelection`). Greedy selection decides subset sums because every denomination
  divides the next; change making rests on that.
* **Big integers** (`Uint*.dfy`, `ArithUint`, `CompactForm`). Arrays of 32-bit limbs of any width, and the
  compact form of difficulty targets.
* **Text codecs** (`Radix`, `Base58*`, `Bech32*`). Base 58 with its buffer bounds, and Bech32 (BIP 173) with the
  algebra of its checksum: GF(32) acting on remainders (`Bech32Distance`) and roots in GF(1024)
  (`Bech32Roots`, `Bech32Triples`); `Bech32Prefix` has the human-readable part.
* **Check queue** (`CheckQueue*.dfy`). One master and any number of workers as a transition system over the
  critical sections; the class has the sections as methods.
* **Stake modifier** (`StakeModifier`, `StakeLaws`), **chain index** (`BlockIndex`, `Chain`) and **amount compression**
  (`Compressor`).

The files ending in `Laws` and `Bech32Vector` tie the specifications to numbers that can be checked without them:
closed forms, the constants' values, and the vectors that the repository's tests and comments give.

`Arithmetic` and `Results` hold what several of these share. `dafny verify dfyconfig.toml` checks everything.

Where code and comments or expectations differ, the code is modelled and the difference is stated exactly:

* `Clear` does not empty the two maps, so it is right exactly on an object that knows nobody
  (`AddrManStream.ClearNeedsFreshObject`); `Unserialize` starts with it and is specified for a fresh object.
* No time that an operation is given can break the indexes, but `Good_` at a time that is not positive and `Attempt_`
  at a negative one make `Check_` complain, exactly if the service is known (`AddrManSpec.GoodKeepsSane`,
  `AddrManSpec.AttemptKeepsSane`, `AddrManTheorems.ValidPassesCheck`).
* `*=` with the object itself as the argument gives zero (`ArithUint.BaseUint.Multiply`).
* Undo data carry the coinstake flag of a transaction's last output, but disconnecting a block does not put it
  back (`CoinsUndo.UndoRestores`, with an input in `CoinsUndo.UndoForgetsStake`).
* A flush pushes a zero best block down (`CoinsLayers.FlushBestBlock`).
* `getSpends` marks no mint as taken: for a count above the unused mints it lists mints again and counts their value
  again, and it ends all the same if there is one (`MintSelection.LoopsEndIff`, `MintSelection.SpendsOnce`, with inputs in
  `MintSelection.SpentTwice` and `MintSelection.HeldTwice`).
* `SelectMintsFromList` takes a change count of zero for a failure and clears the selection. A comment holds that this
  only happens for want of change or of spends, but targets that are covered come to nothing: exactly when
  `ZerocoinChange.NoChange` says, and for whole coins when `MintSelection.WholeTargets` does (with inputs in
  `MintSelection.OverTheLimit` and `MintSelection.HalfACoin`).

## Model

| member | source | states |
|---|---|---|
| AddrMan.AddrMan.constructor | src/addrman.h:451-454 | a new manager is valid and knows nobody |
| AddrMan.AddrMan.Find | src/addrman.cpp:76-87 | finds an address exactly when it is in the view, with the id that `mapAddr` and `mapInfo` agree on |
| AddrMan.AddrMan.Create | src/addrman.cpp:89-99 | the new entry gets an unused id, is appended to `vRandom`, and is in no table |
| AddrMan.AddrMan.SwapRandom | src/addrman.cpp:101-119 | exchanges two positions of `vRandom` and the two back references |
| AddrManSteps.SwapRandomStep | src/addrman.cpp:101-119 | swapping keeps every index consistent and shows nobody anything |
| AddrMan.AddrMan.Delete | src/addrman.cpp:121-133 | removes exactly one address from `mapInfo`, `mapAddr`, `vRandom` and the count of new entries |
| AddrManSteps.DeleteStep | src/addrman.cpp:121-133 | deleting an entry that is in no table keeps all indexes consistent and forgets only its address |
| AddrMan.AddrMan.ClearNew | src/addrman.cpp:135-148 | frees the slot; its holder is forgotten exactly if that was its only slot; the reference count asserted positive is positive |
| AddrMan.AddrMan.LeaveNewBuckets | src/addrman.cpp:152-160 | after the bucket loop the entry is in no new slot and its reference count is 0, as asserted |
| AddrMan.AddrMan.MoveBack | src/addrman.cpp:169-190 | the evicted tried entry goes to the new slot of its own source, whoever held that giving way |
| AddrMan.AddrMan.MakeTried | src/addrman.cpp:150-196 | the address ends in its one tried slot and in no new slot; the slot is empty when it is written, as asserted |
| AddrMan.AddrMan.FindBucket | src/addrman.cpp:224-234 | finds a new bucket holding the id from any starting point, or there is none |
| AddrMan.AddrMan.Good | src/addrman.cpp:198-245 | at any time: keeps the invariant of the indexes and changes the view as `GoodSpec` says; the exit for "no bucket found" is unreachable; the times stay as `Check_` asks exactly if the time is positive or the service is not known |
| AddrManSpec.GoodKeepsSane | src/addrman.cpp:213-222 | for new and tried entries alike, `Good_` leaves the times as `Check_` asks if and only if the time is positive or the service is not known |
| AddrManSpec.AttemptKeepsSane | src/addrman.cpp:329-331 | `Attempt_` does if and only if the time is not negative or the service is not known |
| AddrManSpec.AddKeepsSane | src/addrman.cpp:247-313 | `Add_` always does |
| AddrManTheorems.GoodForgetsAtMostOne | src/addrman.cpp:198-245 | `Good_` adds nobody and forgets at most one address, never a tried one nor the one it is told about |
| AddrManLaws.GoodRecords | src/addrman.cpp:213-243 | a success of a known service sets both times, resets the attempts, and makes the address tried |
| AddrManLaws.GoodSpares | src/addrman.cpp:150-196 | of all others, a tried address in the same slot goes back to the one new slot its own source gives, with its statistics, a new one loses that slot at most, and the rest stay as they were |
| AddrMan.AddrMan.Refresh | src/addrman.cpp:257-264 | updates time and services of a known address as announced |
| AddrMan.AddrMan.WinsSlot | src/addrman.cpp:266-283 | a known address earns another slot exactly under the four conditions, the stochastic one included |
| AddrMan.AddrMan.Enrol | src/addrman.cpp:284-289 | an unknown address is created with the penalised time and counted as new |
| AddrMan.AddrMan.Place | src/addrman.cpp:291-311 | takes the slot the hashes give if its holder yields, and otherwise drops an entry that has no slot |
| AddrMan.AddrMan.Add | src/addrman.cpp:247-313 | keeps the whole invariant, changes the view as `AddSpec` says, and reports exactly the routable unknown addresses |
| AddrManTheorems.AddForgetsAtMostOne | src/addrman.cpp:247-313 | only the announced address can be added; at most one other is forgotten, never a tried one |
| AddrManLaws.AddRefreshes | src/addrman.cpp:256-264 | the time of a known address never falls, lags an announcement by a day and the penalty at most, is the old one or no later than announced, and changes exactly if the gap is more than the penalty and an hour, or a day; services are added and nothing else changes |
| AddrManLaws.AddWinsSlot | src/addrman.cpp:266-311 | a known address wins the slot that its service and the source give exactly if it is new, the announcement is news, it has not eight slots, two to the number of its slots divides the draw, and the holder of the slot is terrible |
| AddrManLaws.AddEnters | src/addrman.cpp:284-311 | an unknown address is entered, with what was announced and the penalty taken off its time, exactly if the holder of its slot is terrible or has another slot |
| AddrManLaws.AddSpares | src/addrman.cpp:291-311 | every other address loses the slot in question at most; one that is forgotten had no other and was terrible |
| AddrManLaws.TerribleIff | src/addrman.cpp:34-52 | which entries are terrible, in seconds and numbers of attempts |
| AddrManLaws.BucketsAre | src/addrman.cpp:13-32 | which hashes of what, modulo which numbers, give bucket and position |
| AddrManLaws.TriedSpread | src/addrman.cpp:13-18 | all tried addresses of one group share eight buckets |
| AddrManLaws.NewSpread | src/addrman.cpp:20-26 | all addresses that sources of one group announce share 64 buckets |
| AddrManLaws.PlacesAre | src/addrman.h:129-145 | an address of a valid manager is in one to eight new slots of 1024 times 64, or in its one tried slot of 256 times 64 |
| AddrManLaws.ViewIsHoused | src/addrman.cpp:391-397 | no address of a valid manager is new without a slot, which the laws of `Add_` presuppose |
| AddrMan.AddrMan.Attempt | src/addrman.cpp:315-332 | at any time: changes only the statistics of the exact service and keeps the invariant of the indexes |
| AddrMan.AddrMan.Connected | src/addrman.cpp:472-490 | moves the time of the exact service on after 20 minutes, and keeps the invariant |
| AddrManLaws.AttemptRecords | src/addrman.cpp:315-332 | an attempt counts for the exact service and sets its last try, and nothing else |
| AddrManLaws.ConnectedLag | src/addrman.cpp:472-490 | a connection brings the time of the exact service to within twenty minutes, never back, and changes it only if it was further off |
| AddrMan.AddrMan.SetServices | src/addrman.cpp:492-505 | replaces the services of the exact service, and keeps the invariant |
| AddrManLaws.ServicesReplaced | src/addrman.cpp:492-505 | the services of the exact service are what was given, and nothing else changes |
| AddrMan.AddrMan.GetAddr | src/addrman.cpp:451-470 | tells distinct known addresses that are not terrible, up to the limit, and stops short of the limit only when all of those have been told; only the order of `vRandom` changes |
| AddrManMoves.SizeIs | src/addrman.cpp:379-380 | `vRandom` lists as many entries as the two counters add up to and as there are known addresses |
| AddrManTheorems.ValidPassesCheck | src/addrman.cpp:373-448 | under the invariant every operation keeps, the tests of `Check_` all pass if and only if the times are sane and the key is not null |
| AddrManTheorems.ViewIsExclusive | src/addrman.cpp:413-438 | no two addresses share a slot of either table |
| AddrManTheorems.ViewDeterminesTables | src/addrman.h:249-277 | key, services and places determine both bucket tables up to the choice of ids |
| AddrManTheorems.PersistedTables | src/addrman.h:249-277 | what is written and read back has the same two bucket tables up to ids, and its times stay sane |
| AddrMan.AddrMan.WriteEntries | src/addrman.h:292-311 | writes the new (or tried) entries in the order of ids and numbers them; the two asserts on the counters never fire |
| AddrMan.AddrMan.WriteBucket | src/addrman.h:313-324 | writes the size of a bucket and the numbers of the entries in it |
| AddrMan.AddrMan.Serialize | src/addrman.h:278-326 | writes the stream that `Encodes` describes, item by item |
| AddrManStream.EncodedHeader | src/addrman.h:278-291 | the header: version 1, key size 32, key, both counts, and 1024 with bit 30 flipped |
| AddrMan.AddrMan.Clear | src/addrman.h:431-449 | resets everything but the two maps |
| AddrManStream.ClearNeedsFreshObject | src/addrman.h:431-449 | `Clear` on a valid manager leaves a valid one exactly when there was nothing to clear |
| AddrMan.AddrMan.LoadNew | src/addrman.h:349-367 | entries of the new table get ids 0, 1, 2, ... and back references; of a serialized manager all are read |
| AddrMan.AddrMan.LoadTried | src/addrman.h:369-388 | of a serialized manager every tried entry gets its slot back and none is lost |
| AddrMan.AddrMan.LoadPositions | src/addrman.h:390-406 | of a serialized manager every new slot gets its entry back |
| AddrMan.AddrMan.Prune | src/addrman.h:408-418 | drops exactly the untried entries with a reference count of zero, counting down, and leaves the others as they were; nothing at all is dropped after a round trip |
| AddrManStream.Restored | src/addrman.h:278-424 | reading back all that was written gives a valid manager with the same key and view, and nothing to prune |
| AddrManLoad.EnterIff | src/addrman.h:350-355 | reading an entry keeps the indexes in agreement if and only if its address was not known |
| AddrManLoad.EnterTried | src/addrman.h:371-385 | so does reading a tried entry that finds its slot free |
| AddrManLoad.TakeSlot | src/addrman.h:390-406 | and placing an entry in a free slot of a new bucket, stored or given by its own source |
| AddrManLoad.AllPlaced | src/addrman.h:408-418 | once the entries without a slot are gone, the whole invariant holds |
| AddrMan.AddrMan.Unserialize | src/addrman.h:328-424 | into a fresh object, the stream of any valid manager restores a valid manager with the same key, the same view (the time of the last attempt is not stored) and the same bucket tables up to ids; any other stream that is read to its end, has no address twice and no negative count, gives a valid manager under the stream's key that is what the stream says (`ReadBack`), whatever the version and the bucket count |
| AddrManRead.ReadBackIs | src/addrman.h:328-424 | what an orderly stream says: every address known has the record of its entry, tried or new as this is, in slots that the entry asks for; the tried slot of every tried entry is held by the first that has it; a new slot asked for, by a stored position or else by the entry's own source, is held by some address, without stored positions by the first that asks, unless the entry already has eight: so nothing is lost but to another entry |
| AddrManRead.NewUpToStep | src/addrman.h:349-367 | each new entry is read under its number; when the positions are of no use it takes its own source's slot unless an earlier entry has it |
| AddrManRead.TriedUpToStep | src/addrman.h:371-387 | each tried entry takes its slot unless an earlier one has it |
| AddrManRead.PositionTaken | src/addrman.h:390-406 | each stored position is taken unless the slot is or the entry has eight |
| CoinsLayers.FetchKeepsInv | src/coins.cpp:86-102 | a fetch keeps the flag invariant of every layer: FRESH means the layers below have nothing unspent |
| CoinsLayers.FetchKeepsFlat | src/coins.cpp:86-102 | a fetch never changes what the stack stands for |
| CoinsLayers.ModifyStep | src/coins.cpp:114-131 | opening a modifier keeps the invariant and the view, and leaves the entry dirty in the top layer |
| CoinsLayers.ReleaseFlat | src/coins.cpp:277-285 | closing a modifier changes the flat map for its txid only: pruned coins leave it, others replace it |
| CoinsLayers.MissingMeansFresh | src/coins.cpp:172-180 | an entry of a child without one in the parent is FRESH: the assert in `BatchWrite` never fires |
| CoinsLayers.FlushFlat | src/coins.cpp:165-207 | after a flush, parent and child stand for exactly the flat map the child stood for before, at any height of the stack |
| CoinsLayers.FlushToDbFlat | src/coins.cpp:202-207 | the same for the lowest cache and the database |
| CoinsLayers.FlushBestBlock | src/coins.cpp:153-163 | a flush keeps the best block exactly if the child had one set, or none was set anywhere in between: a zero is pushed down as it is |
| CoinsView.CoinsViewDB.BatchWrite | src/txdb.cpp:58-77 | the database takes over dirty entries, erases pruned ones, and the best block unless it is zero |
| CoinsView.CoinsViewCache.constructor | src/coins.cpp:79 | a new cache changes nothing about what is seen |
| CoinsView.CoinsViewCache.FetchCoins | src/coins.cpp:86-102 | refines the layered fetch; the view through every layer is unchanged |
| CoinsView.CoinsViewCache.GetCoins | src/coins.cpp:104-112 | the unspent coins found are those of the flat map |
| CoinsView.CoinsViewCache.HaveCoins | src/coins.cpp:143-151 | true exactly if the flat map has the txid, although it tests for an empty vector and not for pruned coins |
| CoinsView.CoinsViewCache.ModifyCoins | src/coins.cpp:114-131 | keeps the view and hands out the coins of the flat map, or empty ones |
| CoinsView.CoinsViewCache.ReleaseModifier | src/coins.cpp:277-285 | the view changes at the txid only, to the cleaned-up coins |
| CoinsView.CoinsViewCache.BatchWrite | src/coins.cpp:165-200 | merges every dirty entry by the rule for its flags, and takes over the best block |
| CoinsView.CoinsViewCache.Flush | src/coins.cpp:202-207 | what was seen through the child is now seen through the base, and through the emptied child |
| CoinsView.CoinsViewCache.GetBestBlock | src/coins.cpp:153-158 | the first best block set from the top down |
| CoinsView.CoinsViewCache.SetBestBlock | src/coins.cpp:160-163 | sets the best block of this layer and nothing else |
| CoinsLaws.FlatIff | src/coins.cpp:104-112 | coins are known exactly if the highest layer with an entry, or else the database, has an output whose value is not -1, and they are the coins there |
| CoinsLaws.FetchIsClean | src/coins.cpp:86-102 | a fetch adds copies of its txid only, not dirty, and fresh exactly if all their outputs are spent |
| CoinsLaws.ReleaseKeeps | src/coins.cpp:277-285 | closing a modifier touches its txid only, and drops the entry exactly if it is fresh and all outputs are spent |
| CoinsLaws.BatchKeeps | src/coins.cpp:165-194 | which entries a parent has after a child is written to it, with which coins and flags |
| Coins.Trim | src/coins.h:119-126 | the longest prefix that does not end in a spent output |
| Coins.TrimmedPruned | src/coins.cpp:146-150 | trimmed coins are pruned exactly if they have no outputs, which is what `HaveCoins` relies on |
| CoinsUndo.Spend | src/coins.cpp:36-52 | succeeds exactly for an unspent output, removes only it, and fills in the undo data |
| CoinsUndo.SpentOnce | src/coins.cpp:36-52 | a spent output cannot be spent again, and every other output is as it was |
| CoinsUndo.UndoRestores | src/main.cpp:2640-2662 | taking a spend back restores the coins exactly, unless the output was the last one of a coinstake above height zero |
| CoinsUndo.UndoRestoresMissing | src/main.cpp:2640-2662 | the same when the spent coins have been dropped: above height zero only the coinstake flag can be lost |
| CoinsUndo.UndoForgetsStake | src/main.cpp:2645-2652 | a coinstake of which only the empty first output is left, spent and put back, is no longer marked a coinstake |
| CoinsStream.CalcMaskSize | src/coins.cpp:17-34 | the number of mask bytes up to the last non-zero one, and how many are not zero |
| CoinsLaws.MaskByteIs | src/coins.h:212-218 | mask byte b has bit i, from the lowest, for output 2 + 8b + i |
| CoinsStream.Serialize | src/coins.h:199-227 | writes the stream that `Encodes` describes; the assert on the code holds for coins that are not pruned |
| CoinsLaws.LayoutIs | src/coins.h:199-227 | version, code word, mask bytes, outputs, height |
| CoinsLaws.OutputsInOrder | src/coins.h:221-224 | the outputs that are not spent, in order |
| CoinsStream.ReadMask | src/coins.h:239-253 | the mask loop ends exactly at the last non-zero byte and recovers the availability of every output |
| CoinsStream.CodeWordRead | src/coins.h:207-242 | the flags always come back out of the code word, and the count exactly if it fits into 28 bits |
| CoinsStream.CountAlwaysFits | src/coins.h:207 | it fits for up to 2147483642 outputs, and for no more if none of them is spent |
| CoinsStream.TrimmedIsCanonical | src/coins.h:199-263 | trimmed coins with blank spent outputs are their own canonical form, so the round trip gives them back |
| CoinsStream.Unserialize | src/coins.h:229-263 | the stream of any serializable coins gives them back, spent outputs blank and trailing ones cut off |
| Denominations.Extract | src/denomination_functions.cpp:44-68 | smaller coins worth at least k of a denomination contain some worth exactly k of it, because each denomination divides the next |
| Denominations.GreedyIsComplete | src/denomination_functions.cpp:44-68 | taking the largest coins first meets an amount exactly whenever any choice of the held coins does, and then with the fewest coins |
| Denominations.ChangeIs | src/denomination_functions.cpp:70-93 | change adds up to the whole coins of the amount, and nothing else that does takes fewer coins |
| ZerocoinSpends.GetNumberOfCoinsUsed | src/denomination_functions.cpp:18-26 | the number of coins in a map |
| ZerocoinSpends.GetMaxDenomHeld | src/denomination_functions.cpp:31-42 | the largest denomination held |
| ZerocoinSpends.GetSpendCoins | src/denomination_functions.cpp:46-68 | the do-while loops compute the greedy selection of `GreedyIsComplete` |
| ZerocoinSpends.GetChange | src/denomination_functions.cpp:73-93 | the do-while loops compute the change of `ChangeIs` |
| MintChoice.ExactIffSomeChoice | src/denomination_functions.cpp:95-123 | greedy selection over the unused mints is exact if and only if some set of unused mints adds up to the target, and then no such set is smaller |
| MintLaws.DenominationsAre | src/libzerocoin/Denominations.h:19-32 | the eight denominations: one coin, and from there on five times and twice as much in turn, up to 5000; anything else is worth nothing |
| MintLaws.OneMintPays | src/denomination_functions.cpp:99-123 | one unused mint of any denomination pays exactly its value, alone, under any limit but zero |
| MintLaws.WorthlessMint | src/denomination_functions.cpp:114-118 | a used mint, or one of no denomination, pays nothing |
| MintLaws.ChangeIsOneCoin | src/denomination_functions.cpp:73-93 | change of one denomination's value is a single coin of it |
| MintLaws.NegativeLimit | src/denomination_functions.cpp:425 | a negative limit on spends is no limit, as it is converted to an unsigned number |
| MintSelection.GetIdealSpends | src/denomination_functions.cpp:99-123 | true exactly when some set of unused mints adds up to the target; an empty map of used coins then gets the greedy selection |
| MintSelection.GetSpends | src/denomination_functions.cpp:128-148 | turns counts into mints, largest first, going over the list again while a count is left |
| MintSelection.LoopsEndIff | src/denomination_functions.cpp:136-146 | its loops end if and only if no count is negative and every positive count has an unused mint |
| MintSelection.SpendsIs | src/denomination_functions.cpp:128-148 | the mints returned are as many as the counts ask for and worth exactly that |
| MintLaws.SpendsFall | src/denomination_functions.cpp:134-148 | larger denominations come first |
| MintLaws.PickInOrder | src/denomination_functions.cpp:136-143 | and within one pass over a denomination the mints come in the order of the list |
| MintSelection.SpendsAreListed | src/denomination_functions.cpp:136-143 | they are unused mints of the list |
| MintSelection.SpendsOnce | src/denomination_functions.cpp:136-146 | no mint is returned twice if and only if no count is more than the unused mints of its denomination |
| MintSelection.SpentTwice | src/denomination_functions.cpp:136-146 | one unused mint of 1 and a count of 2: the mint is returned twice, with a value of 2 coins |
| MintSelection.HeldTwice | src/denomination_functions.cpp:435-441 | a holding of two 5s where the list has one, and a target of six coins: change is given, and whatever is spent needs the mint twice |
| ZerocoinChange.GetNextLowerDenomHeld | src/denomination_functions.cpp:206-217 | the largest held denomination below a given one |
| ZerocoinChange.FillBelow | src/denomination_functions.cpp:229-252 | the first stage fills up to just below the target |
| ZerocoinChange.TopUpOnce | src/denomination_functions.cpp:254-266 | the second stage never takes more than one coin, as its comment surmises |
| MintLaws.TopUpTakesSmallest | src/denomination_functions.cpp:254-266 | it takes the smallest coin that is worth more than what is missing and is not used up |
| ZerocoinChange.RemoveOverlap | src/denomination_functions.cpp:274-289 | what is taken off the amount is exactly the value of the coins both spent and given back |
| ChangeMaking.OverlapRemoved | src/denomination_functions.cpp:277-292 | without the overlap the amount still covers the target, and the held coins meet it exactly |
| MintLaws.TwentySix | src/denomination_functions.cpp:268-272 | the example of the comment, 26 out of one 5 and four 10s: first two 10s and the 5, then a third 10, and then the 5 is taken out again |
| ChangeMaking.AltIs | src/denomination_functions.cpp:219-297 | the alternative spends held coins only, is worth its own amount exactly, and covers the target if anything topped it up |
| ChangeMaking.OvershootLeavesRoom | src/denomination_functions.cpp:366-394 | if paying coin by coin overshoots, filling up leaves a coin that tops up |
| ZerocoinChange.MinimizeChange | src/denomination_functions.cpp:219-308 | returns the alternative exactly if it makes fewer coins of change within the limit of spends, and otherwise what it was given |
| ZerocoinChange.PayOver | src/denomination_functions.cpp:363-380 | pays with the largest coins first until the target is reached |
| ZerocoinChange.CalculateChange | src/denomination_functions.cpp:316-405 | for every target: held coins only; they cover the target if and only if the holdings do; the number returned is that of the coins in the change, and it is zero exactly under `NoChange` |
| MintSelection.WholeTargets | src/denomination_functions.cpp:427-441 | a whole-coin target that is covered but not paid exactly within the limit gets no change if and only if no held coin is worth more and paying the largest coins first hits the target |
| MintSelection.OverTheLimit | src/denomination_functions.cpp:427-438 | 32 coins out of three 10s and five 1s with at most four spends: covered and exactly payable, but nothing is selected |
| MintSelection.HalfACoin | src/denomination_functions.cpp:435-438 | one and a half coins out of two 1s: covered, but nothing is selected |
| MintSelection.SelectMintsFromList | src/denomination_functions.cpp:411-443 | exact payment with the fewest mints when one within the limit exists; otherwise unused mints with the change reported, each once if and only if the counts chosen are covered by the unused mints; nothing is selected exactly under `NoChange`, which for whole-coin targets covered by mints of the list means: exactly payable but over the limit, no held coin worth more, and paying the largest first hits the target |
| ArithUint.BaseUint.Set | src/arith_uint256.h:91-98 | the value is the 64-bit word |
| ArithUint.BaseUint.Add | src/arith_uint256.h:138-147 | the sum modulo 2^BITS, also of an object with itself; no 64-bit overflow |
| ArithUint.BaseUint.Negate | src/arith_uint256.h:80-87 | complement and increment give 2^BITS minus the value, modulo 2^BITS |
| ArithUint.BaseUint.Subtract | src/arith_uint256.h:149-153 | the difference modulo 2^BITS |
| ArithUint.BaseUint.AddWord | src/arith_uint256.h:155-161 | the sum with a 64-bit word modulo 2^BITS |
| ArithUint.BaseUint.SubtractWord | src/arith_uint256.h:163-169 | the difference with a 64-bit word modulo 2^BITS |
| ArithUint.BaseUint.Increment | src/arith_uint256.h:175-182 | one more, modulo 2^BITS |
| ArithUint.BaseUint.Decrement | src/arith_uint256.h:192-199 | one less, modulo 2^BITS |
| ArithUint.BaseUint.MultiplyWord | src/arith_uint256.cpp:91-101 | the product with a 32-bit word modulo 2^BITS; no 64-bit overflow |
| ArithUint.BaseUint.Multiply | src/arith_uint256.cpp:103-117 | the product modulo 2^BITS; zero when an object is multiplied by itself in place |
| ArithUint.BaseUint.ShiftLeft | src/arith_uint256.cpp:57-72 | times 2^shift modulo 2^BITS, for every shift |
| ArithUint.BaseUint.ShiftRight | src/arith_uint256.cpp:74-89 | divided by 2^shift, rounding down, for every shift |
| ArithUint.BaseUint.Divide | src/arith_uint256.cpp:119-143 | the floor quotient, the remainder being left in the local dividend; dividing an object by itself is safe; without a divisor it fails with the object cleared |
| ArithUint.BaseUint.DivideRound | src/arith_uint256.cpp:133-140 | one round keeps dividend = remainder + quotient times divisor, and halves the bound on the remainder |
| ArithUint.BaseUint.CompareTo | src/arith_uint256.cpp:145-155 | the order of the two numbers |
| ArithUint.BaseUint.EqualTo | src/arith_uint256.cpp:157-169 | equality with a 64-bit word |
| ArithUint.BaseUint.Bits | src/arith_uint256.cpp:195-208 | the position of the highest bit plus one, zero for zero |
| ArithUint.BaseUint.GetLow64 | src/arith_uint256.h:267-271 | the value modulo 2^64 |
| UintShift.LeftShifted | src/arith_uint256.cpp:57-72 | limbs moved up, with the bits that cross limbs, are the product with a power of two |
| UintShift.RightShifted | src/arith_uint256.cpp:74-89 | limbs moved down, with the bits that cross limbs, are the quotient by a power of two |
| CompactForm.SetCompact | src/arith_uint256.cpp:244-262 | the number meant modulo 2^256; the overflow flag is set exactly if the number meant reaches 2^256 |
| CompactForm.OverflowIs | src/arith_uint256.cpp:257-260 | the three size tests hold exactly if mantissa times 256^(size-3) reaches 2^256 |
| CompactForm.GetCompact | src/arith_uint256.cpp:264-285 | exponent, mantissa and sign of the value; both asserts hold |
| CompactForm.RoundTrip | src/arith_uint256.cpp:244-285 | reading back what was written gives the number with the bytes below the mantissa zero, and the sign of a number that is not zero |
| CompactForm.Precision | src/arith_uint256.cpp:244-285 | the round trip never exceeds the number, is short by less than its 2^15th part, is exact below 2^23, and exactly when it is exact |
| CompactForm.Idempotent | src/arith_uint256.cpp:244-285 | another round trip changes nothing |
| CompactForm.NoFlags | src/arith_uint256.cpp:244-285 | the compact form of a number sets neither flag |
| CompactLaws.MeantIs | src/arith_uint256.cpp:244-262 | exponent e, sign and mantissa m mean m * 256^(e-3), rounded down, negative if the sign is set and anything of the mantissa is left |
| CompactLaws.EncodedIs | src/arith_uint256.cpp:264-285 | the word for a number has a mantissa from 2^15 below 2^23 that times 256^(e-3) is the number, up to the bytes below it |
| Radix.BytesFit | src/base58.cpp:84-98 | l bytes always fit into l*138/100+1 digits in base 58, so the first assert on the carry holds at every length |
| Radix.DigitsFit | src/base58.cpp:37-54 | l digits in base 58 always fit into l*733/1000+1 bytes, so the second one does |
| Base58.MulAdd | src/base58.cpp:46-55 | the in-place loop multiplies the number in the buffer and adds a digit; the carry is used up and never overflows an int |
| Base58.EncodeBase58 | src/base58.cpp:75-113 | leading zero bytes become ones, and the rest is one number in base 58 |
| Base58.DecodeBase58 | src/base58.cpp:25-73 | succeeds exactly for an alphabet-only text with spaces around it, up to the first NUL; otherwise the result is left alone |
| Base58Text.DecodeInvertsEncode | src/base58.cpp:25-123 | decode(encode(b)) = b for every byte string |
| Base58Text.EncodeInvertsDecode | src/base58.cpp:25-123 | encode(decode(s)) = s without the spaces around it, whenever decoding succeeds |
| Base58Laws.AlphabetIs | src/base58.cpp:22-23 | the alphabet is the digits and letters but 0, I, O and l, and its order is that of their codes |
| Base58Laws.SpaceIs | src/base58.cpp:28-60 | the characters skipped at both ends are those of `isspace` in the C locale |
| Base58Laws.TestVectors | src/test/data/base58_encode_decode.json:3-13 | the vectors for one byte and for three; leading zero bytes are ones |
| Base58.EncodeBase58Check | src/base58.cpp:125-132 | the encoding of the bytes and the first four bytes of their hash |
| Base58.DecodeBase58Check | src/base58.cpp:134-149 | what passes the check, without its last four bytes; cleared on failure |
| Base58.CheckedIffEncoded | src/base58.cpp:125-149 | a string passes with payload b if and only if its trimmed text is the checked encoding of b |
| Base58.Base58Data.ToString | src/base58.cpp:197-202 | the text passes the check with version bytes followed by data |
| Base58.Base58Data.SetString | src/base58.cpp:175-190 | splits what the text holds after the version bytes, or clears both parts |
| Bech32Checksum.TakeIn | src/bech32.cpp:80-91 | the body of the loop takes one symbol into the remainder |
| Bech32Checksum.PolyMod | src/bech32.cpp:37-94 | the loop computes the remainder of the whole list |
| Bech32Checksum.StepIsLinear | src/bech32.cpp:65-92 | a step is linear over exclusive or |
| Bech32Checksum.StepIsInjective | src/bech32.cpp:65-92 | with a zero symbol only the zero remainder steps to zero |
| Bech32Checksum.PolyIsLinear | src/bech32.cpp:37-94 | checksums of two lists differ by the checksum of their difference |
| Bech32Checksum.WindowDetected | src/bech32.cpp:37-94 | lists that differ only within six symbols in a row have different checksums, at any length |
| Bech32Distance.TimesStep | src/bech32.cpp:51-57 | multiplication by the generator of GF(32) commutes with a step |
| Bech32Distance.ConstantIff | src/bech32.cpp:44-49 | x to the d is a constant modulo the generator if and only if 1023 divides d |
| Bech32Distance.TwoDetected | src/bech32.cpp:44-49 | lists that differ in exactly two symbols have the same checksum if and only if both are changed alike and 1023 divides their distance |
| Bech32Roots.EvaluatesAll | src/bech32.cpp:44-49 | the generator vanishes at three successive powers of an element of GF(1024) |
| Bech32Roots.OrderOfZ | src/bech32.cpp:44-49 | that element has order 1023 |
| Bech32Triples.IsPowerOfZ | src/bech32.cpp:44-49 | every element of GF(1024) but zero is a power of it |
| Bech32Triples.ThreeTerms | src/bech32.cpp:44-49 | the Vandermonde argument: three terms that cancel at all three roots are zero |
| Bech32Triples.ThreeDetected | src/bech32.cpp:44-49 | lists that differ in up to three symbols, no two of them at a distance that 1023 divides, have different checksums: any three errors within 1023 characters |
| Bech32.ExpandHRP | src/bech32.cpp:103-115 | high bits, a zero, low bits |
| Bech32.VerifyChecksum | src/bech32.cpp:118-125 | accepts exactly remainder one |
| Bech32.CreateChecksum | src/bech32.cpp:128-139 | the six symbols that the remainder with six zeros packs |
| Bech32.ChecksumVerifies | src/bech32.cpp:118-139 | a created checksum verifies |
| Bech32.ChecksumUnique | src/bech32.cpp:118-139 | no other six symbols do |
| Bech32Charset.RevOfLetter | src/bech32.cpp:13-25 | every letter of the character set has its own value in the reverse table |
| Bech32Charset.LetterOfRev | src/bech32.cpp:16-25 | every character with a value is, in lower case, the letter for it |
| Bech32.Encode | src/bech32.cpp:147-156 | the human-readable part, the separator, and the letters of data and checksum |
| Bech32.Decode | src/bech32.cpp:159-189 | gives what `Decoded` gives, and an empty pair exactly where it gives nothing |
| Bech32.DecodeEncoded | src/bech32.cpp:147-189 | Decode(Encode(hrp, v)) = (hrp, v) if and only if hrp is not empty, printable and without upper case, and the total length is at most 90 |
| Bech32.EncodeDecoded | src/bech32.cpp:147-189 | whatever decodes re-encodes to its lower case |
| Bech32.BurstDetected | src/bech32.cpp:118-189 | two well-formed strings that differ only within six characters of the data part never both decode |
| Bech32.ThreeErrorsDetected | src/bech32.cpp:44-49 | two well-formed strings that differ in one, two or three characters of the data part never both decode |
| Bech32Prefix.ExpandAt | src/bech32.cpp:108-113 | each character of the human-readable part is split without loss, the high half in its own place and the low half later by its length and one |
| Bech32Prefix.ExpandIsInjective | src/bech32.cpp:103-115 | so different parts of the same length have different expansions |
| Bech32Prefix.PrefixErrorDetected | src/bech32.cpp:118-189 | two well-formed strings that differ, case aside, in one character of the human-readable part and in no more than one of the data part never both decode |
| Bech32Prefix.DecodesIff | src/bech32.cpp:159-189 | a string decodes to hrp and v if and only if it is their encoding, all in lower or all in upper case, of at most 90 characters, and hrp is not empty and has only characters from 33 to 126 and no upper case |
| Bech32Vector.EncodedA | src/bech32.cpp:37-189 | the first test vector of BIP 173, both ways |
| CheckQueueModel.StepKeeps | src/checkqueue.h:69-158 | every step of every thread, in any interleaving and with spurious wake-ups, keeps: nTodo is what is queued plus what is held, nIdle and nTotal are exact, and the conjunction of all added checks is that of all results, reported and pending |
| CheckQueueModel.BatchSize | src/checkqueue.h:105-110 | a batch has at least one check, never more than are queued, and more than one only up to the batch size |
| CheckQueueModel.BatchSizeIs | src/checkqueue.h:105-110 | it is the largest number within the batch size of which the queue holds one for each thread in the pool, each idle one again, and one more, but at least one |
| CheckQueueTheorems.TraceKeeps | src/checkqueue.h:69-158 | the same over every run from a new queue |
| CheckQueueTheorems.WaitReturns | src/checkqueue.h:91-100 | when the master returns, the result is the conjunction of the checks added, and nothing is queued or held |
| CheckQueueTheorems.WaitIsConjunction | src/checkqueue.h:139-143 | in every run `Wait` returns exactly the conjunction of all checks added since it last returned |
| CheckQueueTheorems.IdleAfterWait | src/checkqueue.h:164-168 | between a `Wait` and the next `Add` the queue counts as idle, as the controller asserts |
| CheckQueueTheorems.IdleIff | src/checkqueue.h:164-168 | the queue counts as idle exactly if nothing is queued, held or to be reported and no check added since the last `Wait` has failed |
| CheckQueueTheorems.AddWakes | src/checkqueue.h:145-158 | adding more than one check leaves no worker asleep, adding one wakes the worker that is picked and no other, and the master is never woken |
| CheckQueueTheorems.SleepingMasterIsServed | src/checkqueue.h:80-104 | while the master sleeps, a worker holds unfinished work and can run |
| CheckQueueTheorems.NotStuck | src/checkqueue.h:69-127 | until `Wait` returns, some thread can run |
| CheckQueueTheorems.RunDecreases | src/checkqueue.h:69-127 | every step of a thread leaves less to do, or is the return of `Wait` |
| CheckQueueTheorems.WaitTerminates | src/checkqueue.h:139-143 | `Wait` returns whatever happens next each time: any thread runs, workers enter the pool meanwhile, and finitely many waits end for no reason; no deadlock and no livelock |
| CheckQueue.CheckQueue.Report | src/checkqueue.h:79-89 | the clean-up refines the model step; the master is notified exactly when nothing is left to do |
| CheckQueue.CheckQueue.Top | src/checkqueue.h:90-120 | the critical section refines the model step: return, wait, or a batch taken from the back of the queue |
| CheckQueue.CheckQueue.TakeBatch | src/checkqueue.h:112-117 | the checks of a batch come off the back of the queue, the last one first |
| CheckQueue.CheckQueue.Enter | src/checkqueue.h:77-120 | clean-up and section together |
| CheckQueue.CheckQueue.AfterWait | src/checkqueue.h:101-104 | what follows a wait |
| CheckQueue.CheckQueue.Execute | src/checkqueue.h:121-125 | true exactly if no check of the batch fails, although checks after a failure are skipped |
| CheckQueue.CheckQueue.Add | src/checkqueue.h:145-158 | pushes the checks and counts them |
| CheckQueue.CheckQueue.IsIdle | src/checkqueue.h:164-168 | the idle test |
| StakeModifier.SectionsGrow | src/kernel.cpp:58-63 | sections only get longer, from a third of the interval to the whole of it |
| StakeModifier.SelectionInterval | src/kernel.cpp:66-73 | the sum of the 64 sections |
| StakeLaws.SelectionIntervalIs | src/kernel.cpp:58-73 | the interval is 2087 seconds, in sections from 20 to 60 |
| StakeModifier.SelectBlockFromCandidates | src/kernel.cpp:78-136 | finds a block exactly if one is left; it has the least selection hash among the first block left and those left that are timed up to the stop, the earliest among equals |
| StakeLaws.StakeIsFavoured | src/kernel.cpp:108-132 | from the upgrade height on: a proof-of-work block wins only if its hash value is at most the 2^32nd part of that of every proof-of-stake block, a proof-of-stake block if that part of its value is at most the value of every proof-of-work block; within a kind the least value wins, the earliest among equals |
| StakeLaws.EarliestStakeWins | src/kernel.cpp:108-132 | before, all proof-of-stake blocks tie and only the earliest of them can win, against proof-of-work blocks by the same comparison |
| StakeLaws.EligibleIff | src/kernel.cpp:95-105 | the blocks that take part in a round: those not chosen yet and timed up to the stop, and the first of those left |
| StakeModifier.SomeoneIsLeft | src/kernel.cpp:198-204 | with distinct hashes and rounds to go, a block is left: no round fails |
| StakeModifier.PickedOnce | src/kernel.cpp:198-210 | no block is picked twice |
| StakeLaws.RoundIs | src/kernel.cpp:198-203 | in round r the best of the blocks left by the earlier rounds wins, up to the end of section r |
| StakeModifier.BitIs | src/kernel.cpp:206-207 | bit r of the modifier is the lowest bit of the hash of the block picked in round r |
| StakeModifier.SelectBits | src/kernel.cpp:194-214 | all min(64, n) rounds succeed for distinct hashes, each picking the best block left, and the bits are those of the picked blocks |
| StakeModifier.GetLastStakeModifier | src/kernel.cpp:44-55 | the modifier and time of the last block that generated one |
| StakeModifier.CollectCandidates | src/kernel.cpp:182-188 | the blocks back from the last as long as they are not older than the start |
| StakeLaws.CandidatesAre | src/kernel.cpp:185-188 | as a list: time and hash of each block back from the last, up to the first that is older than the start |
| StakeLaws.IntervalEnds | src/kernel.cpp:181-182 | the interval ends at the last whole minute up to the last block's time |
| StakeLaws.KeptWithinTheMinute | src/kernel.cpp:175-176 | the modifier is kept until a minute begins between its time and that of the last block |
| StakeModifier.SortedCandidates | src/kernel.cpp:183-192 | the sorted candidates are in order of time and have distinct hashes |
| StakeLaws.SortedIs | src/kernel.cpp:192 | sorting orders candidates by time and then by hash, and neither adds nor loses any |
| StakeModifier.ComputeNextStakeModifier | src/kernel.cpp:151-242 | which of the four cases applies, and in the last one a modifier made of the 64 rounds over the candidates of the selection interval |
| BlockIndex.SkipsBack | src/main.cpp:4726-4739 | a skip pointer always leads to a lower height |
| BlockIndex.SkipOfEven | src/main.cpp:4726-4739 | the skip height of an even height is without its lowest one bit |
| BlockIndex.SkipOfOdd | src/main.cpp:4726-4739 | that of an odd one keeps the bit for one and is without the next two |
| BlockIndex.Block.GetAncestor | src/main.cpp:4741-4762 | walking skip pointers and predecessors reaches the ancestor at the height; null outside the range |
| BlockIndex.Block.After | src/main.cpp:4769-4773 | a block built on a linked one is linked, its skip pointer included |
| Chain.Chain.SetTip | src/chain.cpp:13-24 | the chain becomes exactly the path to the new tip, although the loop stops where the old chain agrees |
| Chain.Chain.FindFork | src/chain.cpp:55-62 | the highest block common to the chain and the block's ancestors, null if there is none |
| Chain.Chain.GetLocator | src/chain.cpp:26-53 | lists the hashes of the ancestors at h - i for the first twelve entries and at h - 9 - 2^(i-10) from there on, as long as this is positive, and then that of genesis; at most 12 + floor(log2 h) of them |
| Chain.HeightsFall | src/chain.cpp:34-50 | the heights strictly fall |
| Chain.LocatorIsShort | src/chain.cpp:26-53 | single steps for ten blocks and doubling ones after that: at most 11 plus the number of bits of the height |
| Chain.HeightAt | src/chain.cpp:34-50 | the heights in closed form |
| Chain.Chain.ContainsIsAncestor | src/chain.h:558-562 | a block is on the chain exactly if it is the tip's ancestor at its height |
| Chain.Chain.NextIsSuccessor | src/chain.h:564-571 | the successor has the block as its predecessor |
| Compressor.DecompressCompressed | src/compressor.cpp:128-180 | no amount is lost |
| Compressor.CompressDecompressed | src/compressor.cpp:128-180 | no code is wasted: compression is onto |
| CompressorLaws.CompressedIs | src/compressor.cpp:128-154 | the code in closed form: 1 + 10 (9q + d - 1) + e for (10q + d) 10^e with e below nine, and 10m for m 10^9 |
| CompressorLaws.TestPairs | src/test/compress_tests.cpp:41-46 | the six pairs |
| Compressor.CompressedBound | src/compressor.cpp:137-154 | a code is at most nine times the amount |
| Compressor.FitsForMoney | src/chainparams.cpp:152 | up to eighty times the maximum money nothing overflows 64 bits and the round trip is exact |
| Compressor.CompressAmount | src/compressor.cpp:137-154 | the code modulo 2^64; the assert on the last digit holds |
| Compressor.DecompressAmount | src/compressor.cpp:156-180 | the amount modulo 2^64 |

## Left out

- AddrMan.AddrMan.Unserialize: specified for a fresh object; of streams with an address twice only `vRandom` and the pruning are stated. The stream is a sequence of typed items, not of bytes.
- AddrMan.AddrMan.Serialize: byte layout of keys, addresses and integers is not modelled.
- AddrMan.AddrMan.Attempt: the attempt counter does not wrap around.
- AddrMan.AddrMan.SetServices: models `SetServices_`; the public wrapper calls `Connected_` instead (src/addrman.h:579).
- AddrManTheorems.ValidPassesCheck: the tests of `Check_` are a predicate here, not a method.
- `Select_` and `GetChance`: floating point and loops without a bound. Locking and logging.
- CoinsView.CoinsViewCache.ReleaseModifier: what a caller does to the coins through a modifier is applied when the modifier is released; until then the open modifier's entry is not observed.
- CoinsView.CoinsViewDB.BatchWrite: the database is a map; storage, iteration order and errors are not modelled. Cache entries of a parent are not written while a child lives.
- CoinsStream.Serialize: variable-length integers and compressed outputs are items of the stream that read back as written; `GetSerializeSize` is left out (it scales the mask code by 8 where the code has 16).
- CoinsUndo.UndoRestores: the modifier, the mempool of stakes and the error messages around it are left out.
- `IsAvailable` for zerocoin mint scripts, `FromTx`, `ClearUnspendable`: scripts are opaque.
- MintSelection.GetSpends: needs counts for which its loops end; a missing key, for which the source throws, is excluded too.
- MintSelection.SelectMintsFromList: needs an unused mint of every denomination held, so that the loops end whatever is chosen; the limit on spends is not enforced on every path of the source, and is not claimed.
- ZerocoinChange.CalculateChange: amounts and counts are unbounded integers; `getDenomWithMostCoins`, `getNextHighestDenom` and the listing functions for the log are left out.
- ArithUint.BaseUint.Divide: `1 << 31` on a signed int is taken as the bit it sets. Division by zero is a flag instead of an exception.
- Bitwise `^=`, `&=`, `|=`, conversions to and from hexadecimal, `double` and byte vectors, and the 512-bit aliases: easy or floating point.
- Base58.DecodeBase58: lengths are unbounded; the int that holds the buffer size does not overflow. Address classes built on `CBase58Data` are left out.
- Bech32Triples.ThreeDetected: a comment of the source also claims four errors within 89 characters, which follows from no property of the roots but only from trying all combinations; it is not proved here.
- Bech32.Encode: needs symbols below 32; the source indexes its character set without a check. `ConvertBits` is left out.
- CheckQueueModel.StepKeeps: executing a batch is one step, as it touches nothing shared; the result of a check is fixed; exceptions and interruption of threads are left out. With infinitely many spurious wake-ups only safety is claimed.
- `CCheckQueueControl`: a thin wrapper; its assert is `CheckQueueTheorems.IdleAfterWait`.
- StakeModifier.ComputeNextStakeModifier: the double hash is a function, the constant of the first block (a pointer cast) a parameter, and `std::sort` a verified insertion sort. A chain whose blocks are indexed under their hashes is presupposed. The selection map for the log, kernel hashing and checkpoints are left out.
- BlockIndex.Block.GetAncestor: blocks are linked when they are made and never relinked; only height, predecessor, skip pointer and hash are fields.
- Chain.Chain.GetLocator: heights are unbounded; the step fits an int for heights up to 2^30. `Tip` for the last proof-of-stake block is left out.
- Compressor.CompressAmount: script compression is left out.
- Networking, wallet, consensus checks, databases, accumulators, masternodes and user interfaces: not part of this model.
