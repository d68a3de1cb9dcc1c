# Verified models of the Denarius node

This project models the algorithmic cores of the node in Dafny and proves what they promise.
`dafny verify dfyconfig.toml` checks it as a whole.

- **Address manager** (`NetTypes`, `Ascending`, `AddrTables`, `TriedShuffle`, `AddrSpec`, `AddrMan`,
  `AddrRuns`, `AddrLaws`, `AddrBounds`, `AddrCheck`, `AddrDisk`, `AddrRoundTrip`, `AddrForeign`). One
  table of peers is held as five redundant structures. `Consistent` says how they agree; every operation
  of the class keeps it, also while an added id is counted but not yet stored, so it holds after every
  run. `AddrLaws` says what happens to the entries themselves, and that no operation touches an entry it
  is not about. `Check_` is modelled as the code it is and compared with the invariant. Writing and
  reading a manager renumbers it and keeps all that is written; reading a dump with another number of
  buckets is consistent under an exact condition.
- **Hash functions** (`Streaming`, `BitStrings`, the `Keccak*` modules, `HashPadding`, `Jh`, `EchoMix`,
  `Echo`). The lane-complemented, relabelled, unrolled and bit-interleaved Keccak computes plain
  Keccak of FIPS 202 on every message, however it is fed, and its tables follow the rules of the
  standard. JH and ECHO are covered from streaming to padding, block and bit counting, and ECHO's
  column mixing down to bytes.
- **Proof-of-stake kernel** (`Kernel`, `KernelChain`). The 64 selection rounds, the modifier they
  make, and the modifiers along a whole chain.
- **Codecs** (`Digits`, `BigNum`, `Compact`, `NumberText`, `Base58`, `Base58RoundTrip`, `Base58Check`).
- **Small protocols** (`Checkpoints`, `Ddns`, `DdnsNames`, `Bloom`, `BloomFilter`, `LockedPages`).

`Arithmetic`, `Options` and `CText` hold what several of them share.

Hash functions (bucket hash, Murmur, double SHA-256, Hash160), groups and routability are parameters,
so every theorem holds for all of them. Random draws are arbitrary values in range. The clock, the
disk, signatures and the results of a reorganisation are arguments. Objects that the source updates
in place are classes; the theorems about runs and round trips are lemmas about the values those
classes hold.

## Where the code and its documentation differ

- `SelectTried` means to return the position of the least recently successful of the inspected
  entries. The swap moves that entry to another slot, so the position holds it exactly when the draw
  was its own slot (`TriedShuffle.SelectedPosHoldsOldest`). The draws for which it is
  right whatever the entries are are exactly those that move nothing
  (`TriedShuffle.PosHoldsChosenIff`), and for every full bucket there are draws for which it is wrong
  whatever the entries are (`TriedShuffle.SelectTriedMayMissOldest`).
- `Check_` looks like a pure check, but looking up a missing address with `operator[]` indexes it under
  id 0. This happens on foreign tables only: the operations keep every address indexed, and then
  `Check_` changes nothing (`AddrCheck.Check`).
- `Good_` with a time of zero or less, and `Attempt_` with a negative one, break the time checks of
  `Check_` (`AddrRuns.TimesSurviveIff`).
- `GetCompact` shifts the length out of its 32 bits from 256 bytes on (`Compact.CompactTruncatesIff`).
- `UpdateEmptyFull` makes a bloom filter forget its keys exactly if it has bytes, all of them zero, and
  no hash function (`Bloom.KeyStaysIff`).
- Locking a range never returns exactly if it reaches the last page of the address space
  (`LockedPages.LoopEndsIff`). A range that wraps around misses pages it has bytes in
  (`LockedPages.AllTouchedLockedIff`).
- In `DDns` inserting a name never ends exactly if the table has 256 (`Ddns.InsertEndsIff`), and then a
  search never ends exactly if the name is absent (`Ddns.SearchEndsIff`).
- Reading a dump with another number of buckets can overfill a new bucket; when it does is exact
  (`AddrForeign.ForeignConsistentIff`).

## Model

| member | source | states |
|---|---|---|
| `NetTypes.TriedBucket` | src/addrman.cpp:9-21 | the bucket of an address lies in range, for every hash and grouping |
| `NetTypes.NewBucket` | src/addrman.cpp:23-35 | the bucket of an address and its source lies in range |
| `NetTypes.GetTriedBucket` | src/addrman.cpp:9-21 | the two hashes of key, service and group give the tried bucket |
| `NetTypes.GetNewBucket` | src/addrman.cpp:23-35 | the two hashes of key, group and source group give the new bucket |
| `NetTypes.MayBeDeleted` | src/addrman.cpp:37-55 | the tests in turn decide whether an entry is terrible |
| `Ascending.InOrder` | src/addrman.cpp:154-188 | iteration over a set of ids visits each member once, in ascending order |
| `AddrTables.SwapKeeps` | src/addrman.cpp:105-123 | swapping two random positions keeps the invariant |
| `AddrTables.DropKeeps` | src/addrman.cpp:149-201 | releasing a reference, and deleting the entry at zero, keeps the invariant, also while another id is counted but not yet stored |
| `AddrTables.CreatedKeeps` | src/addrman.cpp:350-363 | a new entry with its first counted reference satisfies the invariant up to that pending reference |
| `AddrTables.CountedKeeps` | src/addrman.cpp:359-363 | counting one more reference leaves the invariant with exactly that reference pending |
| `AddrTables.StoredKeeps` | src/addrman.cpp:361-367 | putting the pending reference in its bucket restores the full invariant |
| `AddrTables.PromotedKeeps` | src/addrman.cpp:203-228 | withdrawing an entry from all new buckets and appending it to its tried bucket keeps the invariant |
| `AddrTables.ExchangedKeeps` | src/addrman.cpp:230-259 | evicting a tried entry to a new bucket with room, and taking its slot, keeps the invariant |
| `AddrTables.StatsKeep` | src/addrman.cpp:261-284 | changing times, services or attempts of an entry keeps the invariant |
| `AddrTables.ShapeKeeps` | src/addrman.cpp:494-508 | permuting vRandom together with the positions keeps the invariant |
| `AddrTables.WithdrawnCounts` | src/addrman.cpp:207-213 | after the removal loop no new bucket holds the entry and every other reference count is as before |
| `TriedShuffle.InspectPermutes` | src/addrman.cpp:125-147 | SelectTried only permutes the bucket and returns a slot in range |
| `TriedShuffle.InspectFindsOldest` | src/addrman.cpp:125-147 | the first slots hold the inspected entries, and the chosen one is the first of them with the least recent success |
| `TriedShuffle.DrawnIsInspected` | src/addrman.cpp:125-147 | each round inspects the entry its draw names |
| `TriedShuffle.SelectedPosHoldsOldest` | src/addrman.cpp:125-147 | the returned position holds the chosen entry if and only if its random draw was its own slot |
| `TriedShuffle.SelectTriedMayMissOldest` | src/addrman.cpp:125-147 | for every bucket of at least five entries, so for the full ones the code passes, there are draws for which the returned position is not that of the chosen entry, whatever the entries are |
| `TriedShuffle.PosHoldsChosenIff` | src/addrman.cpp:125-147 | the draws for which the position is right whatever the entries are: exactly those that move nothing |
| `AddrMan.CAddrMan.Find` | src/addrman.cpp:80-91 | an entry is found exactly when its address is indexed |
| `AddrMan.CAddrMan.SwapRandom` | src/addrman.cpp:105-123 | exchanges two entries of vRandom and their recorded positions, nothing else |
| `AddrMan.CAddrMan.SelectTried` | src/addrman.cpp:125-147 | replaces the bucket by the outcome of the shuffle and returns its recorded position |
| `AddrMan.CAddrMan.FirstTerrible` | src/addrman.cpp:154-172 | finds the first deletable entry of the bucket, or reports that there is none |
| `AddrMan.CAddrMan.OldestOf` | src/addrman.cpp:174-188 | finds the least recent of the four picked entries, the first on a tie |
| `AddrMan.CAddrMan.ShrinkNew` | src/addrman.cpp:149-201 | drops a terrible entry if there is one, else the oldest of four random picks, and keeps the invariant around a pending id |
| `AddrMan.CAddrMan.RemoveFromNew` | src/addrman.cpp:207-213 | takes the entry out of every new bucket and counts its references down by as many |
| `AddrMan.CAddrMan.FallBack` | src/addrman.cpp:233-253 | an evicted entry goes to its home bucket if that has room and to the origin bucket otherwise |
| `AddrMan.CAddrMan.MakeTried` | src/addrman.cpp:203-259 | the entry ends in its tried bucket; at most one other entry, from that bucket, moves back to a new bucket; the invariant holds |
| `AddrMan.CAddrMan.FindBucket` | src/addrman.cpp:288-304 | the circular scan from any start finds a bucket holding the entry if any bucket does |
| `AddrMan.CAddrMan.Good` | src/addrman.cpp:261-310 | a matching entry is marked and always promoted; the failure branch after the scan is never taken; the invariant holds |
| `AddrMan.CAddrMan.StoreReference` | src/addrman.cpp:361-367 | makes room in a full bucket without touching the pending entry and then stores the reference |
| `AddrMan.CAddrMan.StochasticTest` | src/addrman.cpp:344-349 | with N earlier references the test passes for exactly one of the 2^N possible draws |
| `AddrMan.CAddrMan.AddNew` | src/addrman.cpp:350-368 | creates the entry with the penalized time and stores its first reference; the invariant holds |
| `AddrMan.CAddrMan.AddKnown` | src/addrman.cpp:321-368 | refreshes time and services, and gains a reference exactly if the rules allow one, the draw is zero and its bucket does not have it; the invariant holds |
| `AddrMan.CAddrMan.Add` | src/addrman.cpp:312-369 | true exactly for a routable address not seen before; the whole effect; the invariant holds |
| `AddrMan.CAddrMan.Attempt` | src/addrman.cpp:371-388 | updates try time and count of a matching entry and nothing else; the invariant holds |
| `AddrMan.CAddrMan.Connected` | src/addrman.cpp:510-528 | refreshes the time of a matching entry after 20 minutes and nothing else; the invariant holds |
| `AddrMan.CAddrMan.GetAddr` | src/addrman.cpp:494-508 | returns 23% of the entries, at most 2500, all distinct and in the table; only permutes vRandom, which is the step GetAddr_ takes in a run |
| `AddrRuns.StepKeeps` | src/addrman.cpp:203-388 | every operation takes consistent tables to consistent tables |
| `AddrRuns.RunStaysConsistent` | src/addrman.cpp:435-492 | after any sequence of operations on a new manager the full invariant holds |
| `AddrRuns.TimesSurviveIff` | src/addrman.cpp:442-461 | the time checks of Check_ survive an operation if and only if a matching Good_ got a positive and a matching Attempt_ a non-negative time |
| `AddrRuns.RunTimes` | src/addrman.cpp:442-461 | with such times they hold after any run |
| `AddrRuns.OnlyFullBucketsForget` | src/addrman.cpp:149-201 | an address disappears only through Add_, as the last reference of an entry in the full bucket concerned |
| `AddrRuns.TriedNeverShrinks` | src/addrman.cpp:203-259 | no operation shrinks a tried bucket; the count grows by at most one, and only by Good_ |
| `AddrRuns.GoodAlwaysPromotes` | src/addrman.cpp:261-310 | after a matching Good_ the entry is tried and in its own bucket, no address is lost, at most one other entry is demoted, and the total is unchanged |
| `AddrLaws.StepKeepsOthers` | src/addrman.cpp:80-508 | no operation changes address, services, times, source or attempts of an entry it is not about, even when it moves, falls back from the tried table or makes room |
| `AddrLaws.AddedEntry` | src/addrman.cpp:312-368 | a routable address that was not there is known afterwards with its port; its entry has the announced services, the source, the time less the penalty, one reference and no history, also when its bucket was full |
| `AddrLaws.RefreshedEntry` | src/addrman.cpp:322-335 | of a known entry the services become the union, the time never goes back and is then the announced one less the penalty, and nothing else changes |
| `AddrLaws.RefreshedWhen` | src/addrman.cpp:322-335 | the time moves exactly if the news is more than an hour (online) or a day fresher |
| `AddrLaws.AnnouncedAgain` | src/addrman.cpp:322-368 | the entry of an address announced again has exactly these statistics afterwards |
| `AddrLaws.GoodEntry` | src/addrman.cpp:261-310 | after Good_ the entry is tried, with attempts zero and the given time as last success, last try and time |
| `AddrLaws.AttemptEntry` | src/addrman.cpp:370-388 | Attempt_ raises the attempts by one, sets the last try and changes nothing else |
| `AddrLaws.ConnectedEntry` | src/addrman.cpp:510-528 | Connected_ moves the time exactly if it is more than 20 minutes old, and changes nothing else |
| `AddrLaws.TerribleIff` | src/addrman.cpp:37-55 | when an entry may be deleted: not tried in the last minute, and from the future, undated, a month old, or failing |
| `AddrLaws.RecentTryIsSafe` | src/addrman.cpp:149-201 | while a bucket holds an entry that may be deleted, none tried in the last minute leaves it |
| `AddrLaws.KeysAreDistinct` | src/netbase.cpp:1131-1139 | the bytes that are hashed for a service tell address and port |
| `AddrBounds.RandomListsAll` | src/addrman.h:165-200 | vRandom lists every id once |
| `AddrBounds.TableIsBounded` | src/addrman.h:91-140 | there are at most 64*64 tried and 256*64 new entries, and the counters add up to the length of vRandom |
| `AddrBounds.GroupHoldsFewTried` | src/addrman.h:91-140 | the addresses of one group hold at most 256 tried entries |
| `AddrBounds.SourceFillsFewBuckets` | src/addrman.h:91-140 | the addresses one source group announces reach at most 32 of the new buckets |
| `AddrCheck.CheckEntry` | src/addrman.cpp:442-461 | the verdict on one entry is zero exactly when the entry passes |
| `AddrCheck.CheckTriedSlots` | src/addrman.cpp:466-474 | zero exactly when the tried slots are a list of the tried ids without repetition |
| `AddrCheck.CheckNewSlots` | src/addrman.cpp:476-485 | zero exactly when every new id occurs as often as its reference count says |
| `AddrCheck.Check` | src/addrman.cpp:435-492 | Check_ returns zero exactly when its conditions hold; whatever it returns it can only index missing addresses under id 0, and it leaves the index alone if none is missing; on a manager the operations produce it changes nothing and returns zero exactly if the times are in order |
| `AddrCheck.CheckVersusInvariant` | src/addrman.cpp:435-492 | the invariant with good times holds exactly when Check_ passes and what Check_ does not look at holds |
| `AddrDisk.Write` | src/addrman.h:281-317 | what is written is the numbered list of new and tried entries, each with address, port, services, time, source, last success and attempts, and the renumbered buckets |
| `AddrDisk.Read` | src/addrman.h:319-377 | what is read replaces the tables by those the dump describes, for any number of buckets |
| `AddrDisk.ReadNew` | src/addrman.h:327-339 | a new entry keeps its number; with another number of buckets it goes to its default bucket |
| `AddrDisk.ReadTried` | src/addrman.h:341-361 | a tried entry is kept exactly when its bucket has room |
| `AddrDisk.ReadRef` | src/addrman.h:363-377 | a bucket element counts one reference up to the limit |
| `AddrDisk.ListsOf` | src/addrman.h:283-306 | the two loops of the writer list every new and every tried id once |
| `AddrRoundTrip.RoundTripRenumbers` | src/addrman.h:279-377 | reading what was written renumbers ids and keeps address, port, services, time, source, last success and attempts of every entry, tried flags, reference counts, memberships and counters; no tried entry is lost |
| `AddrRoundTrip.RoundTripConsistent` | src/addrman.h:279-377 | reading what was written by a consistent manager gives a consistent manager |
| `AddrRoundTrip.RoundTripTimes` | src/addrman.h:279-377 | what is read back passes the time checks exactly if the last successes written do |
| `AddrForeign.TriedRefs` | src/addrman.h:327-361 | with another number of buckets the entries are read as before, but each new one is in its default bucket only, counted once |
| `AddrForeign.LoadedRows` | src/addrman.h:361-377 | rows that mention known ids only change nothing; an unknown id leaves a default entry behind |
| `AddrForeign.DefaultsFitIff` | src/addrman.h:334-338 | the references are in order exactly if no default bucket holds more than 64 entries |
| `AddrForeign.ForeignConsistentIff` | src/addrman.h:319-377 | a dump of a consistent manager with another number of buckets reads back as a consistent manager exactly if its rows mention known ids only and no default bucket receives more than 64 entries |
| `KeccakLanes.InterleaveRoundTrip` | src/keccak.c:427-457 | UNINTERLEAVE and INTERLEAVE undo each other on all words |
| `KeccakRotations.InterleaveSeparates` | src/keccak.c:427-442 | INTERLEAVE puts bit 2i of a lane at bit i of the low word and bit 2i+1 at bit i of the high word |
| `KeccakRotations.EvenAndOddBits` | src/keccak.c:444-457 | the lane that two interleaved words stand for has their bits in turn: the low word the even ones, the high word the odd ones |
| `KeccakRotations.RolOnce` | src/keccak.c:358-365 | a rotation by n followed by one by one is the rotation by n+1 |
| `KeccakRotations.WideRefines` | src/keccak.c:358-365 | the 64-bit macros compute the 64-bit operations |
| `KeccakRotations.RolHalvesRotates` | src/keccak.c:863-949 | every ROL64_n on halves is the rotation by n of the joined word |
| `KeccakRotations.HalvesRefine` | src/keccak.c:762-768 | the macros on halves compute the 64-bit operations on the joined words |
| `KeccakRotations.RolInterleavedRotates` | src/keccak.c:770-861 | every ROL64_n on interleaved words is the interleaved image of the rotation by n |
| `KeccakRotations.InterleavedRefines` | src/keccak.c:762-861 | the macros on interleaved words compute the 64-bit operations on the un-interleaved words |
| `KeccakComplement.ThetaRefines` | src/keccak.c:958-1014 | THETA computes theta of section 3.2.1 of FIPS 202, in any representation |
| `KeccakComplement.ThetaFlipsLanes` | src/keccak.c:1047-1056 | theta turns the six resting complements into a known set of twelve |
| `KeccakComplement.RhoRefines` | src/keccak.c:1016-1045 | RHO computes rho, in any representation |
| `KeccakComplement.RhoKeepsFlips` | src/keccak.c:1016-1045 | rho keeps the complements where they are |
| `KeccakComplement.PiMovesFlips` | src/keccak.c:1047-1056 | pi moves the complements to where KHI expects them |
| `KeccakComplement.KhiRefines` | src/keccak.c:1058-1135 | KHI on the twelve complemented inputs is chi of section 3.2.4 of FIPS 202, with the six resting lanes complemented again |
| `KeccakComplement.RoundRefines` | src/keccak.c:1392-1397 | one round of the code on complemented lanes is one plain round, in any representation |
| `KeccakComplement.RoundsRefine` | src/keccak.c:1392-1397 | so is any number of rounds |
| `KeccakLabels.LabelsFollowPi` | src/keccak.c:1139-1186 | each of the 24 label tables renames its predecessor by pi, and the last is followed by the first |
| `KeccakLabels.LabelsAreLayouts` | src/keccak.c:1139-1186 | every table gives each lane a word of its own |
| `KeccakLabels.NextViewIsPi` | src/keccak.c:1139-1186 | reading memory through the next table is pi of reading it through this one |
| `KeccakPermutation.Restore` | src/keccak.c:1188-1387 | the moves P1_TO_P0 .. P12_TO_P0 put the lanes that the labels Pn name where P0 names them |
| `KeccakPermutation.ThetaStep` | src/keccak.c:975-1014 | in place, the named words receive theta of what they held |
| `KeccakPermutation.RhoStep` | src/keccak.c:1016-1045 | in place, the named words receive rho of what they held |
| `KeccakPermutation.KhiStep` | src/keccak.c:1070-1135 | in place, row by row, the named words receive KHI of what they held |
| `KeccakPermutation.KfElt` | src/keccak.c:1392-1397 | under the next labels, memory holds one round of what it held under these |
| `KeccakPermutation.Unrolled` | src/keccak.c:1415-1517 | a sequence of relabelled rounds computes as many rounds |
| `KeccakPermutation.KeccakF` | src/keccak.c:1403-1517 | for every unroll count 0, 1, 2, 4, 6, 8, 12 the 24 rounds are computed, and end under the labels P0 |
| `KeccakBytes.JoinDecPair` | src/keccak.c:655-662 | two little-endian words, joined, are the little-endian lane |
| `KeccakBytes.EncJoin` | src/keccak.c:1694-1702 | writing two words is writing the joined lane |
| `KeccakBytes.HalvesConstant` | src/keccak.c:395-421 | each round constant in halves is the 64-bit one |
| `KeccakBytes.InterleavedConstant` | src/keccak.c:370-394 | each interleaved round constant is the image of the 64-bit one |
| `KeccakBytes.WideRepresents` | src/keccak.c:136-149 | the 64-bit build represents plain lanes: operations, input, output and constants |
| `KeccakBytes.HalvesRepresents` | src/keccak.c:760-768 | the 32-bit build without interleaving represents plain lanes |
| `KeccakBytes.InterleavedRepresents` | src/keccak.c:425-457 | the interleaved build represents plain lanes |
| `KeccakPadding.EbBits` | src/keccak.c:1618-1618 | the byte eb is the n extra bits followed by a one |
| `KeccakPadding.TailIsPad10Star1` | src/keccak.c:1618-1635 | the bytes that close appends are the extra bits and pad10*1 of section 5.1 of FIPS 202, and end a block |
| `KeccakPadding.PadSkipsBlocks` | src/keccak.c:1618-1635 | the padding depends only on the length of the last block |
| `Streaming.AbsorbInParts` | src/keccak.c:1568-1603 | feeding a and then b leaves the same state and pending bytes as feeding a followed by b, for any cut |
| `Streaming.PendingIsTheEnd` | src/keccak.c:1568-1603 | between calls fewer bytes than a block wait, and they are the end of the data |
| `KeccakSponge.AddBlockRefines` | src/keccak.c:329-355 | adding a block to complemented lanes is adding it to plain lanes |
| `KeccakSponge.StepRefines` | src/keccak.c:1594-1597 | absorbing a block keeps the correspondence with the plain state |
| `KeccakSponge.InitRefines` | src/keccak.c:1526-1564 | the six initial all-one lanes stand for the zero state |
| `KeccakSponge.SpongeRefines` | src/keccak.c:1568-1603 | after any data the lanes stand for the plain state and the same bytes wait |
| `KeccakTables.RhoOffsets` | src/keccak.c:1016-1045 | the rotation of the lane of step t is (t + 1)(t + 2)/2, along the walk of section 3.2.2 of FIPS 202 from (1, 0) by (y, 2x + 3y), and lane (0, 0) stays |
| `KeccakTables.EveryLaneIsVisited` | src/keccak.c:1016-1045 | the walk visits every other lane |
| `KeccakTables.ConstantsFollowRule` | src/keccak.c:136-149 | each round constant is the one of the shift register of section 3.2.5 of FIPS 202 |
| `KeccakStrings.AddBlockIsBytewise` | src/keccak.c:329-355 | absorbing adds a block byte by byte to the state as a string of 200 bytes, in the order of section 3.1 of FIPS 202 |
| `KeccakStrings.EncDec` | src/keccak.c:655-662 | writing a lane gives back the bytes it was read from |
| `KeccakContext.PaddedMessage` | src/keccak.c:1607-1647 | the padded message is message, extra bits and pad10*1 for the whole message length, in whole blocks |
| `KeccakContext.Context.constructor` | src/keccak.c:1525-1566 | a new context has absorbed the empty message |
| `KeccakContext.Context.InputBuf` | src/keccak.c:329-355 | the buffer is added to the lanes word by word |
| `KeccakContext.Context.Compress` | src/keccak.c:1594-1597 | one block is absorbed by the chosen build of the permutation |
| `KeccakContext.Context.Take` | src/keccak.c:1585-1599 | one turn of the loop consumes a piece of the data without changing the total result |
| `KeccakContext.Context.Core` | src/keccak.c:1568-1603 | state and pending bytes are a function of everything fed so far, whatever the chunks; fewer bytes than a block wait |
| `KeccakContext.Context.Close` | src/keccak.c:1607-1647 | the digest is that of plain Keccak on the padded message, for every representation, unroll count and way of feeding; the context is reset |
| `KeccakContext.Context.Uncomplement` | src/keccak.c:1637-1642 | exactly the six resting words are complemented back |
| `KeccakContext.Context.Emit` | src/keccak.c:1643-1645 | the digest is the first d bytes of the plain lanes |
| `KeccakContext.WordOut` | src/keccak.c:1636-1645 | a word without its complement is written as the plain lane |
| `HashPadding.LastByteBits` | src/jh.c:966-967 | the byte ((ub & -z) | z) & 0xFF is the extra bits, a one and zeros |
| `HashPadding.LastBytesBits` | src/jh.c:966-973 | with the zero bytes behind it |
| `HashPadding.BeConcat` | src/jh.c:977-988 | two big-endian fields in a row are the field of the combined integer |
| `HashPadding.BeDenotes` | src/jh.c:975-978 | the k big-endian bytes denote the number modulo 256^k |
| `HashPadding.LeDenotes` | src/echo.c:826-829 | the k little-endian bytes denote the number modulo 256^k |
| `HashPadding.LeConcat` | src/echo.c:826-829 | two little-endian fields in a row are the field of the combined integer |
| `Jh.NextCounts` | src/jh.c:937-942 | both forms of the block counter count modulo 2^64 |
| `Jh.LengthFieldIsBitCount` | src/jh.c:974-989 | in both word sizes the 16 bytes denote, most significant first, the number of message bits |
| `Jh.PaddedMessage` | src/jh.c:966-990 | the padded message is whole blocks: message, extra bits, a one, the least number of zeros from 383 on, and 16 bytes that denote the message length modulo 2^73 |
| `Jh.DigestBytes` | src/jh.c:991-998 | byte i of a digest of 4w bytes is byte 64 - 4w + i of the upper half of the state |
| `Jh.TailPads` | src/jh.c:966-990 | what jh_close appends makes exactly that padded message |
| `Jh.Context.constructor` | src/jh.c:891-906 | a new context has taken in the empty message |
| `Jh.Context.Take` | src/jh.c:922-946 | one turn of the loop consumes a piece of the data, counts its blocks and changes no total result |
| `Jh.Context.Core` | src/jh.c:908-951 | state, pending bytes and block count are functions of everything fed so far, whatever the chunks |
| `Jh.Context.Close` | src/jh.c:953-1000 | the digest is the end of the upper half of the state after the padded message; the context is reset |
| `EchoMix.XTimeAdds` | src/echo.c:236-241 | doubling in GF(2^8) is linear |
| `EchoMix.Words64AreByteLanes` | src/echo.c:236-241 | the 64-bit shift, mask and multiplication by 27 double every byte (section 4.2.1 of FIPS 197) without carries between bytes |
| `EchoMix.Words32AreByteLanes` | src/echo.c:524-529 | so do the 32-bit ones |
| `EchoMix.MixWordIsMatrix` | src/echo.c:232-246 | the four formulas are the rows of the matrix (2 3 1 1) of section 5.1.3 of FIPS 197 in every byte lane |
| `EchoMix.MixColumn` | src/echo.c:226-250 | the four rows of words are replaced in place by the mixed words, the others stay |
| `EchoMix.BigMixColumns` | src/echo.c:283-288 | every byte of all 16 rows is the matrix product of its column |
| `EchoMix.WordSizesAgree` | src/echo.c:515-538 | the 64-bit and the 32-bit version give the same bytes |
| `Echo.PlusAdds` | src/echo.c:637-644 | INCR_COUNTER is addition modulo 2^128 |
| `Echo.FieldIsValue` | src/echo.c:826-829 | the four words are written as 16 bytes that denote, least significant first, the counter |
| `Echo.PaddedMessage` | src/echo.c:824-847 | the padded message ends a block: message, extra bits, a one, zeros, and 18 bytes that denote the digest length and the message length |
| `Echo.DigestBytes` | src/echo.c:848-855 | byte i of the digest is byte i of the last chaining value |
| `Echo.ChainFollowsCore` | src/echo.c:730-763 | every full block of the message is compressed under the number of message bits up to its end |
| `Echo.LastCounts` | src/echo.c:830-843 | the last block with message bits sees their number; a block of padding alone sees zero |
| `Echo.Context.constructor` | src/echo.c:646-670 | a new context has taken in the empty message |
| `Echo.Context.Increase` | src/echo.c:637-644 | the counter grows by the value modulo 2^128 |
| `Echo.Context.Take` | src/echo.c:745-761 | one turn of the loop consumes a piece of the data and changes no total result |
| `Echo.Context.Core` | src/echo.c:765-798 | chaining value, counter and pending bytes are functions of everything fed so far, whatever the chunks |
| `Echo.Context.CountLast` | src/echo.c:824-836 | the length field is the number of message bits, and the counter becomes the one the block must see |
| `Echo.Context.LastBlocks` | src/echo.c:824-847 | the one or two closing blocks are those of the padded message with their counts |
| `Echo.Context.Close` | src/echo.c:800-857 | the digest is that of the chain of blocks with the counts the definition gives; the context is reset |
| `Kernel.SortKeeps` | src/kernel.cpp:165-166 | sorting the candidates keeps them all and orders them by time and hash |
| `Kernel.SelectBlockFromCandidates` | src/kernel.cpp:77-117 | the selected block is the least selection hash among the unselected ones up to the stop, or the first unselected one; nothing is selected only when nothing is left or a hash is not indexed |
| `Kernel.StakeIsFavoured` | src/kernel.cpp:97-102 | a proof-of-work block is selected over a proof-of-stake candidate only if its hash is smaller by a factor of 2^32 |
| `Kernel.StakeOverWork` | src/kernel.cpp:97-102 | a proof-of-stake block selected over a proof-of-work candidate has a hash that is not larger once it is 32 bits shorter |
| `Kernel.HashesDecide` | src/kernel.cpp:97-110 | between candidates of one kind the hashes decide |
| `Kernel.SectionsGrow` | src/kernel.cpp:59-63 | the sections of the selection interval grow |
| `Kernel.SectionEnds` | src/kernel.cpp:59-63 | the first is a third of the modifier interval, the last the whole of it |
| `Kernel.PickIsUnique` | src/kernel.cpp:77-117 | at most one block can be selected |
| `Kernel.BitsOfValue` | src/kernel.cpp:180-180 | bit i of a modifier is the i-th bit put in, and there are no others |
| `Kernel.SetNextBit` | src/kernel.cpp:180-180 | setting the bit of a round adds it above the earlier ones |
| `Kernel.GetLastStakeModifier` | src/kernel.cpp:45-56 | finds modifier and time of the nearest generating block, and fails exactly when there is none |
| `Kernel.GetStakeModifierSelectionInterval` | src/kernel.cpp:66-72 | the sum of the 64 sections |
| `Kernel.CollectCandidates` | src/kernel.cpp:157-163 | the candidates are the longest run back from the parent without a block before the start |
| `Kernel.SelectRound` | src/kernel.cpp:175-182 | while fewer blocks are selected than there are candidates a round always selects one |
| `Kernel.RunRounds` | src/kernel.cpp:169-186 | min(64, candidates) rounds each make the pick of their section, and the modifier has exactly their entropy bits |
| `Kernel.ComputeNextStakeModifier` | src/kernel.cpp:132-217 | fails only without a generating ancestor; keeps the modifier inside an interval and otherwise makes the one of the 64 picks |
| `KernelChain.NextIsUnique` | src/kernel.cpp:132-217 | modifier and generation flag of the next block are functions of the chain |
| `KernelChain.PicksAreDistinct` | src/kernel.cpp:91-92 | no block contributes two bits |
| `KernelChain.LastStop` | src/kernel.cpp:153-176 | after all 64 sections the stop is the start of the parent's modifier interval |
| `KernelChain.Extend` | src/kernel.cpp:141-217 | adding the block that ComputeNextStakeModifier describes keeps a chain built, and never fails |
| `KernelChain.ModifierIsNearest` | src/kernel.cpp:141-151 | every block carries the modifier of its nearest generating ancestor or itself |
| `KernelChain.GeneratingParentIsLater` | src/kernel.cpp:150-151 | a generating block's parent lies in a later interval than the generation before, whatever the block times |
| `KernelChain.IntervalsAreDistinct` | src/kernel.cpp:150-151 | under non-decreasing times no two generating blocks share a modifier interval |
| `KernelChain.GetKernelStakeModifier` | src/kernel.cpp:221-256 | returns the modifier of the first generating block at least a selection interval after the coin's block, and fails exactly when there is none |
| `KernelChain.SelectionIntervalIsPositive` | src/kernel.cpp:59-72 | the selection interval is at least one modifier interval unless 63 intervals overflow 32 bits |
| `Digits.ValueOfDigits` | src/base58.cpp:39-46 | the digits of a number denote it |
| `Digits.DigitsOfValue` | src/base58.cpp:90-106 | digits without leading zero are those of their value |
| `BigNum.BodyRoundTrip` | src/bignum.h:451-488 | reading the signed bytes of a number gives the number |
| `BigNum.FromSigned` | src/bignum.h:313-329 | a magnitude with its sign bit or sign byte denotes the signed number |
| `BigNum.AppendBuilds` | src/bignum.h:313-329 | one turn of the setter loops extends the signed magnitude by one byte, skipping leading zeros |
| `BigNum.CBigNum.SetInt64` | src/bignum.h:291-340 | the number is the given one for every int64, the minimum included |
| `BigNum.CBigNum.SetUint64` | src/bignum.h:365-394 | the number is the given one for every uint64 |
| `BigNum.CBigNum.SetUint256` | src/bignum.h:396-426 | the number is the given one for every uint256 |
| `BigNum.CBigNum.GetUint64` | src/bignum.h:342-363 | returns the absolute value modulo 2^64 |
| `BigNum.CBigNum.GetUint256` | src/bignum.h:428-449 | returns the absolute value modulo 2^256 |
| `BigNum.CBigNum.SetVch` | src/bignum.h:451-468 | the number is that of the bytes; as the length becomes an int, from 2^31 - 4 bytes on the number is left alone, and beyond 2^32 only the top bytes count |
| `BigNum.CBigNum.GetVch` | src/bignum.h:470-488 | returns the signed bytes, least significant first |
| `BigNum.VchRoundTrip` | src/bignum.h:451-488 | setvch undoes getvch on every integer |
| `BigNum.CBigNum.SetCompact` | src/bignum.h:490-504 | the number is that of the compact form |
| `BigNum.CBigNum.GetCompact` | src/bignum.h:506-525 | returns length and first three bytes, the length modulo 256 |
| `Compact.TruncatedBody` | src/bignum.h:490-525 | the truncated number has the same first three signed bytes and zeros behind |
| `Compact.CompactTruncates` | src/bignum.h:490-525 | SetCompact after GetCompact truncates to the first three signed bytes |
| `Compact.ShortIsKept` | src/bignum.h:490-525 | up to three bytes nothing is lost |
| `Compact.TruncatingTwice` | src/bignum.h:490-525 | truncating keeps the compact form, so it is idempotent |
| `Compact.TruncationIsMonotone` | src/bignum.h:490-525 | truncation is monotone on non-negative numbers |
| `Compact.LongIsLost` | src/bignum.h:512-523 | from 256 signed bytes on the round trip never truncates |
| `Compact.CompactTruncatesIff` | src/bignum.h:490-525 | it truncates if and only if there are at most 255 signed bytes |
| `NumberText.ToString` | src/bignum.h:557-608 | the text is the digits of the number, with a minus sign if it is negative |
| `NumberText.SetHex` | src/bignum.h:527-555 | the number is that of the text: spaces, sign, prefix, spaces, hexadecimal digits |
| `NumberText.DigitCharIs` | src/bignum.h:557-608 | the digits are 0 to 9 and then small letters |
| `NumberText.HexIgnoresCase` | src/bignum.h:527-555 | a text denotes the same number in capitals and in small letters |
| `NumberText.HexRoundTrip` | src/bignum.h:527-613 | SetHex undoes GetHex on every integer |
| `Base58.IndexOfChar` | src/base58.cpp:13-13 | every character of the alphabet is found at its own place |
| `Base58.VchIsValue` | src/base58.cpp:22-29 | with the extra zero the bytes denote a non-negative number |
| `Base58.AlphabetIs` | src/base58.cpp:13-13 | the alphabet is the ASCII letters and digits without 0, O, I and l |
| `Base58.CStringIsPrefix` | src/base58.cpp:75-110 | the text that is decoded is the longest prefix without a NUL |
| `Base58.EncodeBase58` | src/base58.cpp:16-65 | the text is a one for each leading zero byte and then the number in base 58, for every byte vector whose length with header and sign fits an int |
| `Base58.DecodeBase58` | src/base58.cpp:75-138 | the bytes are a zero for each leading one and then the number in base 256, or nothing |
| `Base58.TrimmedVch` | src/base58.cpp:122-126 | without the sign byte the bytes are those of the number |
| `Base58RoundTrip.AcceptedLanguage` | src/base58.cpp:75-138 | the decoder accepts exactly spaces, characters of the alphabet, spaces |
| `Base58RoundTrip.DecodeEncode` | src/base58.cpp:16-138 | decoding an encoding gives the bytes back, leading zeros included |
| `Base58RoundTrip.EncodeDecode` | src/base58.cpp:16-138 | encoding a decoding gives the text back, for every text over the alphabet |
| `Base58RoundTrip.EightInEleven` | src/base58.cpp:33-35 | 256^(8k) is at most 58^(11k) |
| `Base58RoundTrip.EncodedLength` | src/base58.cpp:33-35 | an encoding of n bytes has at most n * 138 / 100 + 1 characters |
| `Base58Check.EncodeBase58Check` | src/base58.cpp:148-155 | the text is the encoding of data and checksum, within the same length |
| `Base58Check.DecodeBase58Check` | src/base58.cpp:159-174 | the data in front of a matching checksum, or nothing |
| `Base58Check.CheckRoundTrip` | src/base58.cpp:148-174 | every byte vector survives encoding and decoding with its checksum |
| `Base58Check.CheckedText` | src/base58.cpp:148-174 | a text over the alphabet that decodes is the encoding of its data |
| `Base58Check.CBase58Data.SetString` | src/base58.cpp:211-227 | takes version and data of the text, or clears the object |
| `Base58Check.CBase58Data.ToString` | src/base58.cpp:234-239 | the text of version and data, within the same length |
| `Base58Check.DataRoundTrip` | src/base58.cpp:211-239 | SetString(ToString(d)) restores version and data, for any hash function |
| `Checkpoints.DescendsIsTransitive` | src/checkpoints.cpp:144-185 | descent in the block tree is transitive |
| `Checkpoints.AncestorsAreOrdered` | src/checkpoints.cpp:144-185 | two ancestors of one block are related |
| `Checkpoints.DescendsInGrown` | src/checkpoints.cpp:144-185 | descent survives the growth of the tree |
| `Checkpoints.AcceptsIffDescends` | src/checkpoints.cpp:144-185 | a checkpoint is accepted exactly when it strictly descends from the current one, and recorded as invalid exactly when neither descends from the other |
| `Checkpoints.SyncCheckpoint.TraceBack` | src/checkpoints.cpp:160-163 | the walk along pprev reaches the ancestor at the height sought |
| `Checkpoints.SyncCheckpoint.Validate` | src/checkpoints.cpp:144-185 | the verdict and the recorded invalid checkpoint |
| `Checkpoints.SyncCheckpoint.Adopt` | src/checkpoints.cpp:213-232 | the checkpoint changes only after every disk and chain operation succeeded |
| `Checkpoints.SyncCheckpoint.ProcessSyncCheckpoint` | src/checkpoints.cpp:443-492 | the whole effect of a checkpoint message, pending and failing cases included |
| `Checkpoints.SyncCheckpoint.AcceptPendingSyncCheckpoint` | src/checkpoints.cpp:203-245 | the whole effect of accepting the pending checkpoint |
| `Checkpoints.SyncCheckpoint.AutoSelectSyncCheckpoint` | src/checkpoints.cpp:248-256 | the nearest ancestor of the best block that is old and deep enough, or the root |
| `Checkpoints.SyncCheckpoint.CheckSync` | src/checkpoints.cpp:259-291 | on the synced main network passes above the checkpoint exactly the blocks whose parent descends from it |
| `Checkpoints.StepAscends` | src/checkpoints.cpp:187-245 | every step keeps the state valid, grows the tree, and moves the checkpoint only to a strict descendant |
| `Checkpoints.CheckpointsAscend` | src/checkpoints.cpp:203-245 | over any run every later checkpoint descends from every earlier one |
| `Checkpoints.PassedBlocksDescend` | src/checkpoints.cpp:269-291 | a block passed above the checkpoint has a parent that descends from every checkpoint of the run |
| `Ddns.NextHashIs` | src/ddns.cpp:208-210 | pos is rotated by one bit and the character added, step is multiplied by 31 and the character xored in |
| `Ddns.OddCancels` | src/ddns.cpp:195-202 | an odd factor shares no power of two |
| `Ddns.ProbesAreDistinct` | src/ddns.cpp:200-202 | within 256 probes an odd step meets no slot twice |
| `Ddns.SomeProbeIsFree` | src/ddns.cpp:200-202 | with fewer than 256 entries a run of taken probes ends before 256 |
| `Ddns.InsertHolds` | src/ddns.cpp:200-203 | an entry at its first free probe keeps the table searchable |
| `Ddns.NoneFound` | src/ddns.cpp:478-486 | an empty slot proves that no entry matches |
| `Ddns.FirstFound` | src/ddns.cpp:478-486 | the first matching probe is the first matching entry in the order of insertion |
| `Ddns.Table.Insert` | src/ddns.cpp:200-203 | the loop ends and adds the entry, for fewer than 256 entries, which is when it ends at all |
| `Ddns.Table.Find` | src/ddns.cpp:746-761 | the loop ends and finds the first entry of that name and kind, or proves that there is none, with fewer than 256 entries or such an entry, which is when it ends at all |
| `Ddns.FullTableHasNoFreeSlot` | src/ddns.cpp:200-202 | a table of 256 entries has no free slot |
| `Ddns.InsertEndsIff` | src/ddns.cpp:200-202 | the insertion loop meets a free slot if and only if there are fewer than 256 entries |
| `Ddns.SearchEndsIff` | src/ddns.cpp:478-486 | the search meets a free slot or a match if and only if there are fewer than 256 entries or an entry matches |
| `DdnsNames.SuffixesAre` | src/ddns.cpp:185-212 | the inserted suffixes are the non-empty runs behind a dot |
| `DdnsNames.ScanStep` | src/ddns.cpp:188-211 | one step of the backward scan extends hash and run, or ends and inserts the run |
| `DdnsNames.DDns.constructor` | src/ddns.cpp:185-237 | the table holds the suffixes and then the local names, up to 256 of them |
| `DdnsNames.DDns.InsertSuffixes` | src/ddns.cpp:185-212 | the scan inserts exactly the suffixes |
| `DdnsNames.DDns.InsertLocals` | src/ddns.cpp:214-237 | the loop inserts every local record with its value |
| `DdnsNames.DDns.AllowedTld` | src/ddns.cpp:470-486 | a name passes exactly if it was listed behind a dot; in a full table the search ends for listed names |
| `DdnsNames.DDns.LocalSearch` | src/ddns.cpp:746-761 | finds the value of the first local record of that name, and nothing exactly if there is none; in a full table the search ends for names that have one |
| `Bloom.MaskIsBit` | src/bloom.cpp:16-16 | the masks are the eight bits, the lowest first |
| `Bloom.SetBitIs` | src/bloom.cpp:44-49 | setting a bit of the filter sets that bit and no other |
| `Bloom.SetKeyCovers` | src/bloom.cpp:44-49 | inserting sets all bits of the key and clears none |
| `Bloom.CoveredKeys` | src/bloom.cpp:67-81 | a key stays in a filter that only gains bits |
| `Bloom.KeyIsVisible` | src/bloom.cpp:195-206 | with a hash function a filter that has a key is not all zero |
| `Bloom.KeyStaysIff` | src/bloom.cpp:195-206 | after UpdateEmptyFull a key whose bits are set is still contained if and only if there is a hash function or a set bit, or no byte at all |
| `BloomFilter.CBloomFilter.Insert` | src/bloom.cpp:40-51 | the bits of the key are set; no key is lost |
| `BloomFilter.CBloomFilter.Received` | src/bloom.cpp:195-206 | a filter from a peer, with any bytes and any number of hash functions, has flags that say whether its bytes are full or zero |
| `BloomFilter.CBloomFilter.IsContained` | src/bloom.cpp:67-81 | the exact verdict; true for every key ever inserted, exactly unless the flags call a filter without hash functions empty |
| `BloomFilter.CBloomFilter.UpdateEmptyFull` | src/bloom.cpp:195-206 | the flags say whether all bytes are full or zero; no key is lost |
| `BloomFilter.CBloomFilter.MatchOutput` | src/bloom.cpp:123-168 | one output: found exactly if something was found before or a datum matches, and added by the flag rules |
| `BloomFilter.CBloomFilter.MatchOutputs` | src/bloom.cpp:112-171 | the outputs: the verdict on the filter before the call, and exactly the marked outputs added |
| `BloomFilter.CBloomFilter.MatchInputs` | src/bloom.cpp:173-192 | the inputs: true exactly if an outpoint or a datum matches |
| `BloomFilter.CBloomFilter.IsRelevantAndUpdate` | src/bloom.cpp:102-193 | the verdict in terms of the filter before the call, exactly the outpoints added, no bit changed without a flag that adds one of the outputs, and no spender of a known outpoint missed unless the flags call a filter without hash functions empty |
| `BloomFilter.CBloomFilter.Replay` | src/bloom.cpp:40-206 | any interleaving of insertions, flag updates and matches loses no key |
| `BloomFilter.CBloomFilter.SpenderIsRelevant` | src/bloom.cpp:102-193 | once an output matches under the update-all flag, or one that pays to a public key under the flag for those, a later spender is relevant, whatever happened in between, for every filter that has a hash function or a set bit |
| `LockedPages.TouchedPages` | src/allocators.h:61-64 | the pages locked for a range that does not wrap around are exactly those it has a byte in |
| `LockedPages.AllTouchedLockedIff` | src/allocators.h:61-64 | every page a range has a byte in is locked if and only if the range does not wrap around the address space |
| `LockedPages.LoopEndsIff` | src/allocators.h:62-64 | for every range, also one that wraps around, the loop over the pages ends if and only if the range does not reach the last page of the address space |
| `LockedPages.HistogramIsUnique` | src/allocators.h:66-75 | the histogram is determined by the live ranges |
| `LockedPages.UnlockRestores` | src/allocators.h:79-100 | unlocking a range restores the histogram that the other ranges alone have |
| `LockedPages.LockedPageManager.LockRange` | src/allocators.h:57-77 | for every range whose loop ends, the histogram counts it on the pages of the loop, and exactly the pages of live ranges are locked |
| `LockedPages.LockedPageManager.UnlockRange` | src/allocators.h:80-100 | the histogram counts the range no more, and exactly the pages of the remaining ranges are locked |

## Left out

Not part of this model:

- `Select_` and `GetChance` of the address manager, and the sizing of the bloom filter: floating point.
- The byte format of the address file, truncated or malformed streams, and the locks around the calls.
- The overflow of `nIdCount`, of the histogram counters and of the suffix offsets beyond 15 bits: ids
  and counters are unbounded, and the suffix list is taken to be shorter than 32768 characters.
- The reference past the bucket vector that the reader forms, and does not use, for a dump with more
  than 256 new buckets. A negative number of buckets reads as none.
- `GetAdjustedTime` is one value during a call.
- The permutation E8 of JH, and the AES rounds and the output transformation of ECHO: JH and ECHO take
  the compression of a block as a parameter. The 64-bit block counter of JH is kept, so its length field
  is the number of bits modulo 2^73.
- The copies between the context and local variables (`READ_STATE`, `WRITE_STATE`). The 25 lanes are one
  sequence that the steps reassign; the 25 assignments of a step macro are a loop over its labels.
- The debugging output of the kernel, `GetWeight`, `CheckStakeKernelHash` and the modifier
  checkpoints. `std::sort` is a function that is proved to sort.
- Setting the next modifier bit is an addition, which is what the bitwise or is while the upper bits
  are zero.
- OpenSSL's BIGNUM is an integer; the MPI format and the `int` length of `BN_mpi2bn` are written out.
- Base58 addresses and secrets (`CBitcoinAddress`, `CBitcoinSecret`): length checks on top of
  `CBase58Data`.
- Reading the file of local names in `DDns`: the records are given, each with the offset its text has
  in the buffer. Packets, caching, the name database, and the fact that the filter is off when no suffix
  is listed, are not modelled.
- Script parsing: an output or input comes as the list of data its readable operations push, with a
  flag for what the script solver says.
- Masking an address with `page_mask` is rounding down to a multiple of the page size, which is a power
  of two.
- `ResetSyncCheckpoint` may move the checkpoint backwards on purpose.
- Everything around these cores: sockets, RPC, wallet, database, scripts, ciphers and signatures.

Stated for fewer inputs than the code accepts:

- LockedPages.LockedPageManager.LockRange: for a range that does not reach the last page, where the loop would not end (`LockedPages.LoopEndsIff`).
- LockedPages.LockedPageManager.UnlockRange: for a range that is locked; the source asserts as much page by page.
- Ddns.Table.Insert: for fewer than 256 entries; otherwise the loop does not end (`Ddns.InsertEndsIff`).
- Ddns.Table.Find: for fewer than 256 entries or a name that is there; otherwise the loop does not end (`Ddns.SearchEndsIff`).
- DdnsNames.DDns.constructor: for at most 256 names in all; otherwise it does not end.
- DdnsNames.DDns.AllowedTld: in a table of 256 names, for listed names, as for `Ddns.Table.Find`.
- DdnsNames.DDns.LocalSearch: in a table of 256 names, for names that have a record, as for `Ddns.Table.Find`.
- BloomFilter.CBloomFilter.SpenderIsRelevant: not for a filter without a hash function and without a set bit, whose keys `UpdateEmptyFull` hides (`Bloom.KeyStaysIff`).
- Base58.EncodeBase58: says nothing about byte vectors of 2^31 - 5 bytes and more, whose length does not fit the `int` of `BN_mpi2bn`.
- Base58Check.EncodeBase58Check: likewise, from 2^31 - 9 bytes on.
- Base58Check.CBase58Data.ToString: likewise, from 2^31 - 10 bytes on.
