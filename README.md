# Chord identifier ring, the vs_cache LRU, and the DHash availability simulator

This project models three parts of the Chord/DHash code base in Dafny and proves properties about them.

- **Identifier ring and bit helpers** (`utils/id_utils.C`; modules `IdRing`, `IdBits`, `IdHex`, `Pow2Arith`).
  - Identifiers are integers modulo 2^160 (`NBIT` = 160, `lsd/chord.h`).
  - The model covers:
    - increment and decrement;
    - the successor and predecessor finger identifiers (n ± 2^p);
    - doubling (`n << k`);
    - the four arc tests;
    - clockwise distance and `diff`;
    - the bit helpers: `topbits`, `shifttopbitout`, `n1bits`, `bitindexmismatch`, `bitindexzeros`, `createbits`, `log2`;
    - the hex parser `str2chordID`.
  - bigint shifts and masks are arithmetic: `1 << k` is `Pow2(k)`, `x & ((1 << w) - 1)` is `x % Pow2(w)`, and a bit is `Bit(x, i)`.
- **vs_cache** (`lsd/chord.h`; module `LruCache`).
  - A bounded key/value cache with least-recently-used eviction and an optional flush callback.
  - It is a class with an index map, an LRU list and a counter.
  - Each method is specified by a pure function on a `View` (index plus LRU list).
  - The callback invocations an `enter` causes are returned as a list of `FlushCall` values.
- **The global-view DHash simulator** (`availsim/dhash.py`; module `AvailSim`).
  - The simulator keeps:
    - a sorted list of live node identifiers;
    - the known and dead nodes;
    - the blocks inserted so far;
    - per node, the blocks it stores.
  - It places each block on the successors of the block's identifier.
  - It repairs blocks held by too few of their successors.
  - It counts the blocks that are still readable.
  - `node` and `dhash` are classes whose methods update their fields in place.
  - The storage policy subclasses become the `Policy` datatype.
  - The source's assertions at the bottom of the file are restated as lemmas (`AvailSimSelfTest`).
- **Shared values** (module `Wrappers`): the `Option` type used by the cache and the simulator.

## Model

| member | source | states |
|---|---|---|
| IdRing.IncId | utils/id_utils.C:32-41 | the successor of n is n + 1, wrapping from 2^160 - 1 to 0; it is one step clockwise from n |
| IdRing.DecId | utils/id_utils.C:44-51 | the predecessor of n is n - 1, wrapping from 0 to 2^160 - 1; n is one step clockwise from it |
| IdRing.DecIncRoundTrip | utils/id_utils.C:32-51 | decID and incID are inverses in both orders |
| IdRing.SuccessorId | utils/id_utils.C:54-66 | for p < NBIT the result lies exactly 2^p clockwise from n; for p >= NBIT n is returned unchanged |
| IdRing.PredecessorId | utils/id_utils.C:69-81 | for p < NBIT the result lies exactly 2^p counter-clockwise from n; for p >= NBIT n is returned unchanged |
| IdRing.PredecessorSuccessorRoundTrip | utils/id_utils.C:54-81 | predecessorID(successorID(n, p), p) == n and successorID(predecessorID(n, p), p) == n |
| IdRing.DistanceFromDetermines | utils/id_utils.C:157-164 | two identifiers at the same clockwise distance from a point are equal |
| IdRing.DistanceToDetermines | utils/id_utils.C:157-164 | two identifiers at the same clockwise distance to a point are equal |
| IdRing.DoubleId | utils/id_utils.C:84-93 | the result is n·2^k reduced modulo 2^160: n itself for k == 0, and 0 once k >= NBIT |
| IdRing.DoubleIdPastTop | utils/id_utils.C:84-93 | shifting an identifier by NBIT or more bits and masking leaves 0 |
| IdRing.DoubleIdCompose | utils/id_utils.C:84-93 | doubling by a, then by b, is doubling by a + b |
| IdRing.Distance | utils/id_utils.C:157-164 | the clockwise distance from a to b is between 1 and 2^160; it is a whole turn when a == b and the ring offset otherwise |
| IdRing.DistanceSumsToTurn | utils/id_utils.C:157-164 | for a != b, the distances a→b and b→a add up to one turn of the ring |
| IdRing.Between | utils/id_utils.C:97-108 | n is in the open arc (a, b) iff its offset from a is strictly between 0 and the distance a→b; with a == b this is every identifier but a |
| IdRing.BetweenLeftIncl | utils/id_utils.C:112-123 | n is in [a, b) iff its offset from a is below the distance a→b |
| IdRing.BetweenRightIncl | utils/id_utils.C:127-138 | for a != b, n is in (a, b] iff its offset from a is positive and at most the distance a→b |
| IdRing.BetweenBothIncl | utils/id_utils.C:142-153 | n is in [a, b] iff its offset from a is at most the distance a→b |
| IdRing.BetweenEndpoints | utils/id_utils.C:97-108 | the open test rejects both endpoints; with a == b it accepts exactly the identifiers other than a |
| IdRing.ClosedTestsAcceptAllWhenEqual | utils/id_utils.C:112-153 | with a == b, each test that closes an endpoint accepts every identifier |
| IdRing.ClosedTestsExtendOpen | utils/id_utils.C:97-153 | each closed variant is the open test plus exactly the endpoints it closes |
| IdRing.DiffAsWritten | utils/id_utils.C:167-172 | diff as written: the clockwise distance when a < b, one whole turn when a == b |
| IdRing.DiffAsWrittenLeavesRing | utils/id_utils.C:167-172 | for a = 1 and b = 0, diff as written is 2^160 + 1, while the clockwise distance is 2^160 - 1 |
| IdRing.Diff | utils/id_utils.C:167-172 | corrected diff: the clockwise distance from a to b, for every a and b |
| IdBits.TopBits | utils/id_utils.C:175-190 | the top n bits of the 160-bit form of a: a shifted right by NBIT - n, and below 2^n |
| IdBits.ShiftTopBitOut | utils/id_utils.C:194-206 | dropping the top n bits and shifting the rest up by n is doubleID(a, n) |
| IdBits.ShiftMaskedIsDouble | utils/id_utils.C:194-206 | the source's mask-then-shift expression equals doubleID(a, n) |
| IdBits.PopCountIsCardinality | utils/id_utils.C:209-217 | the bit count equals the size of the set of set-bit positions |
| IdBits.N1Bits | utils/id_utils.C:209-217 | the result is the number of one bits among the low 32 bits of n |
| IdBits.BitIndexMismatch | utils/id_utils.C:220-233 | for different bit lengths: the top index of p; for equal lengths: -1 iff n == p, otherwise the highest differing bit, with all higher bits equal |
| IdBits.BitIndexZeros | utils/id_utils.C:236-250 | scanning down from bit i, the result is the lowest index of the first run of nzero zero bits; -1 (or i when i < 0) when there is no such run |
| IdBits.CreateBits | utils/id_utils.C:253-263 | bit j of the result is bit j of n above pos up to n's length, and one of the top pos + 1 bits of x for j <= pos; no other bit is set |
| IdBits.CreateBitsSplice | utils/id_utils.C:253-263 | the source's mask, and, shift and or steps produce exactly that bit pattern |
| IdBits.Log2 | utils/id_utils.C:266-274 | the index of the highest one bit among the low 32 bits of n, or 0 when they are all zero |
| IdHex.Str2ChordId | utils/id_utils.C:277-293 | succeeds iff the text has at most 40 characters, all of them hex digits, and then yields the value of the digits; too long a text leaves the target untouched; at a bad digit the target holds the value of the digits before it |
| IdHex.HexRoundTrip | utils/id_utils.C:277-293 | parsing the w-digit hex text of a value below 16^w gives the value back |
| IdHex.IdTextRoundTrip | utils/id_utils.C:277-293 | every identifier has a 40-digit text that str2chordID parses back to it |
| IdHex.HexValueBound | utils/id_utils.C:277-293 | a text of k digits denotes a value below 2^(4k), so 40 digits always fit on the ring |
| IdRing.ModulusIsPow2 | lsd/chord.h:12 | the ring modulus is 2^NBIT with NBIT = 160 |
| LruCache.VsCache.constructor | lsd/chord.h:87-89 | a new cache is empty, has no callback and holds at most max_entries entries (250 by default) |
| LruCache.VsCache.Flush | lsd/chord.h:92 | every entry is removed and the callback is not invoked; capacity and callback are kept |
| LruCache.VsCache.SetFlushCb | lsd/chord.h:112-114 | only the callback changes |
| LruCache.VsCache.Touch | lsd/chord.h:70-74 | a present key moves to the most-recent end of the LRU list; the entries are unchanged |
| LruCache.VsCache.Enter | lsd/chord.h:93-100 | the new state and the callback invocations are those of EnterView: a present key is only touched; a new key is appended and the oldest entries are evicted |
| LruCache.VsCache.NewEntry | lsd/chord.h:50-61 | a new entry goes at the tail; the oldest entries are evicted while the count exceeds the capacity, each passed to the callback when one is set |
| LruCache.VsCache.Lookup | lsd/chord.h:102-110 | state and result are those of LookupView: a present key's value, with the key made most recent; None and no change for an absent key |
| LruCache.EnterPresentTouches | lsd/chord.h:93-96 | enter on a present key keeps its old value, only moves it to the tail, evicts nothing, and keeps the invariant |
| LruCache.EnterNewKeepsInv | lsd/chord.h:50-61 | enter on a new key keeps the invariant (consistent index, no duplicates, within capacity) and evicts exactly one entry when the cache was full |
| LruCache.EnterNewEvictsOldest | lsd/chord.h:50-61 | the entries evicted for a new key are the least recently used ones, with their values, in LRU order; the key itself stays, after the surviving old keys, which keep their order |
| LruCache.LookupTouches | lsd/chord.h:102-110 | lookup of a present key returns its value and makes it most recent; lookup of an absent key changes nothing and returns None |
| LruCache.EvictPrefixConsistent | lsd/chord.h:63-68 | removing the oldest d entries from index and list leaves them consistent |
| LruCache.ConsistentSize | lsd/chord.h:40-115 | in a consistent cache the index and the LRU list have the same size, so one counter serves both |
| LruCache.TouchKeepsOrder | lsd/chord.h:70-74 | touching keeps the keys, adds no duplicate, and puts the key last |
| AvailSim.BetweenAgreesWithRing | availsim/dhash.py:5-11 | on ring identifiers the simulator's arc test matches the C open-arc test for a != b, and is its complement when a == b |
| AvailSim.BisectRightFinds | availsim/dhash.py:96-98 | on the sorted live list, the node being failed sits just before the bisect point, which is the source's own assertion |
| AvailSim.InsortKeepsAscending | availsim/dhash.py:82-85 | inserting a new identifier keeps the live list sorted and adds exactly that identifier |
| AvailSim.PopKeepsAscending | availsim/dhash.py:96-98 | popping one entry keeps the list sorted and removes exactly that entry |
| AvailSim.FindSuccessorIndex | availsim/dhash.py:108-114 | the index of the first live node at or after id, or 0 when every node is below id (wrap-around) |
| AvailSim.FindPredecessorIndex | availsim/dhash.py:115-121 | on a sorted list, the index of the last node strictly below id, or the last index when none is below (wrap-around); -1 for an empty ring |
| AvailSim.Succ | availsim/dhash.py:123-134 | yields min(num, number of live nodes) nodes |
| AvailSim.SuccElements | availsim/dhash.py:123-134 | the k-th successor is the live node k places clockwise after the first node at or after o |
| AvailSim.SuccDistinct | availsim/dhash.py:123-134 | the successors never repeat a node and are all live |
| AvailSim.SuccIsFirstClockwise | availsim/dhash.py:123-134 | the first successor is the live node reached first going clockwise from o, including o itself |
| AvailSim.Pred | availsim/dhash.py:136-146 | yields min(num, number of live nodes) nodes |
| AvailSim.PredElements | availsim/dhash.py:136-146 | the predecessors are the nodes that end, going clockwise, at the last node strictly before o |
| AvailSim.PredDistinct | availsim/dhash.py:136-146 | the predecessors never repeat a node and are all live |
| AvailSim.PredExcludesKey | availsim/dhash.py:136-146 | fewer predecessors than live nodes never include o itself |
| AvailSim.SuccCacheValid | availsim/dhash.py:217-221 | when a later key b is not past the first successor of an earlier key c, b has the same successor list as c |
| AvailSim.CachedSuccValid | availsim/dhash.py:217-221 | walking keys in ascending order, the successor list available_blocks reuses is always the current key's true successor list |
| AvailSim.RespBlocksAsWritten | availsim/dhash.py:201-208 | the key ranges repair examines, as written; every listed key is an inserted key |
| AvailSim.RespBlocksAsWrittenMisplaces | availsim/dhash.py:201-208 | keys [4, 17]: with p = 63 and s0 = 4 the written range misses key 4, which is on the arc (63, 4]; with p = 4 and s0 = 17 it includes 4, which is not on (4, 17] |
| AvailSim.RespBlocks | availsim/dhash.py:201-208 | corrected ranges (bisect_right at both ends); every listed key is an inserted key |
| AvailSim.RespBlocksExact | availsim/dhash.py:201-208 | on sorted keys the corrected ranges list exactly the keys of the arc (p, s0] |
| AvailSim.RespBlocksComplete | availsim/dhash.py:201-208 | every key on the arc (p, s0] is listed |
| AvailSim.RespBlocksSound | availsim/dhash.py:201-208 | every listed key lies on the arc (p, s0] |
| AvailSim.WindowStartsAsWritten | availsim/dhash.py:198 | the windows visited as written: start i with 1 <= i and i + count < len(slice) |
| AvailSim.WindowStarts | availsim/dhash.py:198-200 | corrected windows: every start with a node before it and a full window of count nodes, i.e. 1 <= i and i + count <= len(slice) |
| AvailSim.WindowStartsAsWrittenSkipsSuccessors | availsim/dhash.py:198 | with count predecessors and count successors, the written range never visits the window of the affected node's successors; the corrected range does |
| AvailSim.PolicyPieces | availsim/dhash.py:239-286 | the base class asks for nothing; replicas are read from one copy and inserted count times at full size; replica_norepair never repairs; replica and fragments repair below their insert count |
| AvailSim.StoreBlocks | availsim/dhash.py:37-41 | the block is held afterwards; a block already held keeps its old size; no other block changes |
| AvailSim.StoreBlocksKeys | availsim/dhash.py:37-41 | the stored block set grows by exactly the block |
| AvailSim.StoreKeepsTotal | availsim/dhash.py:37-41 | storing keeps the byte counter equal to the total size of the held blocks: it grows exactly when the block is new, by that block's size |
| AvailSim.StoreIdempotent | availsim/dhash.py:37-41 | storing a block twice, whatever the second size, is storing it once |
| AvailSim.Node.constructor | availsim/dhash.py:15-25 | a new node is alive, holds no blocks, and has zero byte, RPC and sent-byte counters; its byte counter is the total size of its blocks |
| AvailSim.Node.Start | availsim/dhash.py:27-28 | the node becomes alive; blocks and counters are unchanged |
| AvailSim.Node.Stop | availsim/dhash.py:29-30 | the node stops; blocks and counters are unchanged |
| AvailSim.Node.Crash | availsim/dhash.py:32-35 | the node stops and loses every block and its byte count, so the byte counter is again the total size of its blocks |
| AvailSim.Node.Store | availsim/dhash.py:37-41 | a block already held is kept with its old size; a new one is added and its size added to the byte counter, which stays the total size of the held blocks; RPC counters are unchanged |
| AvailSim.Note | availsim/dhash.py:87 | now_nodes gains the identifier unless it is already listed |
| AvailSim.NoteNoDup | availsim/dhash.py:87 | noting an identifier never duplicates an entry of now_nodes |
| AvailSim.AddKeepsRegistry | availsim/dhash.py:68-87 | adding a node that is not live keeps the bookkeeping: it becomes live and known, stops being dead, and is noted as changed |
| AvailSim.FailKeepsRegistry | availsim/dhash.py:89-100 | failing a live node keeps the bookkeeping: it leaves the live list and becomes dead, and is noted as changed |
| AvailSim.SortedKeys | availsim/dhash.py:196-197 | the keys of the block map in ascending order, each exactly once |
| AvailSim.DHash.constructor | availsim/dhash.py:60-66 | a new simulator has no nodes, no dead nodes, no blocks and no changed nodes |
| AvailSim.DHash.AddNode | availsim/dhash.py:68-87 | fails (the source's KeyError) iff the node is already live; otherwise it is inserted in sorted position, becomes alive and known, stops being dead and is noted; a new node object holds no blocks and zero byte, RPC and sent-byte counters, a revived one keeps its blocks and all three counters; other nodes and the blocks are unchanged |
| AvailSim.DHash.Revive | availsim/dhash.py:69-79 | a dead node is restarted and removed from the dead nodes, keeping its blocks and counters; an unknown one is created empty with zero counters; other nodes are unchanged |
| AvailSim.DHash.Failure | availsim/dhash.py:89-100 | an unknown node is an error; a live node leaves the sorted live list, becomes dead and is noted, and crashing empties its blocks; failing a dead node changes nothing |
| AvailSim.DHash.FailLive | availsim/dhash.py:91-100 | failing a live node pops exactly it from the live list, records it as dead, notes it, and crashes or stops it |
| AvailSim.DHash.Halt | availsim/dhash.py:91-95 | the node is stopped, or crashed losing its blocks, and leaves the set of live identifiers |
| AvailSim.DHash.FailNode | availsim/dhash.py:102-103 | a known node ends dead and off the live list with its blocks, bytes and RPC counters kept; a live one is removed from the live set and noted in now_nodes; failing a dead node changes no bookkeeping; an unknown node is an error |
| AvailSim.DHash.CrashNode | availsim/dhash.py:105-106 | a known node ends dead and off the live list with its RPC counters kept; a live one loses its blocks and byte count and is noted in now_nodes; a dead one keeps its blocks and bytes and no bookkeeping changes; an unknown node is an error |
| AvailSim.DHash.StoreOn | availsim/dhash.py:157-158 | exactly the listed successors store the block; all other nodes and every RPC counter are unchanged |
| AvailSim.DHash.Charge | availsim/dhash.py:159-161 | the inserting node is charged one RPC and one piece per store; no other node changes |
| AvailSim.DHash.InsertBlock | availsim/dhash.py:150-163 | a new block is recorded with its size; the first insert_pieces successors of its identifier store it, and no other node does; the inserting node is charged for each store; the result is the first successor; an unknown inserting node is an error after the stores, and an empty successor list is an error after the charge |
| AvailSim.DHash.CountHolders | availsim/dhash.py:169-175 | the number of nodes in the window holding the block, and the first such node (FirstHolder), with no node exactly when the count is 0 |
| AvailSim.FirstHolder | availsim/dhash.py:171-174 | the fixer is a node of the window that holds the block, and there is none exactly when no node of the window holds it |
| AvailSim.FirstHolderFirst | availsim/dhash.py:171-174 | whenever some node of the window holds the block, the fixer exists and comes at or before it in the window |
| AvailSim.DHash.StoreMissing | availsim/dhash.py:183-187 | exactly the window's nodes end up holding the block (nodes that held it keep their copy) and their byte counters follow; the fixer is charged one RPC and one piece per window node that lacked the block, and no other counter changes; no node's liveness changes |
| AvailSim.DHash.RepairBlock | availsim/dhash.py:168-187 | a block held by at least one but fewer than min_pieces nodes of the window is stored on every node of the window, with byte counters following, and the first holder is charged one RPC and one piece per node that lacked it; otherwise no block, byte or RPC counter changes |
| AvailSim.DHash.RepairNext | availsim/dhash.py:168-187 | one turn of _repair's loop, stated against the holdings before the loop: the block is added to the window exactly when it was under-replicated but not lost |
| AvailSim.DHash.RepairBlocks | availsim/dhash.py:165-187 | each node of the window gains exactly the blocks of the range that were held by some but fewer than min_pieces window nodes; nodes outside the window are unchanged |
| AvailSim.Repaired | availsim/dhash.py:177-180 | the blocks of a range that _repair restores: held by at least one and fewer than min_pieces nodes of the window |
| AvailSim.DHash.Repair | availsim/dhash.py:190-209 | repair only adds inserted blocks to nodes, never changes liveness, and touches only the affected node's predecessors and successors |
| AvailSim.DHash.RepairSlice | availsim/dhash.py:196-209 | the loop over the windows adds only inserted blocks and touches only nodes of the slice |
| AvailSim.DHash.AvailableBlocks | availsim/dhash.py:211-227 | the number of inserted blocks held by at least read_pieces of their insert_pieces successors |
| AvailSim.DHash.CountAvailable | availsim/dhash.py:216-226 | counting over the sorted keys with a reused successor list counts exactly the available keys |
| AvailSim.CountAllMembers | availsim/dhash.py:216-227 | counting over a sorted list of all the keys counts every available block exactly once |
| AvailSimSelfTest.BlockAbove63GoesTo4 | availsim/dhash.py:310 | on the ring 4, 17, 23, 30, 42, 55, 63, block 73 wraps to node 4 |
| AvailSimSelfTest.BlockBelow4GoesTo4 | availsim/dhash.py:311 | block 3 goes to node 4 |
| AvailSimSelfTest.Block4GoesTo4 | availsim/dhash.py:312 | block 4 goes to node 4 itself |
| AvailSimSelfTest.Block20GoesTo23 | availsim/dhash.py:313 | block 20 goes to node 23 |
| AvailSimSelfTest.Block56GoesTo63 | availsim/dhash.py:314 | block 56 goes to node 63 |
| AvailSimSelfTest.PredecessorIndexOf4 | availsim/dhash.py:316 | the predecessor index of 4 wraps to 6 |
| AvailSimSelfTest.PredecessorIndexOf66 | availsim/dhash.py:317 | the predecessor index of 66 is 6 |
| AvailSimSelfTest.PredecessorIndexOf10 | availsim/dhash.py:318 | the predecessor index of 10 is 0 |
| AvailSimSelfTest.PredecessorIndexOf25 | availsim/dhash.py:319 | the predecessor index of 25 is 2 |
| AvailSimSelfTest.SuccessorListLengths | availsim/dhash.py:321-324 | three successors of 0, 63, 24 and 35 |
| AvailSimSelfTest.PredecessorOf5 | availsim/dhash.py:326 | the predecessor of 5 is 4 |
| AvailSimSelfTest.PredecessorOf31 | availsim/dhash.py:327 | the predecessor of 31 is 30 |
| AvailSimSelfTest.PredecessorOf30 | availsim/dhash.py:328 | the predecessor of 30 is 23 |
| AvailSimSelfTest.PredecessorOf3 | availsim/dhash.py:329 | the predecessor of 3 wraps to 63 |
| AvailSimSelfTest.PredecessorListLength | availsim/dhash.py:330 | three predecessors of 5 |
| AvailSimSelfTest.PredOfWholeRingIncludesKey | availsim/dhash.py:136-146 | asked for all seven predecessors of node 30, pred lists 30 itself: the "not including o" of the docstring needs num below the number of live nodes |

## Left out

- LruCache.VsCache.Lookup: the source returns a pointer into the cache entry; the model returns the value by copy, so writes through that pointer and the pointer dangling after a later eviction are not modelled.
- The rest of `lsd/chord.h`: the RPC, location, vnode and stabilization interfaces. They are declarations around the cache and depend on the event loop, the network and the RPC layer.
- `dhash.time_changed` and the node fields `last_alive` and `lifetime` (dhash.py:229-236). They are clock bookkeeping driven by the caller.
- The fragments policy's piece size `int(1.02 * (size / dfrags))` (dhash.py:284-286) is floating point. `InsertPieceSize` takes it from the policy value (`Fragments(dfrags, efrags, pieceSize)`) instead of computing it.
- `__repr__`/`__str__`, the `sha` import, and `size_rounder` (dhash.py) produce text only.
- The simulator's calls accept either a node object or an identifier (the `isinstance` checks). The model takes identifiers, since nodes compare by identifier.
- Node objects are reached through `allnodes[id]`. The lists `nodes` and `now_nodes` hold identifiers.
- The source reports a duplicate `add_node`, an unknown node in `_failure`, and an unknown inserting node as `KeyError`. It raises `IndexError` at `succs[0]` whenever no successor was chosen: on an empty ring, and under the base policy, whose `insert_pieces()` is 0 (dhash.py:246-248). The model returns `false`, `UnknownNode` or `NoSuccessor` instead; `NoSuccessor` covers both `IndexError` cases.
- The self-test's `insert_block(73, 8192)` and `pred(5).id` do not match the current signatures. `insert_block` takes three arguments, and `pred` with its default returns a list. The lemmas state what the calls evidently mean, on the ring the test builds.
- The self-test's node-by-node `add_node` sequence and its duplicate-insert `KeyError` are not replayed on the heap. The lemmas start from the sorted ring, whose construction `AddNode` and `InsortKeepsAscending` cover.
- `utils/id_utils.C` inputs declared `u_long` or `int` (the `n` of `n1bits` and `log2`, bit positions) are unbounded naturals. The 32-bit loops read only the low 32 bits, as the source does.
- `NBits(0)` is 0. This is the assumed behaviour of the bigint library's `nbits()` on zero, which is not part of this model.
- IdBits.ShiftTopBitOut: requires `n <= NBIT`, so the source's early return of 0 for `a == 0` with a larger `n` is not modelled. For a nonzero `a` and a larger `n`, the source's mask `(1 << (NBIT - n)) - 1` shifts by a negative amount (id_utils.C:194-206).
- IdBits.CreateBits: requires `pos < NBIT` and `pos <= NBits(n)`. Outside these bounds the source's shifts `n.nbits() - pos` and `x.nbits() - (pos + 1 - b0x)` are negative (id_utils.C:253-263).
- The flush callback is an opaque identifier. What the callback itself does is outside the model, including a callback that re-enters the cache during an eviction (chord.h:57-68). The model records only which calls `enter` makes, in order.
- `IdBits.TopBits` requires `a == 0` or `n <= 32` and `n <= NBits(a)`. These are the preconditions under which the source's `u_long` result and its shift are meaningful.
- AvailSim.DHash.Repair: only states that nodes gain inserted blocks, that liveness is kept, and that nodes outside the affected node's predecessors and successors are untouched. The exact per-window block sets are stated one level down by `RepairBlocks`.
- AvailSim.DHash.RepairSlice: states the same growth and locality bounds as `Repair`, not the exact blocks added per window.
- AvailSim.DHash.RepairBlocks: states the block sets of the window's nodes, not the byte counters or the fixer's `nrpc` and `sent_bytes` accounting.
- AvailSim.DHash.RepairNext: like `RepairBlocks`, states block sets only, not the repairing node's counters.
- `Repair` uses the corrected window range and the corrected key ranges (see Findings). The as-written versions are modelled as functions and compared against them.

## Findings

| source | as written | input that shows it | evidently intended | confidence | as-written member | corrected member |
|---|---|---|---|---|---|---|
| utils/id_utils.C:167-172 | `diff = b - a; if (diff > 0) return diff; else return 2^NBIT - diff` | a = 1, b = 0: returns 2^160 + 1, outside the ring | the clockwise distance 2^NBIT + (b - a), i.e. 2^160 - 1 | high, not executed | IdRing.DiffAsWrittenLeavesRing | IdRing.Diff |
| availsim/dhash.py:201-208 | `[bisect_left(p), bisect_right(s0))` when p <= s0, else `[bisect_right(p):] + [:bisect_left(s0)]` | keys [4, 17], p = 63, s0 = 4: key 4 (owned by s0) is skipped; p = 4, s0 = 17: key 4 (owned by p) is included | exactly the keys of the arc (p, s0] that s0 is responsible for | medium, not executed | AvailSim.RespBlocksAsWrittenMisplaces | AvailSim.RespBlocksExact |
| availsim/dhash.py:198 | `range(1, len(slice) - count)` | ring 4, 17, 23, 30, 42, 55, 63 with 3 replicas, after 30 fails: the slice is 3 predecessors + 3 successors and the window at index 3 (the successors of 30, owning keys (23, 30]) is never visited | `range(1, len(slice) - count + 1)`: every window of count nodes with a predecessor | medium, not executed | AvailSim.WindowStartsAsWrittenSkipsSuccessors | AvailSim.WindowStarts |
