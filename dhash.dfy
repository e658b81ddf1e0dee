/** The global-view DHash simulator (availsim/dhash.py): a sorted list of
    live nodes, maps of known and dead nodes, block placement on the
    successors of a block's identifier, and availability counting.  Nodes are
    held by identifier in `nodes` and `nowNodes`; `allnodes` maps each
    identifier to its one node object, as the source's `__cmp__` compares
    nodes by identifier. */
module AvailSim {
  import IdRing
  import opened Pow2Arith
  import opened Wrappers

  // ---------------------------------------------------------------------
  // Ring test and sorted-list search.

  /** between(i, a, b): the open arc (a, b) on unbounded integers; with
      a == b only a itself is inside. */
  predicate Between(i: int, a: int, b: int)
  {
    if a < b then a < i && i < b
    else if a == b then a == i
    else i > a || i < b
  }

  /** On ring identifiers the simulator's test agrees with the C test of
      utils/id_utils.C for a proper arc, and is its complement for a == b. */
  lemma BetweenAgreesWithRing(i: IdRing.Id, a: IdRing.Id, b: IdRing.Id)
    ensures a != b ==> (Between(i, a, b) <==> IdRing.Between(a, b, i))
    ensures Between(i, a, a) <==> !IdRing.Between(a, a, i)
  {
  }

  predicate Ascending(s: seq<int>)
  {
    forall i, j :: 0 <= i < j < |s| ==> s[i] < s[j]
  }

  function Min(a: nat, b: nat): nat
  {
    if a <= b then a else b
  }

  /** bisect.bisect_left: the first position whose element is not below x. */
  function BisectLeft(s: seq<int>, x: int): (r: nat)
    ensures r <= |s|
    ensures forall i :: 0 <= i < r ==> s[i] < x
    ensures r < |s| ==> s[r] >= x
  {
    if s == [] || s[0] >= x then 0 else 1 + BisectLeft(s[1..], x)
  }

  /** bisect.bisect_right (bisect.bisect): the first position whose element
      is above x. */
  function BisectRight(s: seq<int>, x: int): (r: nat)
    ensures r <= |s|
    ensures forall i :: 0 <= i < r ==> s[i] <= x
    ensures r < |s| ==> s[r] > x
  {
    if s == [] || s[0] > x then 0 else 1 + BisectRight(s[1..], x)
  }

  /** On a sorted list everything from the bisect_left point on is at least x. */
  lemma {:induction false} BisectLeftSplits(s: seq<int>, x: int)
    requires Ascending(s)
    ensures forall i :: BisectLeft(s, x) <= i < |s| ==> s[i] >= x
  {
    var r := BisectLeft(s, x);
    forall i | r <= i < |s| ensures s[i] >= x {
      assert s[r] <= s[i];
    }
  }

  /** bisect.insort (insort_right): x inserted after any equal elements. */
  function Insort(s: seq<int>, x: int): (r: seq<int>)
    ensures |r| == |s| + 1
  {
    var d := BisectRight(s, x);
    s[..d] + [x] + s[d..]
  }

  lemma InsortAt(s: seq<int>, x: int, i: int)
    requires 0 <= i <= |s|
    ensures var d := BisectRight(s, x);
      Insort(s, x)[i] == (if i < d then s[i] else if i == d then x else s[i - 1])
  {
  }

  /** Inserting a new identifier into a sorted list keeps it sorted and adds
      exactly that identifier. */
  lemma InsortKeepsAscending(s: seq<int>, x: int)
    requires Ascending(s) && x !in s
    ensures Ascending(Insort(s, x))
    ensures forall y :: y in Insort(s, x) <==> y in s || y == x
  {
    var d := BisectRight(s, x);
    var r := Insort(s, x);
    forall i, j | 0 <= i < j < |r| ensures r[i] < r[j] {
      InsortAt(s, x, i);
      InsortAt(s, x, j);
      if i < d && d < j {
        assert s[i] <= x && s[i] != x;
        assert s[d] <= s[j - 1];
      } else if i == d {
        assert s[d] <= s[j - 1];
      } else if j == d {
        assert s[i] != x;
      }
    }
    forall y | y in s ensures y in r {
      var i :| 0 <= i < |s| && s[i] == y;
      if i < d {
        InsortAt(s, x, i);
      } else {
        InsortAt(s, x, i + 1);
      }
    }
    forall y | y in r ensures y in s || y == x {
      var i :| 0 <= i < |r| && r[i] == y;
      InsortAt(s, x, i);
    }
  }

  /** On a sorted list holding x, x sits just before the bisect_right point:
      the source's `assert my.nodes[d - 1] == n`. */
  lemma BisectRightFinds(s: seq<int>, x: int)
    requires Ascending(s) && x in s
    ensures 0 < BisectRight(s, x) && s[BisectRight(s, x) - 1] == x
  {
    var i :| 0 <= i < |s| && s[i] == x;
    var d := BisectRight(s, x);
  }

  /** find_successor_index: the first node at or after id, wrapping to 0
      when every node is below id (and 0 for an empty list). */
  function FindSuccessorIndex(nodes: seq<int>, id: int): (n: nat)
    ensures nodes == [] ==> n == 0
    ensures nodes != [] ==> n < |nodes|
    ensures (exists i :: 0 <= i < |nodes| && nodes[i] >= id) ==>
              nodes[n] >= id && forall i :: 0 <= i < n ==> nodes[i] < id
    ensures (forall i :: 0 <= i < |nodes| ==> nodes[i] < id) ==> n == 0
  {
    var n := BisectLeft(nodes, id);
    if n >= |nodes| then 0 else n
  }

  /** find_predecessor_index: the last node strictly before id, wrapping to
      the last node when none is (and -1 for an empty list). */
  function FindPredecessorIndex(nodes: seq<int>, id: int): (n: int)
    ensures nodes == [] ==> n == -1
    ensures nodes != [] ==> 0 <= n < |nodes|
    ensures Ascending(nodes) && (exists i :: 0 <= i < |nodes| && nodes[i] < id) ==>
              nodes[n] < id && forall i :: n < i < |nodes| ==> nodes[i] >= id
    ensures nodes != [] && (forall i :: 0 <= i < |nodes| ==> nodes[i] >= id) ==> n == |nodes| - 1
  {
    var n := BisectLeft(nodes, id);
    assert Ascending(nodes) ==> forall i :: n <= i < |nodes| ==> nodes[i] >= id by {
      if Ascending(nodes) {
        BisectLeftSplits(nodes, id);
      }
    }
    (if n == 0 then |nodes| else n) - 1
  }

  /** succ(o, num): num consecutive live nodes starting at the successor of
      o, wrapping around the list and never repeating one. */
  function Succ(nodes: seq<int>, o: int, num: nat): (r: seq<int>)
    ensures |r| == Min(num, |nodes|)
  {
    var n := FindSuccessorIndex(nodes, o);
    var diff := n + num - |nodes|;
    if diff > 0 then
      var diff := if diff > n then n else diff;
      nodes[n..] + nodes[..diff]
    else
      nodes[n..n + num]
  }

  /** pred(o, num): num consecutive live nodes ending at the predecessor of
      o, wrapping around the list and never repeating one. */
  function Pred(nodes: seq<int>, o: int, num: nat): (r: seq<int>)
    ensures |r| == Min(num, |nodes|)
  {
    var n := FindPredecessorIndex(nodes, o);
    var diff := n - num;
    if diff < 0 then
      var diff := diff + |nodes|;
      var diff := if diff < n then n else diff;
      nodes[diff + 1..] + nodes[..n + 1]
    else
      nodes[diff + 1..n + 1]
  }

  /** The k-th successor of o is the node k places clockwise after the
      successor index. */
  lemma SuccElements(nodes: seq<int>, o: int, num: nat)
    ensures var r := Succ(nodes, o, num);
      forall k :: 0 <= k < |r| ==> r[k] == nodes[(FindSuccessorIndex(nodes, o) + k) % |nodes|]
  {
    var r := Succ(nodes, o, num);
    var n := FindSuccessorIndex(nodes, o);
    forall k | 0 <= k < |r| ensures r[k] == nodes[(n + k) % |nodes|] {
      ModWrapOnce(n + k, |nodes|);
    }
  }

  /** The predecessors of o are the |r| nodes that end, going clockwise, at
      the predecessor index. */
  lemma PredElements(nodes: seq<int>, o: int, num: nat)
    ensures var r := Pred(nodes, o, num);
      forall k :: 0 <= k < |r| ==>
        r[k] == nodes[(FindPredecessorIndex(nodes, o) + |nodes| - |r| + 1 + k) % |nodes|]
  {
    var r := Pred(nodes, o, num);
    var n := FindPredecessorIndex(nodes, o);
    forall k | 0 <= k < |r| ensures r[k] == nodes[(n + |nodes| - |r| + 1 + k) % |nodes|] {
      ModWrapOnce(n + |nodes| - |r| + 1 + k, |nodes|);
    }
  }

  /** pred(o, num) does not include o itself while num is smaller than the
      number of live nodes: the window ends at o's predecessor and is too
      short to wrap round to o. */
  lemma PredExcludesKey(nodes: seq<int>, o: int, num: nat)
    requires Ascending(nodes) && num < |nodes|
    ensures o !in Pred(nodes, o, num)
  {
    var r := Pred(nodes, o, num);
    var L := |nodes|;
    var n := FindPredecessorIndex(nodes, o);
    PredElements(nodes, o, num);
    if io :| 0 <= io < L && nodes[io] == o {
      // the node after the predecessor index is o itself
      var m := if io == 0 then L else io;
      if io == 0 {
        assert forall i :: 0 <= i < L ==> nodes[i] >= o;
      } else {
        assert nodes[io - 1] < o;
      }
      assert n + 1 == m;
      forall k | 0 <= k < |r| ensures r[k] != o {
        var t := L - |r| + k;
        ModWrapOnce(m + t, L);
        var p := (n + L - |r| + 1 + k) % L;
        assert p == (if m + t < L then m + t else m + t - L);
        assert p != io;
      }
    } else {
      PredDistinct(nodes, o, num);
    }
  }

  predicate NoDup(s: seq<int>)
  {
    forall i, j :: 0 <= i < j < |s| ==> s[i] != s[j]
  }

  /** A window of at most |s| consecutive positions of a sorted list,
      taken cyclically, holds no identifier twice. */
  lemma {:induction false} CyclicWindowNoDup(s: seq<int>, r: seq<int>, start: int)
    requires Ascending(s) && |r| <= |s|
    requires forall k :: 0 <= k < |r| ==> r[k] == s[(start + k) % |s|]
    ensures NoDup(r)
    ensures forall x :: x in r ==> x in s
  {
    forall i, j | 0 <= i < j < |r| ensures r[i] != r[j] {
      ModShift(start + i, j - i, |s|);
    }
  }

  /** The successors of o never repeat a node and are all live nodes. */
  lemma SuccDistinct(nodes: seq<int>, o: int, num: nat)
    requires Ascending(nodes)
    ensures NoDup(Succ(nodes, o, num))
    ensures forall x :: x in Succ(nodes, o, num) ==> x in nodes
  {
    SuccElements(nodes, o, num);
    if nodes != [] {
      CyclicWindowNoDup(nodes, Succ(nodes, o, num), FindSuccessorIndex(nodes, o));
    }
  }

  /** The predecessors of o never repeat a node and are all live nodes. */
  lemma PredDistinct(nodes: seq<int>, o: int, num: nat)
    requires Ascending(nodes)
    ensures NoDup(Pred(nodes, o, num))
    ensures forall x :: x in Pred(nodes, o, num) ==> x in nodes
  {
    var p := Pred(nodes, o, num);
    PredElements(nodes, o, num);
    if nodes != [] {
      CyclicWindowNoDup(nodes, p, FindPredecessorIndex(nodes, o) + |nodes| - |p| + 1);
    }
  }

  /** The first successor of o is the live node reached first going
      clockwise from o: the smallest node at or above o, or else the smallest
      node of all. */
  lemma SuccIsFirstClockwise(nodes: seq<int>, o: int, num: nat)
    requires Ascending(nodes) && nodes != [] && num > 0
    ensures var s := Succ(nodes, o, num)[0];
      && s in nodes
      && (s >= o ==> forall m :: m in nodes && o <= m ==> s <= m)
      && (s < o ==> s == nodes[0] && forall m :: m in nodes ==> m < o)
  {
    var n := FindSuccessorIndex(nodes, o);
    var s := Succ(nodes, o, num)[0];
    SuccElements(nodes, o, num);
    assert s == nodes[n % |nodes|] == nodes[n];
    if s >= o {
      forall m | m in nodes && o <= m ensures s <= m {
        var i :| 0 <= i < |nodes| && nodes[i] == m;
        assert i >= n;
        if i > n {
          assert nodes[n] < nodes[i];
        }
      }
    } else {
      forall m | m in nodes ensures m < o {
        var i :| 0 <= i < |nodes| && nodes[i] == m;
      }
    }
  }

  /** Reusing the successor list of an earlier, smaller key c for a key b
      that is not past its first node is the same as recomputing it: the
      shortcut in available_blocks. */
  lemma SuccCacheValid(nodes: seq<int>, c: int, b: int, num: nat)
    requires Ascending(nodes) && c <= b
    requires Succ(nodes, c, num) != [] && b <= Succ(nodes, c, num)[0]
    ensures Succ(nodes, b, num) == Succ(nodes, c, num)
  {
    var n := FindSuccessorIndex(nodes, c);
    SuccElements(nodes, c, num);
    assert Succ(nodes, c, num)[0] == nodes[n % |nodes|] == nodes[n];
    if forall i :: 0 <= i < |nodes| ==> nodes[i] < c {
      assert false;
    }
    assert FindSuccessorIndex(nodes, b) == n;
  }

  /** The successor list available_blocks uses for key b when `succs` is
      the list it used last: kept while b is not past its first node. */
  function CachedSucc(nodes: seq<int>, num: nat, b: int, succs: seq<int>): seq<int>
  {
    if succs == [] || b > succs[0] then Succ(nodes, b, num) else succs
  }

  /** Walking keys in ascending order, the cached list is always the key's
      own successor list. */
  lemma CachedSuccValid(nodes: seq<int>, num: nat, prev: int, b: int, succs: seq<int>)
    requires Ascending(nodes) && prev <= b
    requires succs != [] ==> succs == Succ(nodes, prev, num)
    ensures CachedSucc(nodes, num, b, succs) == Succ(nodes, b, num)
  {
    if succs != [] && b <= succs[0] {
      SuccCacheValid(nodes, prev, b, num);
    }
  }

  // ---------------------------------------------------------------------
  // The ranges repair examines.

  /** The Python slice `k[a:b]` of bounds within the list: empty when a >= b. */
  function Slice(k: seq<int>, a: nat, b: nat): (r: seq<int>)
    requires a <= |k| && b <= |k|
    ensures forall x :: x in r ==> x in k
  {
    if a < b then k[a..b] else []
  }

  /** The keys a node s0 is responsible for when p is the node before it:
      the clockwise arc (p, s0], the whole ring when p == s0. */
  predicate InArc(p: int, s0: int, x: int)
  {
    if p < s0 then p < x <= s0 else x > p || x <= s0
  }

  /** The keys repair hands to the window whose predecessor is p and whose
      first node is s0, as the source computes them: bisect_left(k, p) to
      bisect_right(k, s0) when p <= s0, else bisect_right(k, p) to the end
      and the start to bisect_left(k, s0). */
  function RespBlocksAsWritten(k: seq<int>, p: int, s0: int): (r: seq<int>)
    ensures forall x :: x in r ==> x in k
  {
    if p <= s0 then Slice(k, BisectLeft(k, p), BisectRight(k, s0))
    else k[BisectRight(k, p)..] + k[..BisectLeft(k, s0)]
  }

  /** The same keys with the arc (p, s0] at both ends: bisect_right on both
      bounds, and the wrapped form also when p == s0. */
  function RespBlocks(k: seq<int>, p: int, s0: int): (r: seq<int>)
    ensures forall x :: x in r ==> x in k
  {
    if p < s0 then Slice(k, BisectRight(k, p), BisectRight(k, s0))
    else k[BisectRight(k, p)..] + k[..BisectRight(k, s0)]
  }

  /** On an ascending list of keys, bisect_right splits at x. */
  lemma {:induction false} BisectRightSplits(s: seq<int>, x: int)
    requires Ascending(s)
    ensures forall i :: BisectRight(s, x) <= i < |s| ==> s[i] > x
  {
    var r := BisectRight(s, x);
    forall i | r <= i < |s| ensures s[i] > x {
      assert s[r] <= s[i];
    }
  }

  /** The corrected ranges list exactly the keys of the arc (p, s0]. */
  lemma RespBlocksExact(k: seq<int>, p: int, s0: int)
    requires Ascending(k)
    ensures forall x :: x in RespBlocks(k, p, s0) <==> x in k && InArc(p, s0, x)
  {
    forall x | x in k && InArc(p, s0, x) ensures x in RespBlocks(k, p, s0) {
      RespBlocksComplete(k, p, s0, x);
    }
    forall x | x in RespBlocks(k, p, s0) ensures InArc(p, s0, x) {
      RespBlocksSound(k, p, s0, x);
    }
  }

  /** Every key of the arc is listed. */
  lemma RespBlocksComplete(k: seq<int>, p: int, s0: int, x: int)
    requires Ascending(k) && x in k && InArc(p, s0, x)
    ensures x in RespBlocks(k, p, s0)
  {
    var lo, hi := BisectRight(k, p), BisectRight(k, s0);
    var i :| 0 <= i < |k| && k[i] == x;
    if p < s0 {
      BisectRightSplits(k, p);
      BisectRightSplits(k, s0);
      assert lo <= i < hi;
      assert k[lo..hi][i - lo] == x;
    } else if x > p {
      BisectRightSplits(k, p);
      assert k[lo..][i - lo] == x;
    } else {
      BisectRightSplits(k, s0);
      assert k[..hi][i] == x;
    }
  }

  /** Every key listed lies on the arc. */
  lemma RespBlocksSound(k: seq<int>, p: int, s0: int, x: int)
    requires Ascending(k) && x in RespBlocks(k, p, s0)
    ensures InArc(p, s0, x)
  {
    var lo, hi := BisectRight(k, p), BisectRight(k, s0);
    if p < s0 {
      assert lo < hi && x in k[lo..hi];
      var i :| lo <= i < hi && k[i] == x;
      BisectRightSplits(k, p);
    } else {
      assert x in k[lo..] + k[..hi];
      if x in k[lo..] {
        var i :| lo <= i < |k| && k[i] == x;
        BisectRightSplits(k, p);
      } else {
        assert x in k[..hi];
        var i :| 0 <= i < hi && k[i] == x;
      }
    }
  }

  /** The source's ranges are off by one at both ends: a key equal to the
      window's first node is missed when the arc wraps, and a key equal to
      the predecessor is claimed when it does not. */
  lemma RespBlocksAsWrittenMisplaces()
    ensures InArc(63, 4, 4) && 4 !in RespBlocksAsWritten([4, 17], 63, 4)
    ensures !InArc(4, 17, 4) && 4 in RespBlocksAsWritten([4, 17], 4, 17)
    ensures RespBlocks([4, 17], 63, 4) == [4] && RespBlocks([4, 17], 4, 17) == [17]
  {
    assert RespBlocksAsWritten([4, 17], 63, 4) == [];
    assert RespBlocksAsWritten([4, 17], 4, 17) == [4, 17];
  }

  /** The windows repair visits, as written: `range(1, len(slice) - count)`. */
  function WindowStartsAsWritten(n: nat, count: nat): (r: seq<nat>)
    ensures forall i :: i in r <==> 1 <= i && i + count < n
  {
    if n <= count + 1 then [] else WindowStartsAsWritten(n - 1, count) + [n - count - 1]
  }

  /** Every full window of `count` nodes with a node before it:
      `range(1, len(slice) - count + 1)`. */
  function WindowStarts(n: nat, count: nat): (r: seq<nat>)
    ensures forall i :: i in r <==> 1 <= i && i + count <= n
  {
    if n <= count then [] else WindowStarts(n - 1, count) + [n - count]
  }

  /** With count predecessors and count successors of the affected node,
      the source never visits the window made of the successors, the arc
      just before the affected node's successor; the corrected range does. */
  lemma WindowStartsAsWrittenSkipsSuccessors(count: nat)
    requires count > 0
    ensures count !in WindowStartsAsWritten(2 * count, count)
    ensures count in WindowStarts(2 * count, count)
  {
  }

  // ---------------------------------------------------------------------
  // Storage policies: the subclasses' overrides of the four hooks.

  /** The storage policy of a simulator: the dhash base class and its three
      subclasses.  Fragment size is computed in floating point by the source
      and is a parameter here. */
  datatype Policy =
    | Plain
    | ReplicaNoRepair(replicas: nat)
    | Replica(replicas: nat)
    | Fragments(dfrags: nat, efrags: nat, pieceSize: int -> int)

  function MinPieces(p: Policy): nat
  {
    match p
    case Plain => 0
    case ReplicaNoRepair(_) => 0
    case Replica(r) => r
    case Fragments(_, e, _) => e
  }

  function ReadPieces(p: Policy): nat
  {
    match p
    case Plain => 0
    case ReplicaNoRepair(_) => 1
    case Replica(_) => 1
    case Fragments(d, _, _) => d
  }

  function InsertPieces(p: Policy): nat
  {
    match p
    case Plain => 0
    case ReplicaNoRepair(r) => r
    case Replica(r) => r
    case Fragments(_, e, _) => e
  }

  function InsertPieceSize(p: Policy, size: int): int
  {
    match p
    case Plain => 0
    case ReplicaNoRepair(_) => size
    case Replica(_) => size
    case Fragments(_, _, f) => f(size)
  }

  /** What each policy asks for: a replica is read from one copy and stored
      whole, replication with repair repairs as soon as a copy is missing,
      the plain base class places nothing. */
  lemma PolicyPieces(p: Policy, size: int)
    ensures p.Plain? ==> InsertPieces(p) == 0 && ReadPieces(p) == 0
    ensures p.ReplicaNoRepair? || p.Replica? ==>
              ReadPieces(p) == 1 && InsertPieceSize(p, size) == size
    ensures p.ReplicaNoRepair? ==> MinPieces(p) == 0
    ensures p.Replica? || p.Fragments? ==> MinPieces(p) == InsertPieces(p)
  {
  }

  // ---------------------------------------------------------------------
  // Nodes.

  /** node.store on a block map: a block already held is left as it is. */
  function StoreBlocks(blocks: map<int, int>, block: int, size: int): (r: map<int, int>)
    ensures block in r
    ensures r[block] == (if block in blocks then blocks[block] else size)
    ensures forall b :: b in r && b != block ==> b in blocks && r[b] == blocks[b]
    ensures forall b :: b in blocks ==> b in r
  {
    if block in blocks then blocks else blocks[block := size]
  }

  lemma StoreBlocksKeys(blocks: map<int, int>, block: int, size: int)
    ensures StoreBlocks(blocks, block, size).Keys == blocks.Keys + {block}
  {
  }

  /** node.store on the byte counter: only a new block adds its size. */
  function StoreBytes(blocks: map<int, int>, bytes: int, block: int, size: int): int
  {
    if block in blocks then bytes else bytes + size
  }

  /** The total size of the blocks in a block map: what a node's byte
      counter is meant to hold. */
  ghost function TotalSize(blocks: map<int, int>): int
    decreases |blocks|
  {
    if blocks == map[] then 0
    else
      ElementExists(blocks.Keys);
      var b :| b in blocks;
      blocks[b] + TotalSize(blocks - {b})
  }

  /** The total can be taken apart at any block. */
  lemma {:induction false} TotalSizeRemove(m: map<int, int>, k: int)
    requires k in m
    ensures TotalSize(m) == m[k] + TotalSize(m - {k})
    decreases |m|
  {
    var b :| b in m && TotalSize(m) == m[b] + TotalSize(m - {b});
    if b != k {
      TotalSizeRemove(m - {b}, k);
      TotalSizeRemove(m - {k}, b);
      assert m - {b} - {k} == m - {k} - {b};
    }
  }

  /** node.store keeps `bytes` equal to the total size of the held blocks:
      the counter grows exactly when a block is added, by that block's size. */
  lemma StoreKeepsTotal(blocks: map<int, int>, bytes: int, block: int, size: int)
    requires bytes == TotalSize(blocks)
    ensures StoreBytes(blocks, bytes, block, size) == TotalSize(StoreBlocks(blocks, block, size))
  {
    if block !in blocks {
      var m := StoreBlocks(blocks, block, size);
      TotalSizeRemove(m, block);
      assert m - {block} == blocks;
    }
  }

  /** Storing a block twice is storing it once, whatever the second size. */
  lemma StoreIdempotent(blocks: map<int, int>, bytes: int, block: int, size: int, size': int)
    ensures StoreBlocks(StoreBlocks(blocks, block, size), block, size') ==
            StoreBlocks(blocks, block, size)
    ensures StoreBytes(StoreBlocks(blocks, block, size), StoreBytes(blocks, bytes, block, size),
                       block, size') == StoreBytes(blocks, bytes, block, size)
  {
  }

  /** A node's mutable fields taken together as one value. */
  datatype NodeState = NodeState(blocks: map<int, int>, alive: bool, bytes: int, nrpc: int, sentBytes: int)

  /** A node's state after a repair pass over block b: it stored b (piece
      size isz) if `stored`, and it was charged `rpcs` RPCs of isz bytes. */
  function Visited(st: NodeState, stored: bool, rpcs: int, b: int, isz: int): NodeState
  {
    var s1 := if stored then st.(blocks := StoreBlocks(st.blocks, b, isz),
                                 bytes := StoreBytes(st.blocks, st.bytes, b, isz))
              else st;
    s1.(nrpc := s1.nrpc + rpcs, sentBytes := s1.sentBytes + isz * rpcs)
  }

  /** After a pass, b is held exactly when it was stored or held before. */
  lemma VisitedHolds(st: NodeState, stored: bool, rpcs: int, b: int, isz: int)
    ensures b in Visited(st, stored, rpcs, b, isz).blocks <==> stored || b in st.blocks
  {
  }

  /** Two passes make one: the stores join and the charges add up. */
  lemma VisitedTwice(st: NodeState, stored: bool, rpcs: int, stored': bool, rpcs': int, b: int, isz: int)
    ensures Visited(Visited(st, stored, rpcs, b, isz), stored', rpcs', b, isz) ==
            Visited(st, stored || stored', rpcs + rpcs', b, isz)
  {
    assert isz * (rpcs + rpcs') == isz * rpcs + isz * rpcs';
    if stored && stored' {
      StoreIdempotent(st.blocks, st.bytes, b, isz, isz);
    }
  }

  class Node {
    const id: int
    var blocks: map<int, int>
    var alive: bool
    var bytes: int
    var nrpc: int
    var sentBytes: int

    /** The byte counter is the total size of the held blocks. */
    ghost predicate BytesAreTotal()
      reads this
    {
      bytes == TotalSize(blocks)
    }

    ghost function State(): NodeState
      reads this
    {
      NodeState(blocks, alive, bytes, nrpc, sentBytes)
    }

    constructor (id: int)
      ensures this.id == id && blocks == map[] && alive && bytes == 0
      ensures nrpc == 0 && sentBytes == 0
      ensures BytesAreTotal()
    {
      this.id := id;
      blocks := map[];
      alive := true;
      bytes := 0;
      nrpc := 0;
      sentBytes := 0;
    }

    method Start()
      modifies this
      ensures alive
      ensures blocks == old(blocks) && bytes == old(bytes)
      ensures nrpc == old(nrpc) && sentBytes == old(sentBytes)
    {
      alive := true;
    }

    method Stop()
      modifies this
      ensures !alive
      ensures blocks == old(blocks) && bytes == old(bytes)
      ensures nrpc == old(nrpc) && sentBytes == old(sentBytes)
    {
      alive := false;
    }

    /** crash: stop and lose every stored block. */
    method Crash()
      modifies this
      ensures !alive && blocks == map[] && bytes == 0
      ensures nrpc == old(nrpc) && sentBytes == old(sentBytes)
      ensures BytesAreTotal()
    {
      Stop();
      blocks := map[];
      bytes := 0;
    }

    /** store: only a live node stores; a block already held is kept with
        its old size and the byte count does not change. */
    method Store(block: int, size: int)
      requires alive
      modifies this
      ensures blocks == StoreBlocks(old(blocks), block, size)
      ensures bytes == StoreBytes(old(blocks), old(bytes), block, size)
      ensures alive && nrpc == old(nrpc) && sentBytes == old(sentBytes)
      ensures old(BytesAreTotal()) ==> BytesAreTotal()
    {
      if old(BytesAreTotal()) {
        StoreKeepsTotal(blocks, bytes, block, size);
      }
      if block !in blocks {
        blocks := blocks[block := size];
        bytes := bytes + size;
      }
    }
  }

  // ---------------------------------------------------------------------
  // The simulator.

  /** What insert_block returns: the first successor's identifier, or the
      exception it raises (KeyError for an unknown inserting node, IndexError
      when no successor was chosen). */
  datatype InsertOutcome = Stored(first: int) | UnknownNode | NoSuccessor

  /** How many nodes of `succs` hold block b. */
  function Holders(holdings: map<int, set<int>>, succs: seq<int>, b: int): (r: nat)
    ensures r <= |succs|
  {
    if succs == [] then 0
    else
      var s := succs[|succs| - 1];
      Holders(holdings, succs[..|succs| - 1], b) + (if s in holdings && b in holdings[s] then 1 else 0)
  }

  lemma HoldersSnoc(holdings: map<int, set<int>>, succs: seq<int>, j: nat, b: int)
    requires j < |succs|
    ensures Holders(holdings, succs[..j + 1], b) ==
            Holders(holdings, succs[..j], b) + (if succs[j] in holdings && b in holdings[succs[j]] then 1 else 0)
  {
    assert succs[..j + 1][..j] == succs[..j];
  }

  /** Whether at least read_pieces() of the insert_pieces() successors of
      block b hold it, given what each node holds. */
  predicate HeldEnough(holdings: map<int, set<int>>, nodes: seq<int>, policy: Policy, b: int)
  {
    Holders(holdings, Succ(nodes, b, InsertPieces(policy)), b) >= ReadPieces(policy)
  }

  /** The keys held by enough of their successors. */
  ghost function HeldEnoughAmong(holdings: map<int, set<int>>, nodes: seq<int>, policy: Policy, keys: set<int>): set<int>
  {
    set b | b in keys && HeldEnough(holdings, nodes, policy, b)
  }

  /** The blocks held by each node. */
  function HoldingsOf(allnodes: map<int, Node>): map<int, set<int>>
    reads allnodes.Values
  {
    map id | id in allnodes :: allnodes[id].blocks.Keys
  }

  /** The bookkeeping of the simulator as values: `nodes` is the sorted
      list of exactly the live nodes, the dead ones are the known ones that
      are not alive, and `now` lists known nodes without repetition. */
  ghost predicate Registry(nodes: seq<int>, alive: set<int>, known: set<int>, dead: set<int>, now: seq<int>)
  {
    && Ascending(nodes)
    && (forall x :: x in nodes ==> x in alive)
    && (forall x :: x in alive ==> x in nodes)
    && alive <= known
    && dead == known - alive
    && (forall x :: x in now ==> x in known)
    && NoDup(now)
  }

  /** nowNodes.append unless already listed. */
  function Note(now: seq<int>, id: int): (r: seq<int>)
    ensures forall x :: x in r <==> x in now || x == id
  {
    if id in now then now else now + [id]
  }

  lemma NoteNoDup(now: seq<int>, id: int)
    requires NoDup(now)
    ensures NoDup(Note(now, id))
  {
  }

  /** Adding a node that is not live keeps the bookkeeping: it becomes live
      and known, stops being dead, and is noted. */
  lemma AddKeepsRegistry(nodes: seq<int>, alive: set<int>, known: set<int>, dead: set<int>,
                         now: seq<int>, id: int)
    requires Registry(nodes, alive, known, dead, now) && id !in nodes
    ensures Registry(Insort(nodes, id), alive + {id}, known + {id}, dead - {id}, Note(now, id))
  {
    InsortKeepsAscending(nodes, id);
    NoteNoDup(now, id);
  }

  /** Failing the live node at position i keeps the bookkeeping: it leaves
      the sorted list, stops being live, becomes dead, and is noted. */
  lemma FailKeepsRegistry(nodes: seq<int>, alive: set<int>, known: set<int>, dead: set<int>,
                          now: seq<int>, i: nat)
    requires Registry(nodes, alive, known, dead, now) && i < |nodes|
    ensures Registry(nodes[..i] + nodes[i + 1..], alive - {nodes[i]}, known, dead + {nodes[i]},
                     Note(now, nodes[i]))
  {
    PopKeepsAscending(nodes, i);
    NoteNoDup(now, nodes[i]);
  }

  /** The sorted list with the entry at position i popped. */
  lemma PopKeepsAscending(s: seq<int>, i: nat)
    requires Ascending(s) && i < |s|
    ensures Ascending(s[..i] + s[i + 1..])
    ensures forall x :: x in s[..i] + s[i + 1..] <==> x in s && x != s[i]
  {
    var r := s[..i] + s[i + 1..];
    forall a, b | 0 <= a < b < |r| ensures r[a] < r[b] {
      assert r[a] == s[if a < i then a else a + 1];
      assert r[b] == s[if b < i then b else b + 1];
    }
    forall x | x in s && x != s[i] ensures x in r {
      var j :| 0 <= j < |s| && s[j] == x;
      assert r[if j < i then j else j - 1] == x;
    }
    forall x | x in r ensures x != s[i] {
      var j :| 0 <= j < |r| && r[j] == x;
      assert x == s[if j < i then j else j + 1];
    }
  }

  /** A set is empty or has an element. */
  lemma ElementExists(s: set<int>)
    ensures s == {} || exists y :: y in s
  {
    if forall y :: y !in s {
      assert s == {};
    }
  }

  /** A finite non-empty set of integers has a least element. */
  lemma {:induction false} SetHasMin(s: set<int>)
    requires s != {}
    ensures exists m :: m in s && forall y :: y in s ==> m <= y
    decreases |s|
  {
    ElementExists(s);
    var x :| x in s;
    var rest := s - {x};
    if rest != {} {
      SetHasMin(rest);
      var m :| m in rest && forall y :: y in rest ==> m <= y;
      var least := if x < m then x else m;
      forall y | y in s ensures least <= y {
        if y != x {
          assert y in rest;
        }
      }
    } else {
      assert forall y :: y in s ==> y == x;
    }
  }

  /** `k = blocks.keys(); k.sort()`: the keys in ascending order. */
  method SortedKeys(keys: set<int>) returns (k: seq<int>)
    ensures Ascending(k)
    ensures forall x :: x in k <==> x in keys
  {
    k := [];
    var rest := keys;
    while rest != {}
      invariant rest <= keys
      invariant forall x :: x in k <==> x in keys && x !in rest
      invariant Ascending(k)
      invariant forall x, y :: x in k && y in rest ==> x < y
      decreases |rest|
    {
      SetHasMin(rest);
      var m :| m in rest && forall y :: y in rest ==> m <= y;
      forall i, j | 0 <= i < j < |k + [m]| ensures (k + [m])[i] < (k + [m])[j] {
        if j == |k| {
          assert (k + [m])[i] == k[i] && k[i] in k;
        } else {
          assert (k + [m])[i] == k[i] && (k + [m])[j] == k[j];
        }
      }
      k := k + [m];
      rest := rest - {m};
    }
  }

  /** How many elements of s belong to p. */
  function CountMembers(s: seq<int>, p: set<int>): (r: nat)
    ensures r <= |s|
  {
    if s == [] then 0
    else CountMembers(s[..|s| - 1], p) + (if s[|s| - 1] in p then 1 else 0)
  }

  lemma CountMembersSnoc(s: seq<int>, i: nat, p: set<int>)
    requires i < |s|
    ensures CountMembers(s[..i + 1], p) == CountMembers(s[..i], p) + (if s[i] in p then 1 else 0)
  {
    assert s[..i + 1][..i] == s[..i];
  }

  /** The members of p that s lists. */
  function Listed(s: seq<int>, p: set<int>): set<int>
  {
    set b | b in s && b in p
  }

  lemma ListedSnoc(t: seq<int>, last: int, p: set<int>)
    ensures Listed(t + [last], p) == Listed(t, p) + (if last in p then {last} else {})
  {
    var s := t + [last];
    forall x ensures x in Listed(s, p) <==> x in Listed(t, p) + (if last in p then {last} else {}) {
      assert x in s <==> x in t || x == last;
    }
  }

  /** A list of exactly the keys lists every member of a set of keys. */
  lemma ListedAll(s: seq<int>, keys: set<int>, p: set<int>)
    requires forall x :: x in s <==> x in keys
    requires p <= keys
    ensures Listed(s, p) == p
  {
    forall x ensures x in Listed(s, p) <==> x in p {
    }
  }

  /** Counting the members of an ascending list is taking the size of the
      set of members it lists. */
  lemma {:induction false} CountMembersIsCardinality(s: seq<int>, p: set<int>)
    requires Ascending(s)
    ensures CountMembers(s, p) == |Listed(s, p)|
  {
    if s != [] {
      var t, last := s[..|s| - 1], s[|s| - 1];
      assert Ascending(t);
      CountMembersIsCardinality(t, p);
      assert last !in t by {
        forall j | 0 <= j < |t| ensures t[j] != last {
          assert s[j] < s[|s| - 1];
        }
      }
      assert s == t + [last];
      ListedSnoc(t, last, p);
    }
  }

  /** Counting over an ascending list of all the keys counts every member
      of a set of keys. */
  lemma CountAllMembers(s: seq<int>, keys: set<int>, p: set<int>)
    requires Ascending(s) && (forall x :: x in s <==> x in keys) && p <= keys
    ensures CountMembers(s, p) == |p|
  {
    CountMembersIsCardinality(s, p);
    ListedAll(s, keys, p);
  }

  /** The blocks of resp that _repair restores on `succs`: held by some of
      them, but by fewer than min_pieces() (`minp`). */
  function Repaired(holdings: map<int, set<int>>, succs: seq<int>, resp: seq<int>, minp: nat): set<int>
  {
    set b | b in resp && 0 < Holders(holdings, succs, b) < minp
  }

  lemma RepairedSnoc(holdings: map<int, set<int>>, succs: seq<int>, resp: seq<int>, i: nat, minp: nat)
    requires i < |resp|
    ensures Repaired(holdings, succs, resp[..i + 1], minp) ==
            Repaired(holdings, succs, resp[..i], minp) +
            (if 0 < Holders(holdings, succs, resp[i]) < minp then {resp[i]} else {})
  {
    assert resp[..i + 1] == resp[..i] + [resp[i]];
  }

  /** Adding R to what each node of succs holds makes every block of R held
      by all of them and leaves the count of any other block alone. */
  lemma {:induction false} HoldersAfterAdding(h0: map<int, set<int>>, h1: map<int, set<int>>, succs: seq<int>,
                                              r: set<int>, b: int)
    requires forall x :: x in succs ==> x in h0 && x in h1 && h1[x] == h0[x] + r
    ensures Holders(h1, succs, b) == if b in r then |succs| else Holders(h0, succs, b)
  {
    if succs != [] {
      HoldersAfterAdding(h0, h1, succs[..|succs| - 1], r, b);
    }
  }

  /** One block's step of _repair on a node's holdings: whether the block
      was already restored or not, the node ends up with the blocks restored
      so far and this one if it qualifies. */
  lemma RepairKeysStep(held: set<int>, r: set<int>, r': set<int>, b: int, n1: nat, n0: nat, full: nat, minp: nat)
    requires r' == r + (if 0 < n0 < minp then {b} else {})
    requires n1 == if b in r then full else n0
    ensures (held + r) + (if 0 < n1 < minp then {b} else {}) == held + r'
  {
  }

  /** A node's blocks that grow by blocks of the simulator stay between
      what it held at the start and that plus the simulator's blocks. */
  lemma GrowWithin(start: set<int>, before: set<int>, after: set<int>, added: set<int>, all: set<int>)
    requires start <= before <= start + all && added <= all
    requires before <= after <= before + added
    ensures start <= after <= start + all
  {
  }

  /** The nodes of a window that lack block b: those _repair stores it on. */
  ghost function Lacking(holdings: map<int, set<int>>, window: set<int>, b: int): set<int>
  {
    set x | x in window && x in holdings && b !in holdings[x]
  }

  /** One more node joins the window: the set of nodes lacking b grows by
      one exactly when that node was neither in the window nor held b. */
  lemma LackingGrows(holdings: map<int, set<int>>, window: set<int>, x: int, b: int, held: bool)
    requires x in holdings
    requires held == (x in window || b in holdings[x])
    ensures |Lacking(holdings, window + {x}, b)| == |Lacking(holdings, window, b)| + (if held then 0 else 1)
  {
    var before := Lacking(holdings, window, b);
    if held {
      assert Lacking(holdings, window + {x}, b) == before;
    } else {
      assert Lacking(holdings, window + {x}, b) == before + {x};
    }
  }

  /** The nodes listed in a sequence. */
  function Members(s: seq<int>): set<int>
  {
    set x | x in s
  }

  /** The nodes of a growing prefix of succs. */
  lemma WindowGrows(succs: seq<int>, i: nat)
    requires i < |succs|
    ensures Members(succs[..i + 1]) == Members(succs[..i]) + {succs[i]}
  {
    assert succs[..i + 1] == succs[..i] + [succs[i]];
  }

  /** The first node of succs holding b: the fixer of _repair. */
  function FirstHolder(holdings: map<int, set<int>>, succs: seq<int>, b: int): (r: Option<int>)
    ensures r.None? <==> Holders(holdings, succs, b) == 0
    ensures r.Some? ==> r.value in succs && r.value in holdings && b in holdings[r.value]
    decreases |succs|
  {
    if succs == [] then None
    else
      var s := succs[|succs| - 1];
      var prev := FirstHolder(holdings, succs[..|succs| - 1], b);
      if prev.Some? then prev
      else if s in holdings && b in holdings[s] then Some(s)
      else None
  }

  /** The fixer comes before every other node of succs holding b. */
  lemma {:induction false} FirstHolderFirst(holdings: map<int, set<int>>, succs: seq<int>, b: int, i: int)
    requires 0 <= i < |succs| && succs[i] in holdings && b in holdings[succs[i]]
    ensures FirstHolder(holdings, succs, b).Some?
    ensures exists j :: 0 <= j <= i && succs[j] == FirstHolder(holdings, succs, b).value
    decreases |succs|
  {
    var init := succs[..|succs| - 1];
    if i < |succs| - 1 {
      assert init[i] == succs[i];
      FirstHolderFirst(holdings, init, b, i);
      var j :| 0 <= j <= i && init[j] == FirstHolder(holdings, init, b).value;
      assert succs[j] == init[j];
    } else if FirstHolder(holdings, init, b).Some? {
      var v := FirstHolder(holdings, init, b).value;
      var j :| 0 <= j < |init| && init[j] == v;
      assert succs[j] == v;
    }
  }

  lemma FirstHolderSnoc(holdings: map<int, set<int>>, succs: seq<int>, j: nat, b: int)
    requires j < |succs|
    ensures FirstHolder(holdings, succs[..j + 1], b) ==
            if FirstHolder(holdings, succs[..j], b).Some? then FirstHolder(holdings, succs[..j], b)
            else if succs[j] in holdings && b in holdings[succs[j]] then Some(succs[j])
            else None
  {
    assert succs[..j + 1][..j] == succs[..j];
  }

  class DHash {
    var nodes: seq<int>
    var deadnodes: map<int, Node>
    var allnodes: map<int, Node>
    var blocks: map<int, int>
    var nowNodes: seq<int>
    const policy: Policy
    /** The identifiers of the known nodes whose `alive` flag is set. */
    ghost var liveIds: set<int>

    /** The bookkeeping holds of the current state, every node object is
        known under its own identifier and is alive exactly when listed in
        liveIds, and deadnodes maps to the same objects as allnodes. */
    ghost predicate Valid()
      reads this, allnodes.Values
    {
      && Registry(nodes, liveIds, allnodes.Keys, deadnodes.Keys, nowNodes)
      && (forall id :: id in allnodes ==> allnodes[id].id == id)
      && (forall id :: id in allnodes ==> (allnodes[id].alive <==> id in liveIds))
      && (forall id :: id in deadnodes ==> deadnodes[id] == allnodes[id])
    }

    constructor (policy: Policy)
      ensures Valid()
      ensures nodes == [] && deadnodes == map[] && allnodes == map[]
      ensures blocks == map[] && nowNodes == [] && this.policy == policy
    {
      nodes := [];
      deadnodes := map[];
      allnodes := map[];
      blocks := map[];
      nowNodes := [];
      this.policy := policy;
      liveIds := {};
    }

    /** add_node: find or create the node, revive it if it was dead, insert
        it in sorted position; a node already live is a duplicate insert
        (KeyError, ok == false) and changes nothing. */
    method AddNode(id: int) returns (ok: bool)
      requires Valid()
      modifies this, if id in allnodes then {allnodes[id]} else {}
      ensures Valid()
      ensures ok <==> id !in old(nodes)
      ensures ok ==> nodes == Insort(old(nodes), id) && nowNodes == Note(old(nowNodes), id)
      ensures ok ==> liveIds == old(liveIds) + {id}
      ensures ok ==> allnodes.Keys == old(allnodes.Keys) + {id} && deadnodes == old(deadnodes) - {id}
      ensures ok && id in old(allnodes) ==>
                allnodes[id] == old(allnodes[id]) && allnodes[id].blocks == old(allnodes[id].blocks)
      ensures ok && id in old(allnodes) ==>
                && allnodes[id].bytes == old(allnodes[id].bytes)
                && allnodes[id].nrpc == old(allnodes[id].nrpc)
                && allnodes[id].sentBytes == old(allnodes[id].sentBytes)
      ensures ok && id !in old(allnodes) ==> fresh(allnodes[id]) && allnodes[id].blocks == map[]
      ensures ok && id !in old(allnodes) ==>
                allnodes[id].bytes == 0 && allnodes[id].nrpc == 0 && allnodes[id].sentBytes == 0
      ensures !ok ==> nodes == old(nodes) && allnodes == old(allnodes) && deadnodes == old(deadnodes)
      ensures !ok ==> nowNodes == old(nowNodes)
      ensures forall x :: x in old(allnodes) && x != id ==> x in allnodes && allnodes[x] == old(allnodes[x])
      ensures blocks == old(blocks)
    {
      if id in nodes {
        return false;
      }
      AddKeepsRegistry(nodes, liveIds, allnodes.Keys, deadnodes.Keys, nowNodes, id);
      Revive(id);
      assert deadnodes.Keys == old(deadnodes.Keys) - {id};
      nodes := Insort(nodes, id);
      nowNodes := Note(nowNodes, id);
      assert Registry(nodes, liveIds, allnodes.Keys, deadnodes.Keys, nowNodes);
      ok := true;
    }

    /** The first half of add_node: find the node or create it, and start it
        (dropping it from deadnodes) if it was dead. */
    method Revive(id: int)
      requires Valid() && id !in nodes
      modifies this, if id in allnodes then {allnodes[id]} else {}
      ensures id in allnodes && allnodes[id].alive
      ensures allnodes.Keys == old(allnodes.Keys) + {id}
      ensures liveIds == old(liveIds) + {id} && deadnodes == old(deadnodes) - {id}
      ensures nodes == old(nodes) && nowNodes == old(nowNodes) && blocks == old(blocks)
      ensures forall x :: x in allnodes ==> allnodes[x].id == x && (allnodes[x].alive <==> x in liveIds)
      ensures forall x :: x in deadnodes ==> deadnodes[x] == allnodes[x]
      ensures forall x :: x in old(allnodes) && x != id ==> allnodes[x] == old(allnodes[x])
      ensures id in old(allnodes) ==>
                allnodes[id] == old(allnodes[id]) && allnodes[id].blocks == old(allnodes[id].blocks)
      ensures id in old(allnodes) ==>
                && allnodes[id].bytes == old(allnodes[id].bytes)
                && allnodes[id].nrpc == old(allnodes[id].nrpc)
                && allnodes[id].sentBytes == old(allnodes[id].sentBytes)
      ensures id !in old(allnodes) ==> fresh(allnodes[id]) && allnodes[id].blocks == map[]
      ensures id !in old(allnodes) ==>
                allnodes[id].bytes == 0 && allnodes[id].nrpc == 0 && allnodes[id].sentBytes == 0
    {
      var nnode: Node;
      if id in allnodes {
        nnode := allnodes[id];
      } else {
        nnode := new Node(id);
        allnodes := allnodes[id := nnode];
      }
      if !nnode.alive {
        nnode.Start();
        deadnodes := deadnodes - {id};
      }
      liveIds := liveIds + {id};
      forall x | x in allnodes && x != id
        ensures x in old(allnodes) && allnodes[x] == old(allnodes[x])
        ensures allnodes[x].alive == old(allnodes[x].alive)
      {
        assert allnodes[x].id != nnode.id;
      }
    }

    /** _failure: an unknown node is a KeyError (ok == false); a dead node
        is left alone; a live node is stopped (or crashed, losing its
        blocks), removed from the sorted list and recorded as dead. */
    method Failure(id: int, crash: bool) returns (ok: bool)
      requires Valid()
      modifies this, if id in allnodes then {allnodes[id]} else {}
      ensures Valid()
      ensures ok <==> id in old(allnodes)
      ensures allnodes == old(allnodes) && blocks == old(blocks)
      ensures ok ==> !allnodes[id].alive
      ensures ok && old(allnodes[id].alive) ==>
                && liveIds == old(liveIds) - {id}
                && (exists i :: 0 <= i < |old(nodes)| && old(nodes)[i] == id &&
                      nodes == old(nodes)[..i] + old(nodes)[i + 1..])
                && deadnodes == old(deadnodes)[id := allnodes[id]]
                && nowNodes == Note(old(nowNodes), id)
                && (crash ==> allnodes[id].blocks == map[] && allnodes[id].bytes == 0)
                && (!crash ==> allnodes[id].blocks == old(allnodes[id].blocks) &&
                               allnodes[id].bytes == old(allnodes[id].bytes))
      ensures !(ok && old(allnodes[id].alive)) ==>
                && nodes == old(nodes) && deadnodes == old(deadnodes) && nowNodes == old(nowNodes)
                && liveIds == old(liveIds)
      ensures ok ==> allnodes[id].blocks == (if crash && old(allnodes[id].alive) then map[]
                                              else old(allnodes[id].blocks))
      ensures ok ==> allnodes[id].bytes == (if crash && old(allnodes[id].alive) then 0
                                             else old(allnodes[id].bytes))
      ensures ok ==> allnodes[id].nrpc == old(allnodes[id].nrpc) &&
                     allnodes[id].sentBytes == old(allnodes[id].sentBytes)
    {
      if id !in allnodes {
        return false;
      }
      ok := true;
      var n := allnodes[id];
      if !n.alive {
        return;
      }
      FailLive(id, crash);
    }

    /** _failure on a live node. */
    method FailLive(id: int, crash: bool)
      requires Valid() && id in allnodes && allnodes[id].alive
      modifies this, allnodes[id]
      ensures Valid()
      ensures allnodes == old(allnodes) && blocks == old(blocks)
      ensures !allnodes[id].alive
      ensures liveIds == old(liveIds) - {id}
      ensures exists i :: 0 <= i < |old(nodes)| && old(nodes)[i] == id &&
                nodes == old(nodes)[..i] + old(nodes)[i + 1..]
      ensures deadnodes == old(deadnodes)[id := allnodes[id]]
      ensures nowNodes == Note(old(nowNodes), id)
      ensures crash ==> allnodes[id].blocks == map[] && allnodes[id].bytes == 0
      ensures !crash ==> allnodes[id].blocks == old(allnodes[id].blocks) &&
                         allnodes[id].bytes == old(allnodes[id].bytes)
      ensures allnodes[id].nrpc == old(allnodes[id].nrpc) && allnodes[id].sentBytes == old(allnodes[id].sentBytes)
    {
      var n := allnodes[id];
      BisectRightFinds(nodes, id);
      var d := BisectRight(nodes, id);
      FailKeepsRegistry(nodes, liveIds, allnodes.Keys, deadnodes.Keys, nowNodes, d - 1);
      Halt(id, crash);
      nodes := nodes[..d - 1] + nodes[d..];
      deadnodes := deadnodes[id := n];
      assert deadnodes.Keys == old(deadnodes.Keys) + {id};
      nowNodes := Note(nowNodes, id);
      assert Registry(nodes, liveIds, allnodes.Keys, deadnodes.Keys, nowNodes);
    }

    /** The node side of _failure on a live node: stop or crash it and
        drop it from the live identifiers. */
    method Halt(id: int, crash: bool)
      requires Valid() && id in allnodes && allnodes[id].alive
      modifies this`liveIds, allnodes[id]
      ensures liveIds == old(liveIds) - {id}
      ensures !allnodes[id].alive
      ensures crash ==> allnodes[id].blocks == map[] && allnodes[id].bytes == 0
      ensures !crash ==> allnodes[id].blocks == old(allnodes[id].blocks) && allnodes[id].bytes == old(allnodes[id].bytes)
      ensures allnodes[id].nrpc == old(allnodes[id].nrpc) && allnodes[id].sentBytes == old(allnodes[id].sentBytes)
      ensures forall x :: x in allnodes ==> (allnodes[x].alive <==> x in liveIds)
    {
      var n := allnodes[id];
      if crash {
        n.Crash();
      } else {
        n.Stop();
      }
      liveIds := liveIds - {id};
      forall x | x in allnodes && x != id ensures allnodes[x].alive == old(allnodes[x].alive) {
        assert allnodes[x].id != n.id;
      }
    }

    /** fail_node: _failure without losing blocks. */
    method FailNode(id: int) returns (ok: bool)
      requires Valid()
      modifies this, if id in allnodes then {allnodes[id]} else {}
      ensures Valid()
      ensures ok <==> id in old(allnodes)
      ensures allnodes == old(allnodes) && blocks == old(blocks)
      ensures ok ==> !allnodes[id].alive && id !in nodes && id in deadnodes
      ensures ok ==> && allnodes[id].blocks == old(allnodes[id].blocks)
                     && allnodes[id].bytes == old(allnodes[id].bytes)
                     && allnodes[id].nrpc == old(allnodes[id].nrpc)
                     && allnodes[id].sentBytes == old(allnodes[id].sentBytes)
      ensures ok && old(allnodes[id].alive) ==>
                && liveIds == old(liveIds) - {id}
                && (exists i :: 0 <= i < |old(nodes)| && old(nodes)[i] == id &&
                      nodes == old(nodes)[..i] + old(nodes)[i + 1..])
                && deadnodes == old(deadnodes)[id := allnodes[id]]
                && nowNodes == Note(old(nowNodes), id)
      ensures !(ok && old(allnodes[id].alive)) ==>
                && nodes == old(nodes) && deadnodes == old(deadnodes) && nowNodes == old(nowNodes)
                && liveIds == old(liveIds)
    {
      ok := Failure(id, false);
    }

    /** crash_node: _failure losing every block. */
    method CrashNode(id: int) returns (ok: bool)
      requires Valid()
      modifies this, if id in allnodes then {allnodes[id]} else {}
      ensures Valid()
      ensures ok <==> id in old(allnodes)
      ensures allnodes == old(allnodes) && blocks == old(blocks)
      ensures ok ==> !allnodes[id].alive && id !in nodes && id in deadnodes
      ensures ok ==> allnodes[id].nrpc == old(allnodes[id].nrpc) &&
                     allnodes[id].sentBytes == old(allnodes[id].sentBytes)
      ensures ok && old(allnodes[id].alive) ==>
                && allnodes[id].blocks == map[] && allnodes[id].bytes == 0
                && liveIds == old(liveIds) - {id}
                && (exists i :: 0 <= i < |old(nodes)| && old(nodes)[i] == id &&
                      nodes == old(nodes)[..i] + old(nodes)[i + 1..])
                && deadnodes == old(deadnodes)[id := allnodes[id]]
                && nowNodes == Note(old(nowNodes), id)
      ensures ok && !old(allnodes[id].alive) ==>
                allnodes[id].blocks == old(allnodes[id].blocks) && allnodes[id].bytes == old(allnodes[id].bytes)
      ensures !(ok && old(allnodes[id].alive)) ==>
                && nodes == old(nodes) && deadnodes == old(deadnodes) && nowNodes == old(nowNodes)
                && liveIds == old(liveIds)
    {
      ok := Failure(id, true);
    }

    /** The node objects' block holdings do not depend on anything else. */
    ghost function Holdings(): map<int, set<int>>
      reads this, allnodes.Values
    {
      HoldingsOf(allnodes)
    }

    /** Every known node's state, by identifier. */
    ghost function States(): map<int, NodeState>
      reads this, allnodes.Values
    {
      map x | x in allnodes :: allnodes[x].State()
    }

    /** The available blocks: those held by at least read_pieces() of their
        insert_pieces() successors, counted directly. */
    ghost function Available(): set<int>
      reads this, allnodes.Values
    {
      HeldEnoughAmong(Holdings(), nodes, policy, blocks.Keys)
    }

    /** `for s in succs: s.store(block, isz)`: store on each listed live
        node; the flags, the RPC counters and the bookkeeping do not change. */
    method StoreOn(succs: seq<int>, block: int, isz: int)
      requires Valid() && NoDup(succs) && forall x :: x in succs ==> x in nodes
      modifies allnodes.Values
      ensures Valid()
      ensures forall x :: x in allnodes ==>
                && allnodes[x].alive == old(allnodes[x].alive)
                && allnodes[x].nrpc == old(allnodes[x].nrpc)
                && allnodes[x].sentBytes == old(allnodes[x].sentBytes)
      ensures forall x :: x in allnodes ==>
                allnodes[x].blocks == (if x in succs then StoreBlocks(old(allnodes[x].blocks), block, isz)
                                       else old(allnodes[x].blocks))
      ensures forall x :: x in allnodes ==>
                allnodes[x].bytes == (if x in succs then StoreBytes(old(allnodes[x].blocks), old(allnodes[x].bytes), block, isz)
                                      else old(allnodes[x].bytes))
    {
      assert forall x :: x in succs ==> x in liveIds && x in allnodes && allnodes[x].alive;
      var i := 0;
      while i < |succs|
        invariant 0 <= i <= |succs|
        invariant forall x :: x in succs ==> x in allnodes && allnodes[x].alive
        invariant forall x :: x in allnodes ==>
                    && allnodes[x].alive == old(allnodes[x].alive)
                    && allnodes[x].nrpc == old(allnodes[x].nrpc)
                    && allnodes[x].sentBytes == old(allnodes[x].sentBytes)
        invariant forall x :: x in allnodes ==>
                    allnodes[x].blocks == (if x in succs[..i] then StoreBlocks(old(allnodes[x].blocks), block, isz)
                                           else old(allnodes[x].blocks))
        invariant forall x :: x in allnodes ==>
                    allnodes[x].bytes == (if x in succs[..i] then StoreBytes(old(allnodes[x].blocks), old(allnodes[x].bytes), block, isz)
                                          else old(allnodes[x].bytes))
      {
        var id := succs[i];
        assert id in succs && id !in succs[..i];
        var s := allnodes[id];
        assert s.alive;
        s.Store(block, isz);
        assert succs[..i + 1] == succs[..i] + [succs[i]];
        forall x | x in allnodes && x != succs[i] ensures allnodes[x] != s {
          assert allnodes[x].id != s.id;
        }
        i := i + 1;
      }
      assert succs[..i] == succs;
    }

    /** The inserting node's accounting in insert_block: `rpcs` more RPCs
        and `rpcs` pieces of `isz` bytes more sent. */
    method Charge(id: int, rpcs: nat, isz: int)
      requires Valid() && id in allnodes
      modifies allnodes[id]
      ensures Valid()
      ensures allnodes[id].nrpc == old(allnodes[id].nrpc) + rpcs
      ensures allnodes[id].sentBytes == old(allnodes[id].sentBytes) + isz * rpcs
      ensures forall x :: x in allnodes ==>
                && allnodes[x].blocks == old(allnodes[x].blocks)
                && allnodes[x].bytes == old(allnodes[x].bytes)
                && allnodes[x].alive == old(allnodes[x].alive)
      ensures forall x :: x in allnodes && x != id ==>
                allnodes[x].nrpc == old(allnodes[x].nrpc) && allnodes[x].sentBytes == old(allnodes[x].sentBytes)
    {
      var n := allnodes[id];
      n.nrpc := n.nrpc + rpcs;
      n.sentBytes := n.sentBytes + isz * rpcs;
      forall x | x in allnodes && x != id ensures allnodes[x] != n {
        assert allnodes[x].id != n.id;
      }
    }

    /** insert_block: record the block, store it on each of the first
        insert_pieces() successors of its identifier, and charge the
        inserting node one RPC and one piece of bytes per successor.  An
        unknown inserting node is a KeyError and an empty successor list an
        IndexError, both raised after the blocks were stored. */
    method InsertBlock(id: int, block: int, size: int) returns (r: InsertOutcome)
      requires Valid()
      modifies this`blocks, allnodes.Values
      ensures Valid()
      ensures nodes == old(nodes) && allnodes == old(allnodes) && deadnodes == old(deadnodes)
      ensures nowNodes == old(nowNodes) && liveIds == old(liveIds)
      ensures blocks == if block in old(blocks) then old(blocks) else old(blocks)[block := size]
      ensures var succs := Succ(nodes, block, InsertPieces(policy));
        var isz := InsertPieceSize(policy, size);
        && (forall x :: x in allnodes ==>
              allnodes[x].blocks == (if x in succs then StoreBlocks(old(allnodes[x].blocks), block, isz)
                                     else old(allnodes[x].blocks)))
        && (forall x :: x in allnodes ==>
              allnodes[x].bytes == (if x in succs then StoreBytes(old(allnodes[x].blocks), old(allnodes[x].bytes), block, isz)
                                    else old(allnodes[x].bytes)))
        && (id in allnodes ==> allnodes[id].nrpc == old(allnodes[id].nrpc) + |succs| &&
                               allnodes[id].sentBytes == old(allnodes[id].sentBytes) + isz * |succs|)
        && (forall x :: x in allnodes && x != id ==>
              allnodes[x].nrpc == old(allnodes[x].nrpc) && allnodes[x].sentBytes == old(allnodes[x].sentBytes))
        && (r == UnknownNode <==> id !in allnodes)
        && (r == NoSuccessor <==> id in allnodes && succs == [])
        && (r.Stored? ==> succs != [] && r.first == succs[0])
    {
      if block !in blocks {
        blocks := blocks[block := size];
      }
      var succs := Succ(nodes, block, InsertPieces(policy));
      var isz := InsertPieceSize(policy, size);
      SuccDistinct(nodes, block, InsertPieces(policy));
      StoreOn(succs, block, isz);
      if id !in allnodes {
        return UnknownNode;
      }
      Charge(id, |succs|, isz);
      if succs == [] {
        return NoSuccessor;
      }
      return Stored(succs[0]);
    }

    /** The second loop of _repair for block b: store it, with piece size
        isz, on each node of succs that lacks it, charging the fixer one RPC
        and one piece per store. */
    method StoreMissing(succs: seq<int>, b: int, isz: int, fixer: int)
      requires Valid() && fixer in allnodes && forall x :: x in succs ==> x in nodes
      modifies allnodes.Values
      ensures Valid()
      ensures forall x :: x in allnodes ==> allnodes[x].alive == old(allnodes[x].alive)
      ensures forall x :: x in allnodes ==>
                allnodes[x].blocks == (if x in succs then StoreBlocks(old(allnodes[x].blocks), b, isz)
                                       else old(allnodes[x].blocks))
      ensures forall x :: x in allnodes ==>
                allnodes[x].bytes == (if x in succs then StoreBytes(old(allnodes[x].blocks), old(allnodes[x].bytes), b, isz)
                                      else old(allnodes[x].bytes))
      ensures var stores := |Lacking(old(Holdings()), Members(succs), b)|;
        && allnodes[fixer].nrpc == old(allnodes[fixer].nrpc) + stores
        && allnodes[fixer].sentBytes == old(allnodes[fixer].sentBytes) + isz * stores
      ensures forall x :: x in allnodes && x != fixer ==>
                allnodes[x].nrpc == old(allnodes[x].nrpc) && allnodes[x].sentBytes == old(allnodes[x].sentBytes)
    {
      assert forall x :: x in succs ==> x in liveIds && x in allnodes && allnodes[x].alive;
      ghost var s0 := States();
      ghost var h0 := Holdings();
      StoreWindow(succs, b, isz, fixer, h0);
      ghost var n := |Lacking(h0, Members(succs), b)|;
      forall x | x in allnodes
        ensures allnodes[x].State() ==
                Visited(old(allnodes[x].State()), x in succs, if x == fixer then n else 0, b, isz)
      {
        assert s0[x] == old(allnodes[x].State());
      }
      assert forall x :: x in allnodes ==> allnodes[x].alive == old(allnodes[x].alive);
    }

    /** StoreMissing's loop, stated on whole node states: each node of the
        window ends up having stored b, and the fixer is charged once for
        each node of the window that lacked b in the holdings h0. */
    method StoreWindow(succs: seq<int>, b: int, isz: int, fixer: int, ghost h0: map<int, set<int>>)
      requires fixer in allnodes
      requires forall x :: x in succs ==> x in allnodes && allnodes[x].alive
      requires forall x :: x in allnodes ==> allnodes[x].id == x
      requires forall x :: x in allnodes ==> x in h0 && h0[x] == allnodes[x].blocks.Keys
      modifies allnodes.Values
      ensures Visiting(old(States()), Members(succs), fixer, |Lacking(h0, Members(succs), b)|, b, isz)
    {
      ghost var s0 := States();
      ghost var done: set<int> := {};
      ghost var stores := 0;
      assert Visiting(s0, done, fixer, stores, b, isz) by {
        forall x | x in allnodes ensures allnodes[x].State() == Visited(s0[x], false, 0, b, isz) { }
      }
      assert forall x :: x in succs ==> x in s0 && s0[x].alive;
      assert forall x :: x in s0 ==> x in h0 && h0[x] == s0[x].blocks.Keys;
      var i := 0;
      while i < |succs|
        invariant 0 <= i <= |succs|
        invariant done == Members(succs[..i])
        invariant stores == |Lacking(h0, done, b)|
        invariant Visiting(s0, done, fixer, stores, b, isz)
      {
        var id := succs[i];
        assert id in succs;
        ghost var step := StoreStep(id, b, isz, fixer, s0, done, stores);
        LackingGrows(h0, done, id, b, step == 0);
        WindowGrows(succs, i);
        done := done + {id};
        stores := stores + step;
        i := i + 1;
      }
      assert succs[..i] == succs;
    }

    /** The nodes have passed over a window of the repair of block b since
        they were in the states s0. */
    ghost predicate Visiting(s0: map<int, NodeState>, window: set<int>, fixer: int, rpcs: int, b: int, isz: int)
      reads this, allnodes.Values
    {
      && allnodes.Keys == s0.Keys
      && forall x :: x in allnodes ==>
           allnodes[x].State() == Visited(s0[x], x in window, if x == fixer then rpcs else 0, b, isz)
    }

    /** One turn of StoreWindow's loop, on the states it tracks. */
    method StoreStep(id: int, b: int, isz: int, fixer: int, ghost s0: map<int, NodeState>,
                     ghost done: set<int>, ghost stores: int) returns (ghost step: int)
      requires id in s0 && s0[id].alive && fixer in allnodes
      requires forall x :: x in allnodes ==> allnodes[x].id == x
      requires Visiting(s0, done, fixer, stores, b, isz)
      modifies allnodes.Values
      ensures step == if id in done || b in s0[id].blocks then 0 else 1
      ensures Visiting(s0, done + {id}, fixer, stores + step, b, isz)
    {
      VisitedHolds(s0[id], id in done, if id == fixer then stores else 0, b, isz);
      step := if b in allnodes[id].blocks then 0 else 1;
      label before:
      StoreIfMissing(id, b, isz, fixer);
      forall x | x in allnodes
        ensures allnodes[x].State() ==
                Visited(s0[x], x in done + {id}, if x == fixer then stores + step else 0, b, isz)
      {
        var r1, r2 := if x == fixer then stores else 0, if x == fixer then step else 0;
        var mid := old@before(allnodes[x].State());
        assert mid == Visited(s0[x], x in done, r1, b, isz);
        assert allnodes[x].State() == Visited(mid, x == id, r2, b, isz);
        VisitedTwice(s0[x], x in done, r1, x == id, r2, b, isz);
        assert (x in done || x == id) == (x in done + {id});
      }
    }

    /** One turn of _repair's store loop: a node of the window that lacks
        b stores it, and the fixer is charged one RPC and one piece. */
    method StoreIfMissing(id: int, b: int, isz: int, fixer: int)
      requires id in allnodes && allnodes[id].alive && fixer in allnodes
      requires forall x :: x in allnodes ==> allnodes[x].id == x
      modifies allnodes.Values
      ensures forall x :: x in allnodes ==>
                allnodes[x].State() ==
                Visited(old(allnodes[x].State()), x == id,
                        if x == fixer && b !in old(allnodes[id].blocks) then 1 else 0, b, isz)
    {
      var s := allnodes[id];
      if b !in s.blocks {
        s.Store(b, isz);
        var f := allnodes[fixer];
        f.nrpc := f.nrpc + 1;
        f.sentBytes := f.sentBytes + isz;
        forall x | x in allnodes && x != id ensures allnodes[x] != s {
          assert allnodes[x].id != s.id;
        }
        forall x | x in allnodes && x != fixer ensures allnodes[x] != f {
          assert allnodes[x].id != f.id;
        }
      }
    }

    /** The first loop of _repair for block b: how many nodes of succs
        hold it, and the first of them (the fixer), if any. */
    method CountHolders(succs: seq<int>, b: int) returns (avail: nat, fixer: Option<int>)
      requires Valid() && forall x :: x in succs ==> x in nodes
      ensures avail == Holders(Holdings(), succs, b)
      ensures fixer == FirstHolder(Holdings(), succs, b)
    {
      ghost var h := Holdings();
      assert forall x :: x in succs ==> x in liveIds && x in allnodes;
      avail := 0;
      fixer := None;
      var j := 0;
      while j < |succs|
        invariant 0 <= j <= |succs|
        invariant avail == Holders(h, succs[..j], b)
        invariant fixer == FirstHolder(h, succs[..j], b)
      {
        var id := succs[j];
        assert id in succs;
        HoldersSnoc(h, succs, j, b);
        FirstHolderSnoc(h, succs, j, b);
        if b in allnodes[id].blocks {
          if fixer.None? {
            fixer := Some(id);
          }
          avail := avail + 1;
        }
        j := j + 1;
      }
      assert succs[..j] == succs;
    }

    /** One block of _repair: count the nodes of succs holding b and note
        the first of them (the fixer); a block held, but by fewer than
        min_pieces() of them, is stored on the others. */
    method RepairBlock(succs: seq<int>, b: int)
      requires Valid() && b in blocks && forall x :: x in succs ==> x in nodes
      modifies allnodes.Values
      ensures Valid()
      ensures forall x :: x in allnodes ==> allnodes[x].alive == old(allnodes[x].alive)
      ensures var n := Holders(old(Holdings()), succs, b);
        forall x :: x in allnodes ==>
          allnodes[x].blocks == (if x in succs && 0 < n < MinPieces(policy)
                                 then StoreBlocks(old(allnodes[x].blocks), b, InsertPieceSize(policy, blocks[b]))
                                 else old(allnodes[x].blocks))
      ensures var n := Holders(old(Holdings()), succs, b);
        forall x :: x in allnodes ==>
          allnodes[x].bytes == (if x in succs && 0 < n < MinPieces(policy)
                                then StoreBytes(old(allnodes[x].blocks), old(allnodes[x].bytes), b,
                                                InsertPieceSize(policy, blocks[b]))
                                else old(allnodes[x].bytes))
      ensures var n := Holders(old(Holdings()), succs, b);
        !(0 < n < MinPieces(policy)) ==>
          forall x :: x in allnodes ==>
            allnodes[x].nrpc == old(allnodes[x].nrpc) && allnodes[x].sentBytes == old(allnodes[x].sentBytes)
      ensures var n := Holders(old(Holdings()), succs, b);
        var stores := |Lacking(old(Holdings()), Members(succs), b)|;
        0 < n < MinPieces(policy) ==>
          forall x :: x in allnodes && Some(x) != FirstHolder(old(Holdings()), succs, b) ==>
            allnodes[x].nrpc == old(allnodes[x].nrpc) && allnodes[x].sentBytes == old(allnodes[x].sentBytes)
      ensures var n := Holders(old(Holdings()), succs, b);
        var stores := |Lacking(old(Holdings()), Members(succs), b)|;
        var first := FirstHolder(old(Holdings()), succs, b);
        0 < n < MinPieces(policy) ==>
          var fixer := first.value;
          && fixer in allnodes
          && allnodes[fixer].nrpc == old(allnodes[fixer].nrpc) + stores
          && allnodes[fixer].sentBytes == old(allnodes[fixer].sentBytes) + InsertPieceSize(policy, blocks[b]) * stores
    {
      var avail, fixer := CountHolders(succs, b);
      if avail == 0 {
        // the block is lost: nothing to copy from
      } else if avail < MinPieces(policy) {
        StoreMissing(succs, b, InsertPieceSize(policy, blocks[b]), fixer.value);
      }
    }

    /** One turn of _repair's loop, on holdings that are those of h0 with
        the blocks r already restored on succs. */
    method RepairNext(succs: seq<int>, b: int, ghost h0: map<int, set<int>>, ghost r: set<int>)
      requires Valid() && b in blocks && forall x :: x in succs ==> x in nodes
      requires forall x :: x in allnodes ==>
                 x in h0 && allnodes[x].blocks.Keys == (if x in succs then h0[x] + r else h0[x])
      modifies allnodes.Values
      ensures Valid()
      ensures forall x :: x in allnodes ==> allnodes[x].alive == old(allnodes[x].alive)
      ensures forall x :: x in allnodes ==>
                allnodes[x].blocks.Keys ==
                  (if x in succs then h0[x] + (r + (if 0 < Holders(h0, succs, b) < MinPieces(policy) then {b} else {}))
                   else h0[x])
    {
      assert forall x :: x in succs ==> x in liveIds && x in allnodes;
      ghost var h1 := Holdings();
      HoldersAfterAdding(h0, h1, succs, r, b);
      ghost var n1 := Holders(h1, succs, b);
      RepairBlock(succs, b);
      forall x | x in allnodes && x in succs
        ensures allnodes[x].blocks.Keys ==
                h0[x] + (r + (if 0 < Holders(h0, succs, b) < MinPieces(policy) then {b} else {}))
      {
        StoreBlocksKeys(old(allnodes[x].blocks), b, InsertPieceSize(policy, blocks[b]));
        RepairKeysStep(h0[x], r, r + (if 0 < Holders(h0, succs, b) < MinPieces(policy) then {b} else {}),
                       b, n1, Holders(h0, succs, b), |succs|, MinPieces(policy));
      }
    }

    /** _repair: repair each block of resp on the window succs.  Each node
        of the window ends up holding every block that was held by some but
        fewer than min_pieces() of its nodes; nothing else is stored. */
    method RepairBlocks(succs: seq<int>, resp: seq<int>)
      requires Valid() && (forall x :: x in succs ==> x in nodes) && (forall b :: b in resp ==> b in blocks)
      modifies allnodes.Values
      ensures Valid()
      ensures forall x :: x in allnodes ==> allnodes[x].alive == old(allnodes[x].alive)
      ensures forall x :: x in allnodes ==>
                allnodes[x].blocks.Keys ==
                  (if x in succs then old(allnodes[x].blocks.Keys) + Repaired(old(Holdings()), succs, resp, MinPieces(policy))
                   else old(allnodes[x].blocks.Keys))
    {
      ghost var h0 := Holdings();
      ghost var minp := MinPieces(policy);
      ghost var done: set<int> := {};
      assert resp[..0] == [];
      var i := 0;
      while i < |resp|
        invariant 0 <= i <= |resp|
        invariant Valid()
        invariant done == Repaired(h0, succs, resp[..i], minp)
        invariant forall x :: x in allnodes ==> allnodes[x].alive == old(allnodes[x].alive)
        invariant forall x :: x in allnodes ==>
                    x in h0 && allnodes[x].blocks.Keys == (if x in succs then h0[x] + done else h0[x])
      {
        var b := resp[i];
        assert b in resp;
        RepairedSnoc(h0, succs, resp, i, minp);
        RepairNext(succs, b, h0, done);
        done := done + (if 0 < Holders(h0, succs, b) < minp then {b} else {});
        i := i + 1;
      }
      assert resp[..i] == resp;
    }

    /** repair(affected): walk the count predecessors and count successors
        of the affected node, and run _repair on every window of count
        consecutive nodes of that slice that has a node before it, with the
        keys of the arc from that node to the window's first node.  Windows
        and arcs are the corrected ones (WindowStarts, RespBlocks).  Nodes
        only gain blocks, only blocks the simulator inserted, and only nodes
        of the slice change. */
    method Repair(affected: int)
      requires Valid()
      modifies allnodes.Values
      ensures Valid()
      ensures forall x :: x in allnodes ==> allnodes[x].alive == old(allnodes[x].alive)
      ensures forall x :: x in allnodes ==>
                old(allnodes[x].blocks.Keys) <= allnodes[x].blocks.Keys <= old(allnodes[x].blocks.Keys) + blocks.Keys
      ensures var count := InsertPieces(policy);
        forall x :: x in allnodes && x !in Pred(nodes, affected, count) && x !in Succ(nodes, affected, count) ==>
          allnodes[x].blocks.Keys == old(allnodes[x].blocks.Keys)
    {
      var count := InsertPieces(policy);
      var preds := Pred(nodes, affected, count);
      var succs := Succ(nodes, affected, count);
      PredDistinct(nodes, affected, count);
      SuccDistinct(nodes, affected, count);
      var slice := preds + succs;
      assert forall x :: x in slice ==> x in nodes;
      RepairSlice(slice, count);
    }

    /** The loop of repair over the windows of slice, made of at most count
        predecessors and count successors. */
    method RepairSlice(slice: seq<int>, count: nat)
      requires Valid() && |slice| <= 2 * count && forall x :: x in slice ==> x in nodes
      modifies allnodes.Values
      ensures Valid()
      ensures forall x :: x in allnodes ==> allnodes[x].alive == old(allnodes[x].alive)
      ensures forall x :: x in allnodes ==>
                old(allnodes[x].blocks.Keys) <= allnodes[x].blocks.Keys <= old(allnodes[x].blocks.Keys) + blocks.Keys
      ensures forall x :: x in allnodes && x !in slice ==> allnodes[x].blocks.Keys == old(allnodes[x].blocks.Keys)
    {
      ghost var h0 := Holdings();
      var k := SortedKeys(blocks.Keys);
      var starts := WindowStarts(|slice|, count);
      var t := 0;
      while t < |starts|
        invariant 0 <= t <= |starts|
        invariant Valid()
        invariant forall x :: x in allnodes ==> allnodes[x].alive == old(allnodes[x].alive)
        invariant forall x :: x in allnodes ==>
                    x in h0 && h0[x] <= allnodes[x].blocks.Keys <= h0[x] + blocks.Keys
        invariant forall x :: x in allnodes && x !in slice ==> allnodes[x].blocks.Keys == h0[x]
      {
        var i := starts[t];
        assert i in starts;
        var p := slice[i - 1];
        var s := slice[i..i + count];
        assert forall x :: x in s ==> x in slice;
        var r := RespBlocks(k, p, s[0]);
        ghost var added := Repaired(Holdings(), s, r, MinPieces(policy));
        assert added <= blocks.Keys;
        label step:
        RepairBlocks(s, r);
        forall x | x in allnodes ensures h0[x] <= allnodes[x].blocks.Keys <= h0[x] + blocks.Keys {
          GrowWithin(h0[x], old@step(allnodes[x].blocks.Keys), allnodes[x].blocks.Keys, added, blocks.Keys);
        }
        t := t + 1;
      }
    }

    /** available_blocks: list the blocks in ascending order and count
        those held by at least read_pieces() of their successors. */
    method AvailableBlocks() returns (avail: nat)
      requires Valid()
      ensures avail == |Available()|
    {
      var k := SortedKeys(blocks.Keys);
      ghost var h := Holdings();
      ghost var p := HeldEnoughAmong(h, nodes, policy, blocks.Keys);
      assert forall b :: b in k ==> (b in p <==> HeldEnough(h, nodes, policy, b));
      avail := CountAvailable(k, h, p);
      CountAllMembers(k, blocks.Keys, p);
    }

    /** The loop of available_blocks over the sorted keys k, given the
        holdings h and the set p of the keys held by enough successors: the
        successor list is reused while the block is not past its first node,
        and each block's holders are counted. */
    method CountAvailable(k: seq<int>, ghost h: map<int, set<int>>, ghost p: set<int>) returns (avail: nat)
      requires Ascending(nodes) && Ascending(k) && forall x :: x in nodes ==> x in allnodes
      requires h == Holdings()
      requires forall b {:trigger HeldEnough(h, nodes, policy, b)} ::
                 b in k ==> (b in p <==> HeldEnough(h, nodes, policy, b))
      ensures avail == CountMembers(k, p)
    {
      var inserted := InsertPieces(policy);
      var needed := ReadPieces(policy);
      avail := 0;
      var succs: seq<int> := [];
      var i := 0;
      while i < |k|
        invariant 0 <= i <= |k|
        invariant avail == CountMembers(k[..i], p)
        invariant succs != [] ==> 0 < i && succs == Succ(nodes, k[i - 1], inserted)
      {
        var b := k[i];
        assert b in k;
        if i > 0 {
          CachedSuccValid(nodes, inserted, k[i - 1], b, succs);
        }
        succs := CachedSucc(nodes, inserted, b, succs);
        SuccDistinct(nodes, b, inserted);
        var extant := 0;
        var j := 0;
        while j < |succs|
          invariant 0 <= j <= |succs|
          invariant extant == Holders(h, succs[..j], b)
        {
          var id := succs[j];
          assert id in succs;
          HoldersSnoc(h, succs, j, b);
          if b in allnodes[id].blocks {
            extant := extant + 1;
          }
          j := j + 1;
        }
        assert succs[..j] == succs;
        assert b in p <==> HeldEnough(h, nodes, policy, b);
        CountMembersSnoc(k, i, p);
        if extant >= needed {
          avail := avail + 1;
        }
        i := i + 1;
      }
      assert k[..i] == k;
    }
  }
}
