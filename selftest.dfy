/** The expectations of availsim/dhash.py's own self-test, stated on the
    model's functions. */
module AvailSimSelfTest {
  import opened AvailSim

  /** The ring of the self-test, nodes 55, 4, 23, 30, 17, 42 and 63 in the
      sorted order add_node keeps. */
  const Ring: seq<int> := [4, 17, 23, 30, 42, 55, 63]

  /** A block goes first to its successor, wrapping past the last node. */
  lemma BlockAbove63GoesTo4()
    ensures Succ(Ring, 73, 3)[0] == 4
  {
    assert FindSuccessorIndex(Ring, 73) == 0;
  }

  lemma BlockBelow4GoesTo4()
    ensures Succ(Ring, 3, 3)[0] == 4
  {
    assert FindSuccessorIndex(Ring, 3) == 0;
  }

  lemma Block4GoesTo4()
    ensures Succ(Ring, 4, 3)[0] == 4
  {
    assert FindSuccessorIndex(Ring, 4) == 0;
  }

  lemma Block20GoesTo23()
    ensures Succ(Ring, 20, 3)[0] == 23
  {
    assert FindSuccessorIndex(Ring, 20) == 2;
  }

  lemma Block56GoesTo63()
    ensures Succ(Ring, 56, 3)[0] == 63
  {
    assert FindSuccessorIndex(Ring, 56) == 6;
  }

  /** Keys at or below the first node wrap to the last node. */
  lemma PredecessorIndexOf4()
    ensures FindPredecessorIndex(Ring, 4) == 6
  {
    assert BisectLeft(Ring, 4) == 0;
  }

  lemma PredecessorIndexOf66()
    ensures FindPredecessorIndex(Ring, 66) == 6
  {
    assert BisectLeft(Ring, 66) == 7;
  }

  lemma PredecessorIndexOf10()
    ensures FindPredecessorIndex(Ring, 10) == 0
  {
    assert BisectLeft(Ring, 10) == 1;
  }

  lemma PredecessorIndexOf25()
    ensures FindPredecessorIndex(Ring, 25) == 2
  {
    assert BisectLeft(Ring, 25) == 3;
  }

  lemma SuccessorListLengths()
    ensures |Succ(Ring, 0, 3)| == 3 && |Succ(Ring, 63, 3)| == 3
    ensures |Succ(Ring, 24, 3)| == 3 && |Succ(Ring, 35, 3)| == 3
  {
  }

  /** The immediate predecessor excludes the key itself and wraps below the
      first node. */
  lemma PredecessorOf5()
    ensures Pred(Ring, 5, 1) == [4]
  {
    assert FindPredecessorIndex(Ring, 5) == 0;
  }

  lemma PredecessorOf31()
    ensures Pred(Ring, 31, 1) == [30]
  {
    assert FindPredecessorIndex(Ring, 31) == 3;
  }

  lemma PredecessorOf30()
    ensures Pred(Ring, 30, 1) == [23]
  {
    assert FindPredecessorIndex(Ring, 30) == 2;
  }

  lemma PredecessorOf3()
    ensures Pred(Ring, 3, 1) == [63]
  {
    assert FindPredecessorIndex(Ring, 3) == 6;
  }

  /** Asked for as many predecessors as there are live nodes, pred wraps
      all the way round and lists the key's own node among them: the bound
      num < |nodes| of PredExcludesKey cannot be dropped. */
  lemma PredOfWholeRingIncludesKey()
    ensures Pred(Ring, 30, 7)[0] == 30
    ensures 30 in Pred(Ring, 30, 7)
  {
    assert FindPredecessorIndex(Ring, 30) == 2;
    assert Pred(Ring, 30, 7) == Ring[3..] + Ring[..3];
  }

  lemma PredecessorListLength()
    ensures |Pred(Ring, 5, 3)| == 3
  {
  }
}
