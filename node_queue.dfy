/** The priority queue of TreeNodes that the tree construction polls and
    offers on, as a sequence whose order means nothing: polling removes ONE
    node of least frequency, and which one among equals is left open, as
    java.util.PriorityQueue leaves it. */
module NodeQueue {
  import opened TreeNodes

  /** The sum of the frequencies of the queued nodes. */
  function SumFreq(q: seq<TreeNode>): int {
    if q == [] then 0 else Weight(q[0]) + SumFreq(q[1..])
  }

  /** The leaf characters of all queued trees, tree after tree. */
  function QueueChars(q: seq<TreeNode>): seq<char> {
    if q == [] then [] else LeafChars(q[0]) + QueueChars(q[1..])
  }

  /** `q[i]` has a frequency no other node in the queue is below. */
  predicate IsMinAt(q: seq<TreeNode>, i: int) {
    0 <= i < |q| && forall j :: 0 <= j < |q| ==> Weight(q[i]) <= Weight(q[j])
  }

  lemma {:induction false} SumFreqConcat(a: seq<TreeNode>, b: seq<TreeNode>)
    ensures SumFreq(a + b) == SumFreq(a) + SumFreq(b)
    decreases |a|
  {
    if a == [] {
      assert a + b == b;
    } else {
      assert (a + b)[1..] == a[1..] + b;
      SumFreqConcat(a[1..], b);
    }
  }

  lemma {:induction false} QueueCharsConcat(a: seq<TreeNode>, b: seq<TreeNode>)
    ensures QueueChars(a + b) == QueueChars(a) + QueueChars(b)
    decreases |a|
  {
    if a == [] {
      assert a + b == b;
    } else {
      assert (a + b)[1..] == a[1..] + b;
      QueueCharsConcat(a[1..], b);
    }
  }

  /** Offering a node adds its frequency and its leaves to the queue's. */
  lemma Offer(q: seq<TreeNode>, t: TreeNode)
    ensures SumFreq(q + [t]) == SumFreq(q) + Weight(t)
    ensures QueueChars(q + [t]) == QueueChars(q) + LeafChars(t)
  {
    SumFreqConcat(q, [t]);
    QueueCharsConcat(q, [t]);
    assert [t][1..] == [];
  }

  /** With no negative frequency, no queued node weighs more than the
      whole queue. */
  lemma {:induction false} SumFreqBound(q: seq<TreeNode>)
    requires forall t :: t in q ==> Weight(t) >= 0
    ensures forall t :: t in q ==> Weight(t) <= SumFreq(q)
    decreases |q|
  {
    if q != [] {
      SumFreqBound(q[1..]);
      assert forall t :: t in q ==> t == q[0] || t in q[1..];
    }
  }

  /** A non-empty queue has a node of least frequency. */
  lemma {:induction false} MinExists(q: seq<TreeNode>)
    requires q != []
    ensures exists i :: IsMinAt(q, i)
    decreases |q|
  {
    if |q| > 1 {
      MinExists(q[1..]);
      var k :| IsMinAt(q[1..], k);
      if Weight(q[0]) <= Weight(q[1..][k]) {
        assert IsMinAt(q, 0);
      } else {
        assert IsMinAt(q, k + 1);
      }
    } else {
      assert IsMinAt(q, 0);
    }
  }

  /** `rest` is what remains of `q` once `m` is taken out of it: one node
      fewer, each remaining node from `q`, and the frequencies and leaves of
      `m` no longer counted. */
  predicate Polled(q: seq<TreeNode>, m: TreeNode, rest: seq<TreeNode>) {
    m in q && |rest| == |q| - 1 && (forall t :: t in rest ==> t in q) &&
    SumFreq(rest) + Weight(m) == SumFreq(q) &&
    multiset(QueueChars(rest)) + multiset(LeafChars(m)) == multiset(QueueChars(q))
  }

  /** `queue.poll()` on a non-empty queue: removes and returns one node of
      least frequency; the rest of the queue keeps its nodes, their
      frequencies and their leaves. */
  method PollMin(q: seq<TreeNode>) returns (m: TreeNode, rest: seq<TreeNode>)
    requires q != []
    ensures m in q && forall t :: t in q ==> Weight(m) <= Weight(t)
    ensures multiset(rest) + multiset{m} == multiset(q)
    ensures Polled(q, m, rest)
  {
    MinExists(q);
    var i :| IsMinAt(q, i);
    m, rest := q[i], q[..i] + q[i + 1..];
    assert q == q[..i] + [m] + q[i + 1..];
    SumFreqConcat(q[..i] + [m], q[i + 1..]);
    SumFreqConcat(q[..i], [m]);
    SumFreqConcat(q[..i], q[i + 1..]);
    QueueCharsConcat(q[..i] + [m], q[i + 1..]);
    QueueCharsConcat(q[..i], [m]);
    QueueCharsConcat(q[..i], q[i + 1..]);
    assert QueueChars([m]) == LeafChars(m) by {
      assert [m][1..] == [];
    }
    assert SumFreq([m]) == Weight(m) by {
      assert [m][1..] == [];
    }
  }
}
