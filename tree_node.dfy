/** The node type of the coding tree (src/TreeNode.java) and the structural
    vocabulary used to talk about trees built from it. */
module TreeNodes {

  /** A node of the coding tree. `Nil` stands for a null reference; the
      `TreeNode` constructor is the four-argument Java constructor, which
      stores exactly the given character, frequency and children. */
  datatype TreeNode = Nil | TreeNode(charValue: char, frequency: int, left: TreeNode, right: TreeNode)

  /** A node without children: the code table and the decoder treat it as a leaf. */
  predicate IsLeaf(t: TreeNode) {
    t.TreeNode? && t.left == Nil && t.right == Nil
  }

  /** A node with both children present. */
  predicate Branching(t: TreeNode) {
    t.TreeNode? && t.left != Nil && t.right != Nil
  }

  /** The frequency of a node, 0 for a null reference. */
  function Weight(t: TreeNode): int {
    if t.Nil? then 0 else t.frequency
  }

  /** Every node is present and has either no child or two children. */
  predicate Complete(t: TreeNode)
    decreases t
  {
    IsLeaf(t) || (Branching(t) && Complete(t.left) && Complete(t.right))
  }

  /** Every inner node carries '\0' and the sum of its children's frequencies. */
  predicate Combined(t: TreeNode)
    decreases t
  {
    t.Nil? || IsLeaf(t) ||
    (t.charValue == '\0' && t.frequency == Weight(t.left) + Weight(t.right) &&
     Combined(t.left) && Combined(t.right))
  }

  /** The characters of the leaves, from left to right. */
  function LeafChars(t: TreeNode): seq<char>
    decreases t
  {
    if t.Nil? then []
    else if IsLeaf(t) then [t.charValue]
    else LeafChars(t.left) + LeafChars(t.right)
  }

  /** No character labels two leaves. */
  predicate DistinctLeaves(t: TreeNode) {
    forall c :: multiset(LeafChars(t))[c] <= 1
  }

  /** Every leaf holds a character of `m` together with that character's count. */
  predicate LeavesFrom(t: TreeNode, m: map<char, int>)
    decreases t
  {
    t.Nil? ||
    (if IsLeaf(t) then t.charValue in m && t.frequency == m[t.charValue]
     else LeavesFrom(t.left, m) && LeavesFrom(t.right, m))
  }

  /** The node reached by following `path` from `t`: '0' goes left, any other
      character goes right; `Nil` once the path leaves the tree. */
  function Walk(t: TreeNode, path: string): TreeNode
    decreases path
  {
    if t.Nil? || path == [] then t
    else Walk(if path[0] == '0' then t.left else t.right, path[1..])
  }

  /** The same tree with every frequency set to 0. */
  function Skeleton(t: TreeNode): (r: TreeNode)
    ensures r.Nil? <==> t.Nil?
    ensures Branching(r) <==> Branching(t)
    ensures IsLeaf(r) <==> IsLeaf(t)
    decreases t
  {
    if t.Nil? then Nil else TreeNode(t.charValue, 0, Skeleton(t.left), Skeleton(t.right))
  }

  // ---------------------------------------------------------------------
  // The remaining constructors of TreeNode.java, which delegate to the
  // four-argument one.

  /** `new TreeNode(frequency, left, right)`: an inner node labelled '\0'. */
  function Internal(frequency: int, left: TreeNode, right: TreeNode): (r: TreeNode)
    ensures r.TreeNode? && r.charValue == '\0' && r.frequency == frequency
    ensures r.left == left && r.right == right
    ensures left != Nil && right != Nil ==> Branching(r) && !IsLeaf(r)
    ensures Complete(left) && Complete(right) ==>
              Complete(r) && LeafChars(r) == LeafChars(left) + LeafChars(right)
    ensures Combined(left) && Combined(right) && frequency == Weight(left) + Weight(right) ==>
              Combined(r)
  {
    TreeNode('\0', frequency, left, right)
  }

  /** `new TreeNode(charValue, frequency)`: a leaf. */
  function Leaf(charValue: char, frequency: int): (r: TreeNode)
    ensures IsLeaf(r) && Complete(r) && Combined(r)
    ensures r.charValue == charValue && r.frequency == frequency
    ensures LeafChars(r) == [charValue]
  {
    TreeNode(charValue, frequency, Nil, Nil)
  }

  /** `new TreeNode(frequency)`: a childless node labelled '\0'. */
  function WithFrequency(frequency: int): (r: TreeNode)
    ensures IsLeaf(r) && r.charValue == '\0' && r.frequency == frequency
  {
    TreeNode('\0', frequency, Nil, Nil)
  }

  /** `new TreeNode()`: the childless, '\0'-labelled, zero-frequency node that
      the decoder's tree reconstruction creates on demand. */
  function Empty(): (r: TreeNode)
    ensures IsLeaf(r) && r.charValue == '\0' && r.frequency == 0
  {
    TreeNode('\0', 0, Nil, Nil)
  }

  // ---------------------------------------------------------------------
  // compareTo

  const MinInt: int := -0x8000_0000
  const MaxInt: int := 0x7fff_ffff

  predicate IsInt32(x: int) {
    MinInt <= x <= MaxInt
  }

  /** Java's 32-bit two's-complement wrap-around of an int result. */
  function Wrap32(x: int): (r: int)
    ensures IsInt32(r)
    ensures IsInt32(x) ==> r == x
  {
    (x - MinInt) % 0x1_0000_0000 + MinInt
  }

  /** `this.compareTo(other)`: the frequency difference, computed in 32-bit
      int arithmetic. Its sign is the order of the frequencies whenever both
      are non-negative, as the frequencies of a coding tree always are. */
  function CompareTo(self: TreeNode, other: TreeNode): (r: int)
    requires self.TreeNode? && other.TreeNode?
    requires IsInt32(self.frequency) && IsInt32(other.frequency)
    ensures IsInt32(r)
    ensures 0 <= self.frequency && 0 <= other.frequency ==>
              (r < 0 <==> self.frequency < other.frequency) &&
              (r == 0 <==> self.frequency == other.frequency) &&
              (r > 0 <==> self.frequency > other.frequency)
  {
    Wrap32(self.frequency - other.frequency)
  }

  /** compareTo is antisymmetric in sign on non-negative frequencies. */
  lemma CompareToAntisymmetric(a: TreeNode, b: TreeNode)
    requires a.TreeNode? && b.TreeNode?
    requires 0 <= a.frequency <= MaxInt && 0 <= b.frequency <= MaxInt
    ensures CompareTo(a, b) == -CompareTo(b, a)
  {
  }

  /** Without the non-negativity the subtraction can overflow: a node of
      frequency MinInt compares greater than one of frequency 1. */
  lemma CompareToOverflows()
    ensures CompareTo(WithFrequency(MinInt), WithFrequency(1)) > 0
  {
  }

  // ---------------------------------------------------------------------
  // Lemmas about paths

  /** Following `p + q` is following `p`, then `q`. */
  lemma {:induction false} WalkAppend(t: TreeNode, p: string, q: string)
    ensures Walk(t, p + q) == Walk(Walk(t, p), q)
    decreases p
  {
    if p == [] {
      assert p + q == q;
    } else if t.TreeNode? {
      assert (p + q)[0] == p[0] && (p + q)[1..] == p[1..] + q;
      WalkAppend(if p[0] == '0' then t.left else t.right, p[1..], q);
    }
  }

  /** A path can never continue past a leaf. */
  lemma WalkPastLeaf(t: TreeNode, q: string)
    requires IsLeaf(t) && q != []
    ensures Walk(t, q) == Nil
  {
  }

  /** The subtrees of a tree without repeated leaves have no repeated
      leaves and no leaf character in common. */
  lemma DistinctChildren(t: TreeNode)
    requires Complete(t) && !IsLeaf(t) && DistinctLeaves(t)
    ensures Branching(t) && Complete(t.left) && Complete(t.right)
    ensures DistinctLeaves(t.left) && DistinctLeaves(t.right)
    ensures forall x :: x in LeafChars(t.left) ==> x !in LeafChars(t.right)
  {
    var a, b := LeafChars(t.left), LeafChars(t.right);
    assert LeafChars(t) == a + b;
    assert multiset(LeafChars(t)) == multiset(a) + multiset(b);
    forall x
      ensures multiset(a)[x] <= 1 && multiset(b)[x] <= 1
    {
      assert multiset(LeafChars(t))[x] == multiset(a)[x] + multiset(b)[x];
    }
    forall x | x in a
      ensures x !in b
    {
      assert multiset(a)[x] > 0 && multiset(LeafChars(t))[x] <= 1;
    }
  }

  /** The leaf at the end of a path is one of the tree's leaves. */
  lemma {:induction false} WalkLeafIn(t: TreeNode, p: string)
    requires IsLeaf(Walk(t, p))
    ensures Walk(t, p).charValue in LeafChars(t)
    decreases p
  {
    if p != [] && !IsLeaf(t) {
      assert t.TreeNode?;
      var child := if p[0] == '0' then t.left else t.right;
      WalkLeafIn(child, p[1..]);
    }
  }
}
