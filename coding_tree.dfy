/** The Huffman coder itself (src/CodingTree.java): the object that counts
    the characters of a message, builds the coding tree, derives the code
    table, encodes the message, and decodes bits with a given table. */
module Coding {
  import opened TreeNodes
  import opened Frequencies
  import opened NodeQueue
  import opened CodeTable
  import opened Reconstruction
  import opened Decoding

  /** A subtree the construction may hold: complete, with summed inner
      nodes and leaves taken from the count table. */
  predicate Built(t: TreeNode, m: map<char, int>) {
    Complete(t) && Combined(t) && LeavesFrom(t, m)
  }

  /** Every queued node is such a subtree. */
  predicate Forest(q: seq<TreeNode>, m: map<char, int>) {
    forall t :: t in q ==> Built(t, m)
  }

  /** A tree whose leaves are the elements of a set, counted with
      multiplicity, has no character on two leaves. */
  lemma KeyLeavesDistinct(t: TreeNode, keys: set<char>)
    requires multiset(LeafChars(t)) == multiset(keys)
    ensures DistinctLeaves(t)
  {
    forall c ensures multiset(LeafChars(t))[c] <= 1 {
      assert multiset(keys)[c] <= 1;
    }
  }

  /** The state of buildTree's first loop: the leaves of the keys offered
      so far (`done`, in offering order) are queued, and their counts have
      moved from the keys still to offer into the queue. */
  ghost predicate Filling(queue: seq<TreeNode>, keys: set<char>, done: seq<char>, m: map<char, int>) {
    keys <= m.Keys && Forest(queue, m) && QueueChars(queue) == done &&
    Enumerates(done, m.Keys - keys) && SumFreq(queue) + SumOver(m, keys) == Total(m) &&
    |queue| + |keys| == |m|
  }

  /** The state of buildTree's second loop. While nodes are queued they
      hold every key once as a leaf and the total count; `combined`, the
      last node joined, stays queued until the final poll; before any join
      the queue is as filled, and after the final poll `combined` is the
      whole tree. */
  ghost predicate Joining(queue: seq<TreeNode>, combined: TreeNode, m: map<char, int>) {
    Forest(queue, m) && |queue| <= |m| &&
    (queue != [] ==> multiset(QueueChars(queue)) == multiset(m.Keys) && SumFreq(queue) == Total(m)) &&
    (combined == Nil ==> |queue| == |m| || |m| <= 1) &&
    (combined != Nil ==> |m| >= 2 && !IsLeaf(combined) && Built(combined, m)) &&
    (combined != Nil && queue != [] ==> combined in queue) &&
    (combined != Nil && queue == [] ==>
       multiset(LeafChars(combined)) == multiset(m.Keys) && combined.frequency == Total(m))
  }

  /** One round of the loop that fills the queue. */
  lemma FillStep(queue: seq<TreeNode>, keys: set<char>, done: seq<char>, m: map<char, int>, c: char)
    requires Filling(queue, keys, done, m) && c in keys
    ensures Filling(queue + [Leaf(c, m[c])], keys - {c}, done + [c], m)
  {
    Offer(queue, Leaf(c, m[c]));
    SumOverRemove(m, keys, c);
    assert c !in done;
  }

  /** Once every key is offered, the second loop can start. */
  lemma FillDone(queue: seq<TreeNode>, done: seq<char>, m: map<char, int>)
    requires Filling(queue, {}, done, m)
    ensures Joining(queue, Nil, m)
  {
    EnumeratesMultiset(done, m.Keys);
  }

  /** One round of the second loop that joins the two polled nodes. */
  lemma JoinStep(queue: seq<TreeNode>, combined: TreeNode, first: TreeNode, rest: seq<TreeNode>,
                 second: TreeNode, rest': seq<TreeNode>, m: map<char, int>)
    requires Joining(queue, combined, m)
    requires Polled(queue, first, rest) && Polled(rest, second, rest')
    ensures first.TreeNode? && second.TreeNode?
    ensures Joining(rest' + [Internal(first.frequency + second.frequency, first, second)],
                    Internal(first.frequency + second.frequency, first, second), m)
  {
    assert Forest(rest', m);
    Join(first, second, rest', m);
  }

  /** The round of the second loop that polls the last node. */
  lemma LastStep(queue: seq<TreeNode>, combined: TreeNode, first: TreeNode, m: map<char, int>)
    requires Joining(queue, combined, m) && Polled(queue, first, [])
    ensures Joining([], combined, m)
  {
    assert queue == [queue[0]];
    assert [first][1..] == [];
  }

  /** Joining two polled subtrees under a new inner node gives a subtree
      the construction may hold, with both subtrees' leaves and weights. */
  lemma Join(first: TreeNode, second: TreeNode, rest: seq<TreeNode>, m: map<char, int>)
    requires Built(first, m) && Built(second, m) && Forest(rest, m)
    ensures first.TreeNode? && second.TreeNode?
    ensures Built(Internal(first.frequency + second.frequency, first, second), m)
    ensures Forest(rest + [Internal(first.frequency + second.frequency, first, second)], m)
    ensures SumFreq(rest + [Internal(first.frequency + second.frequency, first, second)]) ==
            SumFreq(rest) + Weight(first) + Weight(second)
    ensures multiset(QueueChars(rest + [Internal(first.frequency + second.frequency, first, second)])) ==
            multiset(QueueChars(rest)) + multiset(LeafChars(first)) + multiset(LeafChars(second))
  {
    var c := Internal(first.frequency + second.frequency, first, second);
    Offer(rest, c);
  }

  /** A subtree built from non-negative counts has a non-negative frequency. */
  lemma {:induction false} BuiltNonNegative(t: TreeNode, m: map<char, int>)
    requires Built(t, m) && forall c :: c in m ==> m[c] >= 0
    ensures t.frequency >= 0
    decreases t
  {
    if !IsLeaf(t) {
      BuiltNonNegative(t.left, m);
      BuiltNonNegative(t.right, m);
    }
  }

  /** The queue of buildTree is a PriorityQueue ordered by compareTo. While
      the second loop runs on the counts of a message (whose length a Java
      String keeps within int), every queued frequency lies between 0 and
      the message length, so compareTo orders the queued nodes exactly as
      their frequencies do, and polling a node of least frequency is polling
      the node compareTo puts first. */
  lemma PollOrderIsCompareTo(queue: seq<TreeNode>, combined: TreeNode, message: string)
    requires Joining(queue, combined, Counts(message)) && |message| <= MaxInt
    ensures forall a, b :: a in queue && b in queue ==>
              a.TreeNode? && b.TreeNode? && IsInt32(a.frequency) && IsInt32(b.frequency) &&
              (CompareTo(a, b) <= 0 <==> Weight(a) <= Weight(b))
  {
    if queue != [] {
      TotalCounts(message);
      forall t | t in queue ensures Weight(t) >= 0 {
        BuiltNonNegative(t, Counts(message));
      }
      SumFreqBound(queue);
    }
  }

  /** The table of a tree whose leaves are the counted characters of a
      message has a code for exactly the characters of that message. */
  lemma TableCoversMessage(t: TreeNode, message: string)
    requires Complete(t) && multiset(LeafChars(t)) == multiset(Counts(message).Keys)
    ensures forall c :: c in CodesOf(t, "") <==> c in message
  {
    forall c ensures c in LeafChars(t) <==> c in message {
      assert c in LeafChars(t) <==> multiset(LeafChars(t))[c] > 0;
      assert c in Counts(message) <==> c in message;
    }
  }

  /** A prefix-free table that is not the table of a full tree is decoded
      without complaint: with codes "0" and "10", the node at "1" only gets
      a left child, so the walk stops there and emits its '\0' between the
      decoded characters. */
  lemma PartialTableEmitsInnerNode()
    ensures var root := InsertAll(map['a' := "0", 'b' := "10"], ['a', 'b'], Nil);
            Branching(root) && Text(root, "010", 0) == ['a', '\0', 'a']
  {
    var codes := map['a' := "0", 'b' := "10"];
    var a, b := Leaf('a', 0), Leaf('b', 0);
    var inner := TreeNode('\0', 0, b, Nil);
    assert ['a', 'b'][..1] == ['a'] && ['a'][..0] == [];
    assert InsertAll(codes, ['a'], Nil) == TreeNode('\0', 0, a, Nil);
    var root := InsertAll(codes, ['a', 'b'], Nil);
    assert root == TreeNode('\0', 0, a, inner);
    assert Descend(root, "010", 0) == (a, 1);
    assert Descend(root, "010", 1) == (inner, 2);
    assert Descend(root, "010", 2) == (a, 3);
  }

  // Facts about map union, stated apart from the class so that the
  // methods' proof obligations stay small.

  /** Adding two tables one after the other adds their union. */
  lemma UnionAssoc(m: map<char, string>, l: map<char, string>, r: map<char, string>)
    ensures m + l + r == m + (l + r)
  {
  }

  /** Adding a table to the empty table gives that table. */
  lemma EmptyUnion(m: map<char, string>)
    ensures map[] + m == m
  {
  }

  class CodingTree {
    /** The encoded message. */
    var bits: string
    /** The code of each character of the message. */
    var codes: map<char, string>
    /** The number of occurrences of each character of the message. */
    var frequencies: map<char, int>
    /** The coding tree; `Nil` before the tree is built or rebuilt. */
    var overallRoot: TreeNode

    /** Encodes `message`. The message must hold two different characters:
        with fewer the tree is null and the code table cannot be built. The
        tree that results is complete, its inner nodes carry the sums of their
        children, each of the message's characters sits on one leaf and the
        root weighs the message length; the table is that tree's, and the
        bits are the message encoded with it. */
    constructor (message: string)
      requires TwoDistinct(message)
      ensures frequencies == Counts(message)
      ensures Complete(overallRoot) && Combined(overallRoot) && !IsLeaf(overallRoot)
      ensures DistinctLeaves(overallRoot)
      ensures multiset(LeafChars(overallRoot)) == multiset(frequencies.Keys)
      ensures LeavesFrom(overallRoot, frequencies)
      ensures overallRoot.frequency == |message|
      ensures codes == CodesOf(overallRoot, "")
      ensures bits == Encode(codes, message)
    {
      codes := map[];
      frequencies := map[];
      overallRoot := Nil;
      bits := [];
      new;
      TwoDistinctCounts(message);
      TotalCounts(message);
      MergeEmpty(Counts(message));
      CountFrequency(message);
      overallRoot := BuildTree();
      CreateCodeMap();
      EmptyUnion(CodesOf(overallRoot, ""));
      bits := CreateStringBits(message);
    }

    /** `countFrequency`: adds the occurrences of each character of
        `message` to the table. */
    method CountFrequency(message: string)
      modifies this
      ensures frequencies == Merge(old(frequencies), Counts(message))
      ensures bits == old(bits) && codes == old(codes) && overallRoot == old(overallRoot)
    {
      var i := 0;
      while i < |message|
        invariant 0 <= i <= |message|
        invariant frequencies == Tally(old(frequencies), message[..i])
        invariant bits == old(bits) && codes == old(codes) && overallRoot == old(overallRoot)
      {
        var currentChar := message[i];
        if currentChar in frequencies {
          var frequency := frequencies[currentChar];
          frequency := frequency + 1;
          frequencies := frequencies[currentChar := frequency];
        } else {
          frequencies := frequencies[currentChar := 1];
        }
        assert message[..i + 1][..i] == message[..i];
        i := i + 1;
      }
      assert message[..i] == message;
      TallyMerges(old(frequencies), message);
    }

    /** `buildTree`: one leaf per counted character goes into the queue;
        then the two least frequent nodes are repeatedly taken out and put
        back joined under a new inner node, until one node is left. The
        result is null when fewer than two characters were counted (no node
        is ever joined); otherwise it is a complete tree whose leaves are
        the counted characters, each exactly once and with its count, and
        whose inner nodes carry the sums of their children. */
    method BuildTree() returns (root: TreeNode)
      ensures root == Nil <==> |frequencies| < 2
      ensures root != Nil ==> Complete(root) && Combined(root) && !IsLeaf(root)
      ensures root != Nil ==> multiset(LeafChars(root)) == multiset(frequencies.Keys)
      ensures root != Nil ==> DistinctLeaves(root)
      ensures root != Nil ==> LeavesFrom(root, frequencies)
      ensures root != Nil ==> root.frequency == Total(frequencies)
    {
      var queue: seq<TreeNode> := [];
      var keys := frequencies.Keys;
      ghost var done: seq<char> := [];
      while keys != {}
        invariant Filling(queue, keys, done, frequencies)
        decreases keys
      {
        var currentChar :| currentChar in keys;
        FillStep(queue, keys, done, frequencies, currentChar);
        queue := queue + [Leaf(currentChar, frequencies[currentChar])];
        keys := keys - {currentChar};
        done := done + [currentChar];
      }
      FillDone(queue, done, frequencies);
      var combinedFrequency := Nil;
      while queue != []
        invariant Joining(queue, combinedFrequency, frequencies)
        decreases |queue|
      {
        var firstNode, rest := PollMin(queue);
        if rest != [] {
          var secondNode, rest' := PollMin(rest);
          JoinStep(queue, combinedFrequency, firstNode, rest, secondNode, rest', frequencies);
          combinedFrequency := Internal(firstNode.frequency + secondNode.frequency, firstNode, secondNode);
          queue := rest' + [combinedFrequency];
        } else {
          LastStep(queue, combinedFrequency, firstNode, frequencies);
          queue := rest;
        }
      }
      root := combinedFrequency;
      if root != Nil {
        KeyLeavesDistinct(root, frequencies.Keys);
      }
    }

    /** `createCodeMap()`: enters the code of every leaf of the tree. */
    method CreateCodeMap()
      requires Complete(overallRoot)
      modifies this
      ensures bits == old(bits) && frequencies == old(frequencies) && overallRoot == old(overallRoot)
      ensures codes == old(codes) + CodesOf(overallRoot, "")
    {
      CreateCodeMapFrom(overallRoot, "");
    }

    /** `createCodeMap(root, code)`: enters, for each leaf below `root`, the
        path to it written after `code`. */
    method CreateCodeMapFrom(root: TreeNode, code: string)
      requires Complete(root)
      modifies this
      ensures codes == old(codes) + CodesOf(root, code)
      ensures bits == old(bits) && frequencies == old(frequencies) && overallRoot == old(overallRoot)
      decreases root
    {
      if root.left == Nil && root.right == Nil {
        codes := codes[root.charValue := code];
      } else {
        ghost var before := codes;
        CreateCodeMapFrom(root.left, code + "0");
        CreateCodeMapFrom(root.right, code + "1");
        UnionAssoc(before, CodesOf(root.left, code + "0"), CodesOf(root.right, code + "1"));
      }
    }

    /** `createStringBits`: the message encoded with the current table. */
    method CreateStringBits(message: string) returns (s: string)
      ensures s == Encode(codes, message)
    {
      s := [];
      var i := 0;
      while i < |message|
        invariant 0 <= i <= |message|
        invariant s == Encode(codes, message[..i])
      {
        EncodeSnoc(codes, message[..i], message[i]);
        assert message[..i + 1] == message[..i] + [message[i]];
        s := s + (if message[i] in codes then codes[message[i]] else "null");
        i := i + 1;
      }
      assert message[..i] == message;
    }

    /** `decode`: throws the tree away, rebuilds it from `codes` and reads
        `bits` with it. The reading only returns when `bits` is empty, the
        table is empty, or the rebuilt root has both children, which is
        exactly when some code starts with '0' and some with another
        character. */
    method Decode(bits: string, codes: map<char, string>) returns (text: string, ghost order: seq<char>)
      requires bits == [] || codes == map[] || CodesSplit(codes)
      modifies this
      ensures Enumerates(order, codes.Keys)
      ensures overallRoot == InsertAll(codes, order, Nil)
      ensures overallRoot.Nil? || bits == [] || Branching(overallRoot)
      ensures text == Text(overallRoot, bits, 0)
      ensures this.bits == old(this.bits) && this.codes == old(this.codes) && frequencies == old(frequencies)
    {
      overallRoot := Nil;
      order := ReconstructTree(codes);
      InsertAllChildren(codes, order, Nil);
      text := CreateText(bits);
    }

    /** `reconstructTree(codes)`: inserts the code of every key, in the key
        set's iteration order (`order`), into the current tree. */
    method ReconstructTree(codes: map<char, string>) returns (ghost order: seq<char>)
      modifies this
      ensures Enumerates(order, codes.Keys)
      ensures overallRoot == InsertAll(codes, order, old(overallRoot))
      ensures this.bits == old(this.bits) && this.codes == old(this.codes) && frequencies == old(frequencies)
    {
      order := [];
      var keys := codes.Keys;
      while keys != {}
        invariant keys <= codes.Keys
        invariant NoDup(order)
        invariant forall c :: c in order <==> c in codes.Keys - keys
        invariant overallRoot == InsertAll(codes, order, old(overallRoot))
        invariant this.bits == old(this.bits) && this.codes == old(this.codes) && frequencies == old(frequencies)
        decreases keys
      {
        var currentChar :| currentChar in keys;
        var code := codes[currentChar];
        overallRoot := ReconstructPath(currentChar, code, overallRoot);
        assert currentChar !in order;
        assert (order + [currentChar])[..|order|] == order;
        order := order + [currentChar];
        keys := keys - {currentChar};
      }
    }

    /** `createText`: from the root, follow the bits to a node that lacks a
        child (or to the end of the bits), append that node's character, and
        start again from the root, until the bits are used up. */
    method CreateText(bits: string) returns (text: string)
      requires overallRoot.Nil? || bits == [] || Branching(overallRoot)
      ensures text == Text(overallRoot, bits, 0)
    {
      text := [];
      var index := 0;
      var root := Nil;
      while index < |bits| && overallRoot != Nil
        invariant 0 <= index <= |bits|
        invariant text + Text(overallRoot, bits, index) == Text(overallRoot, bits, 0)
        decreases |bits| - index
      {
        root := overallRoot;
        ghost var start := index;
        while index < |bits| && root.left != Nil && root.right != Nil
          invariant start <= index <= |bits|
          invariant root.TreeNode?
          invariant Descend(root, bits, index) == Descend(overallRoot, bits, start)
          invariant index == start ==> root == overallRoot
          decreases |bits| - index
        {
          if bits[index] == '0' {
            root := root.left;
          } else if bits[index] == '1' {
            root := root.right;
          }
          index := index + 1;
        }
        text := text + [root.charValue];
      }
    }
  }

  /** What the driver program does with a message: encode it, then decode
      the bits with the code table. The message comes back unchanged. */
  method RoundTrip(message: string) returns (decoded: string)
    requires TwoDistinct(message)
    ensures decoded == message
  {
    var tree := new CodingTree(message);
    ghost var built := tree.overallRoot;
    CodeTableSplits(built);
    ghost var order;
    decoded, order := tree.Decode(tree.bits, tree.codes);
    ReconstructsSkeleton(built, order);
    TableCoversMessage(built, message);
    EncodeDecode(built, message);
  }
}
