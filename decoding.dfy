/** Turning a string of bits back into text by walking the coding tree
    (CodingTree.createText), and the round trip with the encoder. */
module Decoding {
  import opened TreeNodes
  import opened CodeTable

  /** The inner loop of createText: starting at `node` and index `i`, while
      bits remain and the node has both children, a '0' moves left, a '1'
      moves right and any other character stays put; each step consumes one
      character. Returns the node it stops at and the next index. */
  function Descend(node: TreeNode, bits: string, i: nat): (r: (TreeNode, nat))
    requires node.TreeNode? && i <= |bits|
    ensures r.0.TreeNode? && i <= r.1 <= |bits|
    ensures r.1 == |bits| || !Branching(r.0)
    ensures Branching(node) && i < |bits| ==> r.1 > i
    decreases |bits| - i
  {
    if i < |bits| && Branching(node) then
      var next := if bits[i] == '0' then node.left else if bits[i] == '1' then node.right else node;
      Descend(next, bits, i + 1)
    else (node, i)
  }

  /** The text createText builds from `bits[i..]`: from the root, descend,
      append the character of the node reached, and start again from the
      root until the bits run out. The Java loop only returns when the root
      has both children (or there is no root, or no bits left); otherwise it
      appends the root's character forever without consuming a bit. */
  function Text(root: TreeNode, bits: string, i: nat): (r: string)
    requires i <= |bits|
    requires root.Nil? || i == |bits| || Branching(root)
    ensures |r| <= |bits| - i
    ensures root.Nil? || i == |bits| ==> r == []
    decreases |bits| - i
  {
    if i < |bits| && root.TreeNode? then
      var (node, j) := Descend(root, bits, i);
      [node.charValue] + Text(root, bits, j)
    else []
  }

  // ---------------------------------------------------------------------
  // Edge behaviour

  /** A character other than '0' and '1' costs one step and moves nowhere. */
  lemma DescendSkipsOtherBits(node: TreeNode, bits: string, i: nat)
    requires Branching(node) && i < |bits| && bits[i] != '0' && bits[i] != '1'
    ensures Descend(node, bits, i) == Descend(node, bits, i + 1)
  {
  }

  /** Bits that end in the middle of a code do not fail: after the
      characters of the complete codes, the inner node reached is emitted,
      and for a Huffman tree its character is '\0'. */
  lemma TruncatedPathEmitsInnerNode(t: TreeNode, message: string, p: string)
    requires Complete(t) && Combined(t) && !IsLeaf(t) && IsBinary(p) && p != []
    requires Walk(t, p).TreeNode? && !IsLeaf(Walk(t, p))
    requires forall c :: c in message ==> c in LeafChars(t)
    ensures Text(t, Encode(CodesOf(t, ""), message) + p, 0) == message + ['\0']
  {
    var bits := Encode(CodesOf(t, ""), message) + p;
    CodesOfDecodes(t);
    var j := |bits| - |p|;
    assert bits[0..j] == Encode(CodesOf(t, ""), message) && bits[j..] == p;
    assert forall k :: 0 <= k < |message| ==> message[k] in message;
    TextOfEncode(t, CodesOf(t, ""), message, bits, 0, j);
    TruncatedEnd(t, bits, j, p);
  }

  /** Bits that are only a partial code emit the inner node reached. */
  lemma TruncatedEnd(t: TreeNode, bits: string, i: nat, p: string)
    requires Complete(t) && Combined(t) && !IsLeaf(t)
    requires IsBinary(p) && p != [] && Walk(t, p).TreeNode? && !IsLeaf(Walk(t, p))
    requires i <= |bits| && bits[i..] == p
    ensures Text(t, bits, i) == ['\0']
  {
    assert i + |p| == |bits| && bits[i..i + |p|] == p;
    DescendAlong(t, bits, i, p);
    WalkCombined(t, p);
  }

  /** Nodes along a path of a Huffman tree stay Huffman trees. */
  lemma {:induction false} WalkCombined(t: TreeNode, p: string)
    requires Complete(t) && Combined(t) && Walk(t, p).TreeNode?
    ensures Complete(Walk(t, p)) && Combined(Walk(t, p))
    ensures !IsLeaf(Walk(t, p)) ==> Walk(t, p).charValue == '\0'
    decreases p
  {
    if p != [] && !IsLeaf(t) {
      WalkCombined(if p[0] == '0' then t.left else t.right, p[1..]);
    }
  }

  /** Reading the bit string `p` from index `i` in a complete tree follows
      `p` to its end, provided no leaf comes before the end. */
  lemma {:induction false} DescendAlong(t: TreeNode, bits: string, i: nat, p: string)
    requires Complete(t) && IsBinary(p) && Walk(t, p).TreeNode?
    requires i + |p| <= |bits| && bits[i..i + |p|] == p
    requires i + |p| == |bits| || IsLeaf(Walk(t, p))
    ensures Descend(t, bits, i) == (Walk(t, p), i + |p|)
    decreases p
  {
    if p == [] {
      assert Walk(t, p) == t;
    } else {
      if IsLeaf(t) {
        WalkPastLeaf(t, p);
        assert false;
      }
      assert bits[i] == p[0] && bits[i + 1..i + 1 + |p[1..]|] == p[1..];
      DescendAlong(if p[0] == '0' then t.left else t.right, bits, i + 1, p[1..]);
    }
  }

  // ---------------------------------------------------------------------
  // Round trip

  /** One round of the outer loop: when the bits from `i` on start with the
      code of a leaf, that leaf's character is emitted and decoding resumes
      right after the code. */
  lemma TextStep(t: TreeNode, bits: string, i: nat, p: string)
    requires Complete(t) && !IsLeaf(t) && IsBinary(p) && p != [] && IsLeaf(Walk(t, p))
    requires i + |p| <= |bits| && bits[i..i + |p|] == p
    ensures Text(t, bits, i) == [Walk(t, p).charValue] + Text(t, bits, i + |p|)
  {
    DescendAlong(t, bits, i, p);
  }

  /** Splitting the tail of a string that is a concatenation. */
  lemma SliceSplit(bits: string, i: nat, p: string, e: string)
    requires i <= |bits| && bits[i..] == p + e
    ensures i + |p| <= |bits| && bits[i..i + |p|] == p && bits[i + |p|..] == e
  {
    assert bits[i..i + |p|] == bits[i..][..|p|];
    assert bits[i + |p|..] == bits[i..][|p|..];
  }

  /** Decoding bits that hold, from `i` to `j`, the encoding of a message
      with a table that decodes in a tree with at least two leaves gives the
      message, followed by whatever the bits from `j` on decode to. */
  lemma {:induction false} TextOfEncode(t: TreeNode, codes: map<char, string>, message: string,
                                        bits: string, i: nat, j: nat)
    requires Complete(t) && !IsLeaf(t) && Decodes(t, codes)
    requires forall k :: 0 <= k < |message| ==> message[k] in codes
    requires i <= j <= |bits| && bits[i..j] == Encode(codes, message)
    ensures Text(t, bits, i) == message + Text(t, bits, j)
    decreases message
  {
    if message == [] {
      assert i == j;
    } else {
      var p := codes[message[0]];
      EncodeStep(t, codes, message, bits, i, j);
      TextOfEncode(t, codes, message[1..], bits, i + |p|, j);
      PrependFirst(message, Text(t, bits, i), Text(t, bits, i + |p|), Text(t, bits, j));
    }
  }

  /** Emitting the first character of a message, then the rest of it, then
      `z`, emits the message, then `z`. */
  lemma PrependFirst(message: string, x: string, y: string, z: string)
    requires message != [] && x == [message[0]] + y && y == message[1..] + z
    ensures x == message + z
  {
    assert message == [message[0]] + message[1..];
  }

  /** The first round of decoding an encoded message emits its first
      character and leaves the encoding of the rest. */
  lemma EncodeStep(t: TreeNode, codes: map<char, string>, message: string, bits: string, i: nat, j: nat)
    requires Complete(t) && !IsLeaf(t) && Decodes(t, codes)
    requires message != [] && message[0] in codes
    requires i <= j <= |bits| && bits[i..j] == Encode(codes, message)
    ensures i + |codes[message[0]]| <= j
    ensures bits[i + |codes[message[0]]|..j] == Encode(codes, message[1..])
    ensures Text(t, bits, i) == [message[0]] + Text(t, bits, i + |codes[message[0]]|)
  {
    var p := codes[message[0]];
    assert Walk(t, []) == t;
    assert IsBinary(p) && p != [] && IsLeaf(Walk(t, p)) && Walk(t, p).charValue == message[0];
    assert Encode(codes, message) == p + Encode(codes, message[1..]);
    SliceSplit(bits[..j], i, p, Encode(codes, message[1..]));
    TextStep(t, bits, i, p);
  }

  /** Walking the skeleton of a tree visits the skeletons of the same nodes. */
  lemma {:induction false} DescendSkeleton(n: TreeNode, bits: string, i: nat)
    requires n.TreeNode? && i <= |bits|
    ensures Descend(Skeleton(n), bits, i) == (Skeleton(Descend(n, bits, i).0), Descend(n, bits, i).1)
    decreases |bits| - i
  {
    if i < |bits| && Branching(n) {
      DescendSkeleton(if bits[i] == '0' then n.left else if bits[i] == '1' then n.right else n, bits, i + 1);
    }
  }

  /** Decoding with the original tree and with its skeleton (the tree
      rebuilt from its code table) gives the same text for all bits. */
  lemma {:induction false} TextSkeleton(t: TreeNode, bits: string, i: nat)
    requires i <= |bits|
    requires t.Nil? || i == |bits| || Branching(t)
    ensures Text(Skeleton(t), bits, i) == Text(t, bits, i)
    decreases |bits| - i
  {
    if i < |bits| && t.TreeNode? {
      DescendSkeleton(t, bits, i);
      TextSkeleton(t, bits, Descend(t, bits, i).1);
    }
  }

  /** Round trip over a coding tree: encoding a message with the tree's own
      table and decoding the bits, with the tree or with the skeleton
      rebuilt from the table, gives the message back. */
  lemma EncodeDecode(t: TreeNode, message: string)
    requires Complete(t) && !IsLeaf(t)
    requires forall c :: c in message ==> c in LeafChars(t)
    ensures Text(t, Encode(CodesOf(t, ""), message), 0) == message
    ensures Text(Skeleton(t), Encode(CodesOf(t, ""), message), 0) == message
  {
    var bits := Encode(CodesOf(t, ""), message);
    CodesOfDecodes(t);
    assert forall k :: 0 <= k < |message| ==> message[k] in message;
    assert bits[0..|bits|] == bits;
    TextOfEncode(t, CodesOf(t, ""), message, bits, 0, |bits|);
    TextSkeleton(t, bits, 0);
  }
}
