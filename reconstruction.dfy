/** Rebuilding a tree from a code table (CodingTree.reconstructTree): each
    code is walked from the root, nodes are created where the path does not
    exist yet, and the node at the end of the code takes the character. */
module Reconstruction {
  import opened TreeNodes
  import opened Frequencies
  import opened CodeTable

  /** `reconstructTree(currentChar, code, root)`: a missing node becomes
      `new TreeNode()`; an empty code stores the character in the node, a
      code starting with '0' continues in the left child and any other code
      in the right child. Nothing is checked: a character already stored is
      overwritten and an existing leaf is extended. */
  function ReconstructPath(c: char, code: string, root: TreeNode): (r: TreeNode)
    ensures r.TreeNode?
    ensures Walk(r, code).TreeNode? && Walk(r, code).charValue == c
    ensures (r.left != Nil) == ((root.TreeNode? && root.left != Nil) || (code != [] && code[0] == '0'))
    ensures (r.right != Nil) == ((root.TreeNode? && root.right != Nil) || (code != [] && code[0] != '0'))
    decreases code
  {
    var node := if root.Nil? then Empty() else root;
    if code == [] then node.(charValue := c)
    else if code[0] == '0' then node.(left := ReconstructPath(c, code[1..], node.left))
    else node.(right := ReconstructPath(c, code[1..], node.right))
  }

  /** The tree after the codes of `order` have been inserted, in that order,
      into `t`. */
  function InsertAll(codes: map<char, string>, order: seq<char>, t: TreeNode): TreeNode
    requires forall c :: c in order ==> c in codes
    decreases |order|
  {
    if order == [] then t
    else
      var c := order[|order| - 1];
      ReconstructPath(c, codes[c], InsertAll(codes, order[..|order| - 1], t))
  }

  predicate HasLeft(t: TreeNode) {
    t.TreeNode? && t.left != Nil
  }

  predicate HasRight(t: TreeNode) {
    t.TreeNode? && t.right != Nil
  }

  // ---------------------------------------------------------------------
  // What an insertion does to the paths of the tree

  /** Inserting a code leaves every path that neither is a prefix of the code
      nor has it as a prefix exactly as it was. */
  lemma {:induction false} InsertKeepsOtherPaths(d: char, q: string, t: TreeNode, p: string)
    requires IsBinary(p) && IsBinary(q) && !(p <= q) && !(q <= p)
    ensures Walk(ReconstructPath(d, q, t), p) == Walk(t, p)
    decreases q
  {
    var node := if t.Nil? then Empty() else t;
    assert p[0] == '0' || p[0] == '1';
    assert q[0] == '0' || q[0] == '1';
    if p[0] == q[0] {
      assert !(p[1..] <= q[1..]) && !(q[1..] <= p[1..]);
      var child := if q[0] == '0' then node.left else node.right;
      InsertKeepsOtherPaths(d, q[1..], child, p[1..]);
      assert IsBinary(p[1..]) && IsBinary(q[1..]);
      if t.Nil? {
        assert Walk(child, p[1..]) == Nil;
      }
    }
  }

  /** With no conflict detection, a code that ends at an existing node
      overwrites that node's character and keeps everything else. */
  lemma {:induction false} ReconstructOverwrites(c: char, p: string, t: TreeNode)
    requires Walk(t, p).TreeNode?
    ensures Walk(ReconstructPath(c, p, t), p) == Walk(t, p).(charValue := c)
    decreases p
  {
    if p != [] {
      ReconstructOverwrites(c, p[1..], if p[0] == '0' then t.left else t.right);
    }
  }

  /** A code that runs through an existing node keeps that node's character
      but gives it a child, so it is no longer a leaf. */
  lemma {:induction false} ReconstructExtendsThrough(d: char, p: string, rest: string, t: TreeNode)
    requires rest != [] && Walk(t, p).TreeNode?
    ensures Walk(ReconstructPath(d, p + rest, t), p).TreeNode?
    ensures Walk(ReconstructPath(d, p + rest, t), p).charValue == Walk(t, p).charValue
    ensures !IsLeaf(Walk(ReconstructPath(d, p + rest, t), p))
    decreases p
  {
    if p == [] {
      assert p + rest == rest;
    } else {
      assert (p + rest)[0] == p[0] && (p + rest)[1..] == p[1..] + rest;
      ReconstructExtendsThrough(d, p[1..], rest, if p[0] == '0' then t.left else t.right);
    }
  }

  /** After a prefix-free table of bit strings has been inserted, in any
      order and into any starting tree, each inserted code leads from the
      root to a node holding its character. */
  lemma {:induction false} ReconstructFindsCodes(codes: map<char, string>, order: seq<char>, t: TreeNode)
    requires PrefixFree(codes) && forall c :: c in codes ==> IsBinary(codes[c])
    requires NoDup(order) && forall c :: c in order ==> c in codes
    ensures forall c :: c in order ==>
              Walk(InsertAll(codes, order, t), codes[c]).TreeNode? &&
              Walk(InsertAll(codes, order, t), codes[c]).charValue == c
    decreases |order|
  {
    if order != [] {
      var init, d := order[..|order| - 1], order[|order| - 1];
      ReconstructFindsCodes(codes, init, t);
      var before := InsertAll(codes, init, t);
      forall c | c in order
        ensures Walk(InsertAll(codes, order, t), codes[c]).TreeNode?
        ensures Walk(InsertAll(codes, order, t), codes[c]).charValue == c
      {
        if c != d {
          assert c in init by {
            var i :| 0 <= i < |order| && order[i] == c;
            assert i < |order| - 1;
            assert init[i] == c;
          }
          InsertKeepsOtherPaths(d, codes[d], before, codes[c]);
        }
      }
    }
  }

  /** Which children the root of the rebuilt tree has: a child appears as
      soon as one inserted code starts on its side, and none disappears. */
  lemma {:induction false} InsertAllChildren(codes: map<char, string>, order: seq<char>, t: TreeNode)
    requires forall c :: c in order ==> c in codes
    ensures InsertAll(codes, order, t).TreeNode? == (t.TreeNode? || order != [])
    ensures HasLeft(InsertAll(codes, order, t)) ==
              (HasLeft(t) || exists c :: c in order && codes[c] != [] && codes[c][0] == '0')
    ensures HasRight(InsertAll(codes, order, t)) ==
              (HasRight(t) || exists c :: c in order && codes[c] != [] && codes[c][0] != '0')
    decreases |order|
  {
    if order != [] {
      var init, d := order[..|order| - 1], order[|order| - 1];
      InsertAllChildren(codes, init, t);
      assert forall c :: c in order <==> c in init || c == d;
    }
  }

  // ---------------------------------------------------------------------
  // Rebuilding the table of a coding tree gives back the tree's shape

  /** The part of `t` that leads to leaves whose characters are in `s`, with
      every frequency 0 and every inner node labelled '\0': the tree that
      the insertion of those characters' codes has built so far. */
  function Prune(t: TreeNode, s: set<char>): TreeNode
    decreases t
  {
    if t.Nil? then Nil
    else if IsLeaf(t) then (if t.charValue in s then TreeNode(t.charValue, 0, Nil, Nil) else Nil)
    else
      var l, r := Prune(t.left, s), Prune(t.right, s);
      if l.Nil? && r.Nil? then Nil else TreeNode('\0', 0, l, r)
  }

  /** Characters that label no leaf do not change the pruned tree. */
  lemma {:induction false} PruneIgnores(t: TreeNode, s: set<char>, c: char)
    requires c !in LeafChars(t)
    ensures Prune(t, s + {c}) == Prune(t, s)
    decreases t
  {
    if t.TreeNode? && !IsLeaf(t) {
      PruneIgnores(t.left, s, c);
      PruneIgnores(t.right, s, c);
    }
  }

  /** Pruned to all of its leaf characters, a tree built by the Huffman
      construction is its own skeleton. */
  lemma {:induction false} PruneAll(t: TreeNode, s: set<char>)
    requires Complete(t) && Combined(t)
    requires forall c :: c in LeafChars(t) ==> c in s
    ensures Prune(t, s) == Skeleton(t)
    decreases t
  {
    if !IsLeaf(t) {
      PruneAll(t.left, s);
      PruneAll(t.right, s);
    }
  }

  /** Inserting the code of a leaf character not yet inserted extends the
      pruned tree by exactly that leaf's path. */
  lemma {:induction false} InsertPrune(t: TreeNode, s: set<char>, c: char, p: string)
    requires Complete(t) && DistinctLeaves(t)
    requires c !in s
    requires IsBinary(p) && IsLeaf(Walk(t, p)) && Walk(t, p).charValue == c
    ensures ReconstructPath(c, p, Prune(t, s)) == Prune(t, s + {c})
    decreases p
  {
    if p == [] {
      assert IsLeaf(t) && t.charValue == c;
    } else {
      if IsLeaf(t) {
        WalkPastLeaf(t, p);
        assert false;
      }
      DistinctChildren(t);
      var l, r := Prune(t.left, s), Prune(t.right, s);
      var node := TreeNode('\0', 0, l, r);
      assert (if Prune(t, s).Nil? then Empty() else Prune(t, s)) == node;
      var inside := if p[0] == '0' then t.left else t.right;
      assert Walk(t, p) == Walk(inside, p[1..]);
      WalkLeafIn(inside, p[1..]);
      InsertPrune(inside, s, c, p[1..]);
      if p[0] == '0' {
        PruneIgnores(t.right, s, c);
        assert ReconstructPath(c, p, Prune(t, s)) == node.(left := Prune(t.left, s + {c}));
      } else {
        PruneIgnores(t.left, s, c);
        assert ReconstructPath(c, p, Prune(t, s)) == node.(right := Prune(t.right, s + {c}));
      }
    }
  }

  /** Inserting the codes of distinct leaf characters, in any order, builds
      the tree pruned to those characters. */
  lemma {:induction false} InsertAllPrune(t: TreeNode, codes: map<char, string>, order: seq<char>)
    requires Complete(t) && DistinctLeaves(t) && Decodes(t, codes)
    requires NoDup(order) && forall c :: c in order ==> c in codes
    ensures InsertAll(codes, order, Nil) == Prune(t, set c | c in order)
    decreases |order|
  {
    if order == [] {
      assert (set c | c in order) == {};
      PruneNone(t);
    } else {
      var init, d := order[..|order| - 1], order[|order| - 1];
      InsertAllPrune(t, codes, init);
      assert d !in init;
      InsertPrune(t, (set c | c in init), d, codes[d]);
      assert (set c | c in order) == (set c | c in init) + {d} by {
        assert order == init + [d];
      }
    }
  }

  /** Pruned to nothing, a tree is empty. */
  lemma {:induction false} PruneNone(t: TreeNode)
    ensures Prune(t, {}) == Nil
    decreases t
  {
    if t.TreeNode? && !IsLeaf(t) {
      PruneNone(t.left);
      PruneNone(t.right);
    }
  }

  /** Rebuilding from the code table of a Huffman tree, in whatever order
      the table's keys come, yields that tree's skeleton: the same shape and
      characters, with every frequency 0. */
  lemma ReconstructsSkeleton(t: TreeNode, order: seq<char>)
    requires Complete(t) && Combined(t) && DistinctLeaves(t)
    requires Enumerates(order, CodesOf(t, "").Keys)
    ensures InsertAll(CodesOf(t, ""), order, Nil) == Skeleton(t)
  {
    CodesOfDecodes(t);
    InsertAllPrune(t, CodesOf(t, ""), order);
    PruneAll(t, set c | c in order);
  }
}
