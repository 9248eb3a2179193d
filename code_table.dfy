/** The code table derived from a coding tree (one bit string per leaf
    character) and the encoding of a message with such a table. */
module CodeTable {
  import opened TreeNodes
  import opened Frequencies

  /** A string of '0' and '1' characters only. */
  predicate IsBinary(s: string) {
    forall i :: 0 <= i < |s| ==> s[i] == '0' || s[i] == '1'
  }

  /** The codes that `createCodeMap(root, code)` puts into the table: each
      leaf's path below `t`, written after `code`, with '0' for left and '1'
      for right. The right subtree's entries are put last, so they win when
      a character labels two leaves. */
  function CodesOf(t: TreeNode, code: string): (m: map<char, string>)
    requires Complete(t)
    ensures forall c :: c in m <==> c in LeafChars(t)
    decreases t
  {
    if IsLeaf(t) then map[t.charValue := code]
    else CodesOf(t.left, code + "0") + CodesOf(t.right, code + "1")
  }

  /** Each code is a bit string leading from the root of `t` to a leaf that
      holds the code's own character. */
  predicate Decodes(t: TreeNode, codes: map<char, string>) {
    forall c :: c in codes ==>
      IsBinary(codes[c]) && IsLeaf(Walk(t, codes[c])) && Walk(t, codes[c]).charValue == c
  }

  /** No character's code is a prefix of (or equal to) another character's code. */
  predicate PrefixFree(codes: map<char, string>) {
    forall c, d :: c in codes && d in codes && c != d ==> !(codes[c] <= codes[d])
  }

  /** The code of `c` starts with `code` and continues with a bit string that
      leads from `t` to a leaf holding `c`; it is strictly longer than `code`
      when `t` is not a leaf. */
  lemma {:induction false} CodePath(t: TreeNode, code: string, c: char)
    requires Complete(t) && c in CodesOf(t, code)
    ensures code <= CodesOf(t, code)[c]
    ensures IsBinary(CodesOf(t, code)[c][|code|..])
    ensures IsLeaf(Walk(t, CodesOf(t, code)[c][|code|..]))
    ensures Walk(t, CodesOf(t, code)[c][|code|..]).charValue == c
    ensures !IsLeaf(t) ==> |CodesOf(t, code)[c]| > |code|
    decreases t
  {
    var s := CodesOf(t, code)[c];
    if IsLeaf(t) {
      assert s == code && s[|code|..] == [];
    } else {
      var r := CodesOf(t.right, code + "1");
      var bit := if c in r then "1" else "0";
      var child := if c in r then t.right else t.left;
      assert s == CodesOf(child, code + bit)[c];
      CodePath(child, code + bit, c);
      var rest := s[|code| + 1..];
      PrefixStep(code, bit, s);
      assert Walk(t, bit + rest) == Walk(child, rest) by {
        assert (bit + rest)[0] == bit[0] && (bit + rest)[1..] == rest;
      }
    }
  }

  /** A string that starts with `code + bit` continues after `code` with
      `bit` and then the rest. */
  lemma PrefixStep(code: string, bit: string, s: string)
    requires |bit| == 1 && code + bit <= s
    ensures code <= s && s[|code|..] == bit + s[|code| + 1..]
  {
    assert s[|code|] == (code + bit)[|code|] == bit[0];
  }

  /** The table of a complete tree decodes in that tree, and every code is
      non-empty unless the tree is a single leaf. */
  lemma CodesOfDecodes(t: TreeNode)
    requires Complete(t)
    ensures Decodes(t, CodesOf(t, ""))
    ensures !IsLeaf(t) ==> forall c :: c in CodesOf(t, "") ==> CodesOf(t, "")[c] != ""
  {
    forall c | c in CodesOf(t, "")
      ensures IsBinary(CodesOf(t, "")[c]) && IsLeaf(Walk(t, CodesOf(t, "")[c]))
      ensures Walk(t, CodesOf(t, "")[c]).charValue == c
      ensures !IsLeaf(t) ==> CodesOf(t, "")[c] != ""
    {
      CodePath(t, "", c);
      assert CodesOf(t, "")[c][|""|..] == CodesOf(t, "")[c];
    }
  }

  /** A table whose codes decode in some tree is prefix-free: a code that
      were a prefix of another would end at a leaf that the longer code must
      pass through. */
  lemma DecodesPrefixFree(t: TreeNode, codes: map<char, string>)
    requires Decodes(t, codes)
    ensures PrefixFree(codes)
  {
    forall c, d | c in codes && d in codes && c != d
      ensures !(codes[c] <= codes[d])
    {
      if codes[c] <= codes[d] {
        var rest := codes[d][|codes[c]|..];
        assert codes[d] == codes[c] + rest;
        WalkAppend(t, codes[c], rest);
        if rest == [] {
          assert false;
        } else {
          WalkPastLeaf(Walk(t, codes[c]), rest);
          assert false;
        }
      }
    }
  }

  /** The code table of a tree with at least two leaves: a non-empty bit
      string for every leaf character, no code a prefix of another. */
  lemma CodeTableSound(t: TreeNode)
    requires Complete(t) && !IsLeaf(t)
    ensures forall c :: c in CodesOf(t, "") <==> c in LeafChars(t)
    ensures forall c :: c in CodesOf(t, "") ==> CodesOf(t, "")[c] != [] && IsBinary(CodesOf(t, "")[c])
    ensures PrefixFree(CodesOf(t, ""))
    ensures Decodes(t, CodesOf(t, ""))
  {
    CodesOfDecodes(t);
    DecodesPrefixFree(t, CodesOf(t, ""));
  }

  /** Some code starts with '0' and some code starts with another character:
      the tree rebuilt from the table branches at its root. */
  predicate CodesSplit(codes: map<char, string>) {
    (exists c :: c in codes && codes[c] != [] && codes[c][0] == '0') &&
    (exists c :: c in codes && codes[c] != [] && codes[c][0] != '0')
  }

  /** The table of a tree whose root has two children and whose leaves are
      distinct splits: the left subtree's characters keep their '0' codes,
      and the right subtree's characters have '1' codes. */
  lemma CodeTableSplits(t: TreeNode)
    requires Complete(t) && !IsLeaf(t) && DistinctLeaves(t)
    ensures CodesSplit(CodesOf(t, ""))
    ensures exists c :: c in CodesOf(t, "") && CodesOf(t, "")[c] != [] && CodesOf(t, "")[c][0] == '1'
  {
    LeftCodeStartsWithZero(t);
    RightCodeStartsWithOne(t);
  }

  /** The first leaf of the left subtree has a code starting with '0'. */
  lemma LeftCodeStartsWithZero(t: TreeNode)
    requires Complete(t) && !IsLeaf(t) && DistinctLeaves(t)
    ensures exists c :: c in CodesOf(t, "") && CodesOf(t, "")[c] != [] && CodesOf(t, "")[c][0] == '0'
  {
    DistinctChildren(t);
    assert LeafChars(t.left) != [];
    var a := LeafChars(t.left)[0];
    assert "" + "0" == "0" && "" + "1" == "1";
    var l, r := CodesOf(t.left, "0"), CodesOf(t.right, "1");
    assert a in l && a !in r;
    CodePath(t.left, "0", a);
    assert CodesOf(t, "")[a] == l[a];
  }

  /** The first leaf of the right subtree has a code starting with '1'. */
  lemma RightCodeStartsWithOne(t: TreeNode)
    requires Complete(t) && !IsLeaf(t)
    ensures exists c :: c in CodesOf(t, "") && CodesOf(t, "")[c] != [] && CodesOf(t, "")[c][0] == '1'
  {
    assert Branching(t) && Complete(t.right);
    assert LeafChars(t.right) != [];
    var b := LeafChars(t.right)[0];
    assert "" + "0" == "0" && "" + "1" == "1";
    var r := CodesOf(t.right, "1");
    assert b in r;
    CodePath(t.right, "1", b);
    assert CodesOf(t, "")[b] == r[b];
  }

  // ---------------------------------------------------------------------
  // Encoding

  /** `codes.get(c)` appended to a StringBuilder: the code, or the four
      characters "null" when the table has no entry for `c`. */
  function Lookup(codes: map<char, string>, c: char): string {
    if c in codes then codes[c] else "null"
  }

  /** The bits of a message: the codes of its characters in message order. */
  function Encode(codes: map<char, string>, message: string): string {
    if message == [] then [] else Lookup(codes, message[0]) + Encode(codes, message[1..])
  }

  /** Encoding one more character appends that character's code. */
  lemma {:induction false} EncodeSnoc(codes: map<char, string>, message: string, c: char)
    ensures Encode(codes, message + [c]) == Encode(codes, message) + Lookup(codes, c)
    decreases |message|
  {
    if message == [] {
      assert message + [c] == [c];
      assert [c][1..] == [];
    } else {
      assert (message + [c])[0] == message[0];
      assert (message + [c])[1..] == message[1..] + [c];
      EncodeSnoc(codes, message[1..], c);
    }
  }

  /** Each character's count times the length of its code. */
  function Weighted(counts: map<char, int>, codes: map<char, string>): map<char, int> {
    map c | c in counts :: counts[c] * |Lookup(codes, c)|
  }

  /** One more occurrence of `c` adds the length of `c`'s code to the
      weighted total. */
  lemma WeightedBump(counts: map<char, int>, codes: map<char, string>, c: char)
    ensures Total(Weighted(counts[c := Get(counts, c) + 1], codes)) ==
            Total(Weighted(counts, codes)) + |Lookup(codes, c)|
  {
    var k, n := Get(counts, c), |Lookup(codes, c)|;
    var w := Weighted(counts, codes);
    assert (k + 1) * n == k * n + n;
    assert Weighted(counts[c := k + 1], codes) == w[c := Get(w, c) + n];
    TotalUpdate(w, c, Get(w, c) + n);
  }

  /** The encoded length is the sum over the message's distinct characters
      of count times code length. */
  lemma {:induction false} EncodeLength(codes: map<char, string>, message: string)
    ensures |Encode(codes, message)| == Total(Weighted(Counts(message), codes))
    decreases |message|
  {
    if message == [] {
      assert Weighted(Counts(message), codes) == map[];
    } else {
      var c, rest := message[0], message[1..];
      calc {
        |Encode(codes, message)|;
        |Lookup(codes, c)| + |Encode(codes, rest)|;
        { EncodeLength(codes, rest); }
        |Lookup(codes, c)| + Total(Weighted(Counts(rest), codes));
        { WeightedBump(Counts(rest), codes, c); }
        Total(Weighted(Counts(rest)[c := Get(Counts(rest), c) + 1], codes));
        { CountsCons(message); }
        Total(Weighted(Counts(message), codes));
      }
    }
  }
}
