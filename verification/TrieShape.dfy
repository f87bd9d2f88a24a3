/** The shape of a path-compressed trie is canonical: its node keys are the stored keys and
    the points where two of them part, so histories leave no trace in it. */
module TrieShape {
  import opened Bits
  import opened Options
  import opened PrefixSet

  function Meet(a: Bits, b: Bits): (m: Bits)
    ensures m <= a && m <= b
  {
    a[..Common(a, b)]
  }

  lemma MeetIsLongest(a: Bits, b: Bits, c: Bits)
    requires c <= a && c <= b
    ensures c <= Meet(a, b)
  {}

  ghost predicate MeetClosed(P: set<Bits>) {
    forall a, b :: a in P && b in P ==> Meet(a, b) in P
  }

  /** A trie whose glue nodes (those not in R) all branch two ways. */
  ghost predicate CompressedTrie(S: Shape, root: Option<Bits>, R: set<Bits>) {
    Trie(S, root) && R <= S.Keys && forall p :: p in S && p !in R ==> S[p].left.Some? && S[p].right.Some?
  }

  /** From a node above both a and b, down to where they part. */
  lemma {:induction false} MeetBelow(S: Shape, root: Option<Bits>, c: Bits, a: Bits, b: Bits)
    requires Trie(S, root) && c in S && a in S && b in S && c <= a && c <= b
    ensures Meet(a, b) in S
    decreases |a| - |c|
  {
    MeetIsLongest(a, b, c);
    PrefixCases(c, Meet(a, b));
    if c != Meet(a, b) {
      var s := a[|c|];
      assert NodeIs(S.Keys, c, S[c]);
      assert Below(c, s, a) && Below(c, s, b);
      var d := S[c].Child(s).value;
      assert IsChild(S.Keys, c, s, d);
      MeetBelow(S, root, d, a, b);
    }
  }

  lemma TrieIsMeetClosed(S: Shape, root: Option<Bits>)
    requires Trie(S, root)
    ensures MeetClosed(S.Keys)
  {
    forall a, b | a in S && b in S ensures Meet(a, b) in S {
      MeetBelow(S, root, root.value, a, b);
    }
  }

  ghost function Subtree(P: set<Bits>, p: Bits): set<Bits> {
    set q | q in P && p <= q
  }

  lemma SubtreeShrinks(P: set<Bits>, p: Bits, c: Bits)
    requires p in P && p < c
    ensures Subtree(P, c) < Subtree(P, p)
  {
    assert p in Subtree(P, p) && p !in Subtree(P, c);
  }

  /** Below every node some key of R is stored. */
  lemma {:induction false} StoredBelow(S: Shape, root: Option<Bits>, R: set<Bits>, p: Bits) returns (r: Bits)
    requires CompressedTrie(S, root, R) && p in S
    ensures r in R && p <= r
    decreases Subtree(S.Keys, p)
  {
    if p in R {
      r := p;
    } else {
      assert NodeIs(S.Keys, p, S[p]);
      var c := S[p].left.value;
      SubtreeShrinks(S.Keys, p, c);
      r := StoredBelow(S, root, R, c);
    }
  }

  /** The node keys are exactly the meets of stored keys (each key is its own meet with itself). */
  lemma NodesAreMeets(S: Shape, root: Option<Bits>, R: set<Bits>, p: Bits)
    requires CompressedTrie(S, root, R)
    ensures p in S <==> exists a, b :: a in R && b in R && Meet(a, b) == p
  {
    TrieIsMeetClosed(S, root);
    if p in S {
      if p in R {
        CommonUnique(p, p, |p|);
        assert Meet(p, p) == p;
      } else {
        assert NodeIs(S.Keys, p, S[p]);
        var a := StoredBelow(S, root, R, S[p].left.value);
        var b := StoredBelow(S, root, R, S[p].right.value);
        CommonUnique(a, b, |p|);
        assert Meet(a, b) == p;
      }
    }
  }

  lemma LinksAreDetermined(P: set<Bits>, p: Bits, l: Links, l': Links)
    requires NodeIs(P, p, l) && NodeIs(P, p, l')
    ensures l == l'
  {
    forall b, c, c' | ChildIs(P, p, b, c) && ChildIs(P, p, b, c') ensures c == c' {
      if c.Some? && c'.Some? { ChildUnique(P, p, b, c.value, c'.value); }
    }
    if l.parent.Some? && l'.parent.Some? { ParentUnique(P, p, l.parent.value, l'.parent.value); }
  }

  /** Two tries that store the same keys are the same trie. */
  lemma Canonical(S: Shape, root: Option<Bits>, S': Shape, root': Option<Bits>, R: set<Bits>)
    requires CompressedTrie(S, root, R) && CompressedTrie(S', root', R)
    ensures S == S' && root == root'
  {
    forall p ensures p in S <==> p in S' {
      NodesAreMeets(S, root, R, p);
      NodesAreMeets(S', root', R, p);
    }
    assert S.Keys == S'.Keys;
    forall p | p in S ensures S[p] == S'[p] {
      assert NodeIs(S.Keys, p, S[p]) && NodeIs(S'.Keys, p, S'[p]);
      LinksAreDetermined(S.Keys, p, S[p], S'[p]);
    }
    if root.Some? && root'.Some? { PrefixCases(root.value, root'.value); }
  }

  // ----- the number of nodes -----

  ghost function ChildTree(P: set<Bits>, c: Option<Bits>): set<Bits> {
    if c.Some? then Subtree(P, c.value) else {}
  }

  lemma SubtreeSplits(P: set<Bits>, p: Bits, l: Links)
    requires p in P && NodeIs(P, p, l)
    ensures Subtree(P, p) == {p} + ChildTree(P, l.left) + ChildTree(P, l.right)
    ensures p !in ChildTree(P, l.left) && p !in ChildTree(P, l.right) && ChildTree(P, l.left) !! ChildTree(P, l.right)
  {
    forall q ensures q in Subtree(P, p) <==> q == p || q in ChildTree(P, l.left) || q in ChildTree(P, l.right) {
      if q in Subtree(P, p) && q != p {
        PrefixCases(p, q);
        assert Below(p, false, q) || Below(p, true, q);
      }
    }
  }

  lemma Sizes<T>(x: T, A: set<T>, B: set<T>, R: set<T>)
    requires x !in A && x !in B && A !! B
    ensures |{x} + A + B| == 1 + |A| + |B|
    ensures |({x} + A + B) * R| == (if x in R then 1 else 0) + |A * R| + |B * R|
  {
    var X := if x in R then {x} else {};
    assert ({x} + A + B) * R == X + (A * R) + (B * R);
  }

  /** A subtree has fewer than twice as many nodes as stored keys. */
  lemma {:induction false} CountSubtree(S: Shape, root: Option<Bits>, R: set<Bits>, p: Bits)
    requires CompressedTrie(S, root, R) && p in S
    ensures |Subtree(S.Keys, p)| <= 2 * |Subtree(S.Keys, p) * R| - 1
    decreases Subtree(S.Keys, p)
  {
    var P, l := S.Keys, S[p];
    assert NodeIs(P, p, l);
    SubtreeSplits(P, p, l);
    Sizes(p, ChildTree(P, l.left), ChildTree(P, l.right), R);
    if l.left.Some? { SubtreeShrinks(P, p, l.left.value); CountSubtree(S, root, R, l.left.value); }
    if l.right.Some? { SubtreeShrinks(P, p, l.right.value); CountSubtree(S, root, R, l.right.value); }
  }

  /** A non-empty trie has at most 2 * |R| - 1 nodes. */
  lemma CountNodes(S: Shape, root: Option<Bits>, R: set<Bits>)
    requires CompressedTrie(S, root, R) && S != map[]
    ensures |R| <= |S| <= 2 * |R| - 1
  {
    assert root.Some?;
    CountSubtree(S, root, R, root.value);
    assert Subtree(S.Keys, root.value) == S.Keys;
    assert S.Keys * R == R;
    assert |S| == |S.Keys|;
    assert R + (S.Keys - R) == S.Keys;
  }

  // ----- when insertion needs a new branching point -----

  ghost predicate NeedsFork(P: set<Bits>, k: Bits) {
    exists q :: q in P && Meet(k, q) !in P + {k}
  }

  lemma BelowNeedsNoFork(S: Shape, root: Option<Bits>, p: Bits, k: Bits)
    requires Trie(S, root) && FitsBelow(S.Keys, p, k)
    ensures !NeedsFork(S.Keys, k)
  {
    TrieIsMeetClosed(S, root);
    forall q | q in S ensures Meet(k, q) in S.Keys + {k} {
      if p <= q {
        PrefixCases(p, q);
        assert !Below(p, k[|p|], q);
        CommonUnique(k, q, |p|);
        assert Meet(k, q) == p;
      } else {
        CommonUnique(k, q, Common(p, q));
        assert Meet(k, q) == Meet(p, q);
      }
    }
  }

  lemma AboveNeedsNoFork(S: Shape, root: Option<Bits>, p: Bits, k: Bits)
    requires Trie(S, root) && FitsAbove(S.Keys, p, k)
    ensures !NeedsFork(S.Keys, k)
  {
    TrieIsMeetClosed(S, root);
    forall q | q in S ensures Meet(k, q) in S.Keys + {k} {
      if k <= q {
        CommonUnique(k, q, |k|);
        assert Meet(k, q) == k;
      } else {
        CommonUnique(k, q, Common(p, q));
        assert Meet(k, q) == Meet(p, q);
      }
    }
  }

  lemma ForkIsNeeded(P: set<Bits>, q: Bits, k: Bits, d: nat)
    requires d < |k| && d < |q| && k[..d] == q[..d] && k[d] != q[d] && FitsAbove(P, q, k[..d])
    ensures NeedsFork(P, k)
  {
    assert forall i :: 0 <= i < d ==> k[i] == k[..d][i] == q[..d][i] == q[i];
    CommonUnique(k, q, d);
    assert Meet(k, q) == k[..d];
  }
}
