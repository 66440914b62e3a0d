/**
 * What the downward and upward queries of GrammarAST return, stated against
 * reference orders of the tree: level order and pre-order of the subtree,
 * and the parent chain above a node.
 */
module GrammarAstQueries {
  import opened Wrappers
  import opened GrammarAst

  // ---------------------------------------------------------------------
  // Breadth-first search: the work list visits the subtree level by level.
  // ---------------------------------------------------------------------

  /** Draining `L + M` visits `L`, then drains `M` followed by `L`'s children. */
  lemma {:induction false} BfsAppend(L: seq<GrammarAST>, M: seq<GrammarAST>, S: set<GrammarAST>)
    requires WellFormed(S) && AllIn(L, S) && AllIn(M, S)
    ensures AllIn(L + M, S) && AllIn(M + Kids(L, S), S)
    ensures Bfs(L + M, S) == L + Bfs(M + Kids(L, S), S)
    decreases |L|
  {
    if L == [] {
      assert L + M == M && M + Kids(L, S) == M;
    } else {
      var x := L[0];
      ChildrenBound(S, x);
      var M' := M + x.children;
      var K' := Kids(L[1..], S);
      calc {
        Bfs(L + M, S);
        { BfsHead(L, M, S); }
        [x] + Bfs(L[1..] + M', S);
        { BfsAppend(L[1..], M', S); }
        [x] + (L[1..] + Bfs(M' + K', S));
        { KidsCons(L, M, S); }
        [x] + (L[1..] + Bfs(M + Kids(L, S), S));
        { assert [x] + L[1..] == L; }
        L + Bfs(M + Kids(L, S), S);
      }
    }
  }

  /** The work list `L + M` visits `L[0]`, then continues with the rest of `L`, `M` and `L[0]`'s children. */
  lemma BfsHead(L: seq<GrammarAST>, M: seq<GrammarAST>, S: set<GrammarAST>)
    requires WellFormed(S) && AllIn(L, S) && AllIn(M, S) && L != []
    ensures AllIn(L + M, S) && AllIn(L[1..] + (M + L[0].children), S)
    ensures Bfs(L + M, S) == [L[0]] + Bfs(L[1..] + (M + L[0].children), S)
  {
    AllInConcat(L, M, S);
    ChildrenBound(S, L[0]);
    var LM := L + M;
    assert LM[0] == L[0];
    SeqShift(L, M, L[0].children);
    AllInConcat(M, L[0].children, S);
    AllInConcat(L[1..], M + L[0].children, S);
    SizeSumConcat(LM[1..], LM[0].children, S);
    assert Size(LM[0], S) == 1 + SizeSum(LM[0].children, S);
  }

  lemma KidsCons(L: seq<GrammarAST>, M: seq<GrammarAST>, S: set<GrammarAST>)
    requires WellFormed(S) && AllIn(L, S) && AllIn(M, S) && L != []
    ensures AllIn(L[0].children, S) && AllIn(L[1..], S)
    ensures M + L[0].children + Kids(L[1..], S) == M + Kids(L, S)
  {
  }

  lemma AllInConcat(A: seq<GrammarAST>, B: seq<GrammarAST>, S: set<GrammarAST>)
    requires AllIn(A, S) && AllIn(B, S)
    ensures AllIn(A + B, S)
  {
  }

  lemma SeqShift<T>(A: seq<T>, B: seq<T>, C: seq<T>)
    requires A != []
    ensures (A + B)[1..] + C == A[1..] + (B + C)
  {
  }

  lemma MultisetRegroup<T>(a: seq<T>, b: seq<T>, c: seq<T>, d: seq<T>)
    ensures multiset(a + b + (c + d)) == multiset(a + c) + multiset(b + d)
  {
  }

  /** The first-in first-out work list visits nodes in level order. */
  lemma {:induction false} BfsIsLevelOrder(L: seq<GrammarAST>, S: set<GrammarAST>)
    requires WellFormed(S) && AllIn(L, S)
    ensures Bfs(L, S) == Levels(L, S)
    decreases SizeSum(L, S)
  {
    if L != [] {
      BfsAppend(L, [], S);
      assert L + [] == L && [] + Kids(L, S) == Kids(L, S);
      BfsIsLevelOrder(Kids(L, S), S);
    }
  }

  lemma {:induction false} PreOrderSeqConcat(A: seq<GrammarAST>, B: seq<GrammarAST>, S: set<GrammarAST>)
    requires WellFormed(S) && AllIn(A, S) && AllIn(B, S)
    ensures AllIn(A + B, S)
    ensures PreOrderSeq(A + B, S) == PreOrderSeq(A, S) + PreOrderSeq(B, S)
    decreases |A|
  {
    if A == [] {
      assert A + B == B;
    } else {
      assert (A + B)[0] == A[0] && (A + B)[1..] == A[1..] + B;
      PreOrderSeqConcat(A[1..], B, S);
    }
  }

  /** Pre-order lists the roots and, in some order, everything under them. */
  lemma {:induction false} PreOrderSeqSplit(L: seq<GrammarAST>, S: set<GrammarAST>)
    requires WellFormed(S) && AllIn(L, S)
    ensures multiset(PreOrderSeq(L, S)) == multiset(L) + multiset(PreOrderSeq(Kids(L, S), S))
    decreases |L|
  {
    if L != [] {
      var x := L[0];
      ChildrenBound(S, x);
      var K := Kids(L[1..], S);
      PreOrderSeqSplit(L[1..], S);
      PreOrderSeqConcat(x.children, K, S);
      assert Kids(L, S) == x.children + K;
      assert PreOrderSeq(L, S) == [x] + PreOrderSeq(x.children, S) + PreOrderSeq(L[1..], S);
      MultisetRegroup([x], PreOrderSeq(x.children, S), L[1..], PreOrderSeq(K, S));
      assert L == [x] + L[1..];
    }
  }

  /** Level order and pre-order hold the same nodes, as often each. */
  lemma {:induction false} LevelsPermutePreOrder(L: seq<GrammarAST>, S: set<GrammarAST>)
    requires WellFormed(S) && AllIn(L, S)
    ensures multiset(Levels(L, S)) == multiset(PreOrderSeq(L, S))
    decreases SizeSum(L, S)
  {
    if L != [] {
      LevelsPermutePreOrder(Kids(L, S), S);
      PreOrderSeqSplit(L, S);
    }
  }

  /** How often `x` survives filtering. */
  lemma {:induction false} FilterCount(A: seq<GrammarAST>, types: set<int>, x: GrammarAST)
    ensures multiset(Filter(A, types))[x] == if x.Type() in types then multiset(A)[x] else 0
    decreases |A|
  {
    if A != [] {
      FilterCount(A[1..], types, x);
      assert A == [A[0]] + A[1..];
    }
  }

  /** Filtering two lists with the same elements gives lists with the same elements. */
  lemma FilterPermutes(A: seq<GrammarAST>, B: seq<GrammarAST>, types: set<int>)
    requires multiset(A) == multiset(B)
    ensures multiset(Filter(A, types)) == multiset(Filter(B, types))
  {
    forall x: GrammarAST ensures multiset(Filter(A, types))[x] == multiset(Filter(B, types))[x] {
      FilterCount(A, types, x);
      FilterCount(B, types, x);
    }
  }

  /**
   * What getNodesWithType returns: the nodes of the subtree rooted at `n`
   * whose type is in `types`, in level order, each as often as the
   * subtree's pre-order lists it.
   */
  lemma NodesWithTypesAreLevelOrderMatches(n: GrammarAST, types: set<int>, S: set<GrammarAST>)
    requires WellFormed(S) && n in S
    ensures AllIn([n], S)
    ensures Filter(Bfs([n], S), types) == Filter(Levels([n], S), types)
    ensures multiset(Filter(Bfs([n], S), types)) == multiset(Filter(PreOrder(n, S), types))
  {
    assert AllIn([n], S);
    BfsIsLevelOrder([n], S);
    LevelsPermutePreOrder([n], S);
    assert [n][1..] == [];
    assert PreOrderSeq([n], S) == PreOrder(n, S) + PreOrderSeq([], S);
    assert PreOrder(n, S) + [] == PreOrder(n, S);
    FilterPermutes(Levels([n], S), PreOrder(n, S), types);
  }

  /**
   * getNodesWithType lists each node of the subtree rooted at `n` whose type
   * is in `types` exactly once, and no other node.
   */
  lemma NodesWithTypesExactlyOnce(n: GrammarAST, types: set<int>, S: set<GrammarAST>, x: GrammarAST)
    requires WellFormed(S) && n in S
    ensures AllIn([n], S)
    ensures multiset(Filter(Bfs([n], S), types))[x] ==
      if x in PreOrder(n, S) && x.Type() in types then 1 else 0
  {
    NodesWithTypesAreLevelOrderMatches(n, types, S);
    FilterCount(PreOrder(n, S), types, x);
    PreOrderDistinct(n, S);
    DistinctCount(PreOrder(n, S), x);
  }

  // ---------------------------------------------------------------------
  // Each node once: sibling subtrees are disjoint.
  // ---------------------------------------------------------------------

  /** No node occurs twice in `L`. */
  ghost predicate Distinct(L: seq<GrammarAST>)
  {
    forall i, j :: 0 <= i < j < |L| ==> L[i] != L[j]
  }

  lemma {:induction false} DistinctCount(L: seq<GrammarAST>, x: GrammarAST)
    requires Distinct(L)
    ensures multiset(L)[x] == if x in L then 1 else 0
    decreases |L|
  {
    if L != [] {
      assert L == [L[0]] + L[1..];
      assert Distinct(L[1..]) by {
        forall i, j | 0 <= i < j < |L| - 1 ensures L[1..][i] != L[1..][j] {
          assert L[1..][i] == L[i + 1] && L[1..][j] == L[j + 1];
        }
      }
      DistinctCount(L[1..], x);
      assert L[0] == x ==> x !in L[1..] by {
        forall j | 0 <= j < |L| - 1 ensures L[1..][j] != L[0] {
          assert L[1..][j] == L[j + 1];
        }
      }
    }
  }

  lemma DistinctConcat(A: seq<GrammarAST>, B: seq<GrammarAST>)
    requires Distinct(A) && Distinct(B)
    requires forall i, j :: 0 <= i < |A| && 0 <= j < |B| ==> A[i] != B[j]
    ensures Distinct(A + B)
  {
  }

  /** Along a parent chain the ranks strictly increase. */
  lemma {:induction false} AncestorsIncrease(x: GrammarAST, S: set<GrammarAST>)
    requires WellFormed(S) && x in S
    ensures var A := x.Ancestors(S); forall i, j :: 0 <= i < j < |A| ==> A[i].height < A[j].height
    decreases x.Above(S)
  {
    if x.parent != null {
      AncestorsStep(x, S);
      AncestorsIncrease(x.parent, S);
      var A, B := x.Ancestors(S), x.parent.Ancestors(S);
      assert x.Linked(S);
      forall i, j | 0 <= i < j < |A| ensures A[i].height < A[j].height {
        assert A[j] == B[j - 1] && B[0] == x.parent;
        if i > 0 {
          assert A[i] == B[i - 1];
        }
      }
    }
  }

  /** A node in the pre-order of `L` lies in the subtree of one of `L`'s nodes. */
  lemma {:induction false} InPreOrderSeq(L: seq<GrammarAST>, x: GrammarAST, S: set<GrammarAST>)
    requires WellFormed(S) && AllIn(L, S) && x in PreOrderSeq(L, S)
    ensures exists j :: 0 <= j < |L| && x in PreOrder(L[j], S)
    decreases |L|
  {
    if x !in PreOrder(L[0], S) {
      InPreOrderSeq(L[1..], x, S);
      var j :| 0 <= j < |L| - 1 && x in PreOrder(L[1..][j], S);
      assert L[1..][j] == L[j + 1];
    }
  }

  /** A node of the subtree rooted at `c` has `c` on its parent chain. */
  lemma {:induction false} SubtreeOnChain(c: GrammarAST, x: GrammarAST, S: set<GrammarAST>)
    requires WellFormed(S) && c in S && x in PreOrder(c, S)
    ensures x in S && exists k :: 0 <= k < |x.Ancestors(S)| && x.Ancestors(S)[k] == c
    decreases c.height
  {
    ChildrenBound(S, c);
    var P := PreOrder(c, S);
    assert P == [c] + PreOrderSeq(c.children, S);
    if x == c {
      assert x.Ancestors(S)[0] == c;
    } else {
      assert x in PreOrderSeq(c.children, S);
      InPreOrderSeq(c.children, x, S);
      var j :| 0 <= j < |c.children| && x in PreOrder(c.children[j], S);
      var d := c.children[j];
      ChildBelow(S, c, j);
      SubtreeOnChain(d, x, S);
      var A := x.Ancestors(S);
      var k :| 0 <= k < |A| && A[k] == d;
      assert c.Linked(S);
      assert d.parent == c;
      assert k < |A| - 1;
      assert A[k + 1] == c;
    }
  }

  /** Every node of the subtree rooted at `c` ranks no higher than `c`. */
  lemma SubtreeBelow(c: GrammarAST, x: GrammarAST, S: set<GrammarAST>)
    requires WellFormed(S) && c in S && x in PreOrder(c, S)
    ensures x in S && x.height <= c.height
  {
    SubtreeOnChain(c, x, S);
    AncestorsIncrease(x, S);
    var A := x.Ancestors(S);
    var k :| 0 <= k < |A| && A[k] == c;
    assert A[0] == x;
  }

  /** Two children of `n` whose subtrees share a node are the same child. */
  lemma SubtreesOfChildren(n: GrammarAST, i: nat, j: nat, x: GrammarAST, S: set<GrammarAST>)
    requires WellFormed(S) && n in S && i < |n.children| && j < |n.children|
    ensures AllIn(n.children, S)
    ensures x in PreOrder(n.children[i], S) && x in PreOrder(n.children[j], S) ==> i == j
  {
    ChildrenBound(S, n);
    if x in PreOrder(n.children[i], S) && x in PreOrder(n.children[j], S) {
      SubtreeOnChain(n.children[i], x, S);
      SubtreeOnChain(n.children[j], x, S);
      AncestorsIncrease(x, S);
      var A := x.Ancestors(S);
      var ki :| 0 <= ki < |A| && A[ki] == n.children[i];
      var kj :| 0 <= kj < |A| && A[kj] == n.children[j];
      assert n.Linked(S);
      assert ki < |A| - 1 && A[ki + 1] == n;
      assert kj < |A| - 1 && A[kj + 1] == n;
      assert ki == kj;
    }
  }

  /** Pre-order lists each node of a subtree once. */
  lemma {:induction false} PreOrderDistinct(n: GrammarAST, S: set<GrammarAST>)
    requires WellFormed(S) && n in S
    ensures Distinct(PreOrder(n, S))
    decreases n.height + 1, 0, 0
  {
    ChildrenBound(S, n);
    var P := PreOrderSeq(n.children, S);
    PreOrderSeqDistinct(n, 0, S);
    assert n.children[0..] == n.children;
    forall j | 0 <= j < |P| ensures P[j] != n {
      InPreOrderSeq(n.children, P[j], S);
      var i :| 0 <= i < |n.children| && P[j] in PreOrder(n.children[i], S);
      ChildBelow(S, n, i);
      SubtreeBelow(n.children[i], P[j], S);
    }
    DistinctConcat([n], P);
  }

  lemma {:induction false} PreOrderSeqDistinct(n: GrammarAST, i: nat, S: set<GrammarAST>)
    requires WellFormed(S) && n in S && i <= |n.children|
    ensures AllIn(n.children[i..], S) && Distinct(PreOrderSeq(n.children[i..], S))
    decreases n.height, 1, |n.children| - i
  {
    ChildrenBound(S, n);
    if i < |n.children| {
      var c := n.children[i];
      ChildBelow(S, n, i);
      assert n.children[i..][0] == c && n.children[i..][1..] == n.children[i + 1..];
      var A, B := PreOrder(c, S), PreOrderSeq(n.children[i + 1..], S);
      assert PreOrderSeq(n.children[i..], S) == A + B;
      PreOrderDistinct(c, S);
      PreOrderSeqDistinct(n, i + 1, S);
      forall a, b | 0 <= a < |A| && 0 <= b < |B| ensures A[a] != B[b] {
        InPreOrderSeq(n.children[i + 1..], B[b], S);
        var m :| 0 <= m < |n.children| - (i + 1) && B[b] in PreOrder(n.children[i + 1..][m], S);
        assert n.children[i + 1..][m] == n.children[i + 1 + m];
        SubtreesOfChildren(n, i, i + 1 + m, B[b], S);
      }
      DistinctConcat(A, B);
    }
  }

  // ---------------------------------------------------------------------
  // First descendant: the first match in pre-order.
  // ---------------------------------------------------------------------

  lemma HeadConcat(A: seq<GrammarAST>, B: seq<GrammarAST>)
    ensures Head(A + B) == if A != [] then A[0] else Head(B)
  {
  }

  /**
   * getFirstDescendantWithType(types) is the first node of the subtree, in
   * pre-order, whose type is in `types` (this node itself when it matches),
   * and null when there is none.
   */
  lemma {:induction false} FirstDescendantIsFirstInPreOrder(n: GrammarAST, types: set<int>, S: set<GrammarAST>)
    requires WellFormed(S) && n in S
    ensures n.GetFirstDescendantWithTypes(types, S) == Head(Filter(PreOrder(n, S), types))
    decreases n.height + 1, 0, 0
  {
    ChildrenBound(S, n);
    var P := PreOrder(n, S);
    assert P == [n] + PreOrderSeq(n.children, S);
    assert P[0] == n && P[1..] == PreOrderSeq(n.children, S);
    if n.Type() !in types {
      FirstAmongIsFirstInPreOrder(n, 0, types, S);
      assert n.children[0..] == n.children;
    }
  }

  lemma {:induction false} FirstAmongIsFirstInPreOrder(n: GrammarAST, i: nat, types: set<int>, S: set<GrammarAST>)
    requires WellFormed(S) && n in S && i <= |n.children|
    ensures AllIn(n.children[i..], S)
    ensures n.FirstAmongChildren(i, types, S) == Head(Filter(PreOrderSeq(n.children[i..], S), types))
    decreases n.height, 1, |n.children| - i
  {
    ChildrenBound(S, n);
    if i < |n.children| {
      var t := n.children[i];
      ChildBelow(S, n, i);
      var rest := PreOrderSeq(n.children[i + 1..], S);
      assert n.children[i..][0] == t && n.children[i..][1..] == n.children[i + 1..];
      assert PreOrderSeq(n.children[i..], S) == PreOrder(t, S) + rest;
      FilterConcat(PreOrder(t, S), rest, types);
      HeadConcat(Filter(PreOrder(t, S), types), Filter(rest, types));
      FirstDescendantIsFirstInPreOrder(t, types, S);
      FirstAmongIsFirstInPreOrder(n, i + 1, types, S);
      ChildrenBound(S, t);
      var Pt := PreOrder(t, S);
      assert Pt[0] == t && Pt[1..] == PreOrderSeq(t.children, S);
    }
  }

  /** The int overload agrees with the set overload on the singleton set. */
  lemma FirstDescendantWithTypeIsFirstInPreOrder(n: GrammarAST, ttype: int, S: set<GrammarAST>)
    requires WellFormed(S) && n in S
    ensures n.GetFirstDescendantWithType(ttype, S) == Head(Filter(PreOrder(n, S), {ttype}))
  {
    FirstDescendantIsFirstInPreOrder(n, {ttype}, S);
  }

  // ---------------------------------------------------------------------
  // Outermost alternative: the nearest qualifying node on the parent chain.
  // ---------------------------------------------------------------------

  /**
   * On a parent chain `A`, the node at `j` is an AltAST whose grandparent,
   * two links further up, exists and is a RuleAST.
   */
  ghost predicate QualifiesAt(A: seq<GrammarAST>, j: int)
  {
    0 <= j && j + 2 < |A| && A[j].kind == Alt && A[j + 2].kind == Rule
  }

  /** Above a node with a parent, the chain is that node followed by its parent's chain. */
  lemma AncestorsStep(n: GrammarAST, S: set<GrammarAST>)
    requires WellFormed(S) && n in S && n.parent != null
    ensures n.parent in S && n.parent in n.Above(S) - n.parent.Above(S)
    ensures n.Ancestors(S) == [n] + n.parent.Ancestors(S)
  {
  }

  /** Prefixing a chain with one node: no position qualifies on the longer chain iff the new head does not and none did before. */
  lemma NoneShift(n: GrammarAST, B: seq<GrammarAST>)
    ensures (forall j :: 0 <= j < |[n] + B| ==> !QualifiesAt([n] + B, j)) <==>
            !QualifiesAt([n] + B, 0) && (forall j :: 0 <= j < |B| ==> !QualifiesAt(B, j))
  {
    var A := [n] + B;
    forall j | 0 <= j < |B| ensures QualifiesAt(A, j + 1) == QualifiesAt(B, j) {
      assert A[j + 1] == B[j];
      if j + 2 < |B| { assert A[j + 3] == B[j + 2]; }
    }
    if forall j :: 0 <= j < |B| ==> !QualifiesAt(B, j) {
      forall j | 1 <= j < |A| ensures !QualifiesAt(A, j) {
        assert QualifiesAt(A, (j - 1) + 1) == QualifiesAt(B, j - 1);
      }
    }
  }

  /** Prefixing a chain with a node that does not qualify moves the first qualifying position up by one. */
  lemma FirstShift(n: GrammarAST, B: seq<GrammarAST>, k: nat)
    requires k < |B| && QualifiesAt(B, k) && forall j :: 0 <= j < k ==> !QualifiesAt(B, j)
    requires !QualifiesAt([n] + B, 0)
    ensures ([n] + B)[k + 1] == B[k] && QualifiesAt([n] + B, k + 1)
    ensures forall j :: 0 <= j < k + 1 ==> !QualifiesAt([n] + B, j)
  {
    var A := [n] + B;
    assert A[k + 1] == B[k] && A[k + 3] == B[k + 2];
    forall j | 1 <= j < k + 1 ensures !QualifiesAt(A, j) {
      assert A[j] == B[j - 1];
      if j + 2 < |A| { assert A[j + 2] == B[j + 1]; }
      assert !QualifiesAt(B, j - 1);
    }
  }

  /** The first link of the chain qualifies exactly when getOutermostAltNode() stops there. */
  lemma QualifiesHere(n: GrammarAST, S: set<GrammarAST>)
    requires WellFormed(S) && n in S
    ensures QualifiesAt(n.Ancestors(S), 0) <==>
      n.kind == Alt && n.parent != null && n.parent.parent != null && n.parent.parent.kind == Rule
  {
  }

  /**
   * When getOutermostAltNode() returns a node, it is the first node of the
   * parent chain that is an AltAST with a RuleAST grandparent.
   */
  lemma {:induction false} OutermostAltIsNearestOnChain(n: GrammarAST, S: set<GrammarAST>)
    requires WellFormed(S) && n in S
    ensures var A := n.Ancestors(S); var r := n.GetOutermostAltNode(S);
      r.Ok? && r.value != null ==>
        exists k :: 0 <= k < |A| && A[k] == r.value && QualifiesAt(A, k) &&
                    forall j :: 0 <= j < k ==> !QualifiesAt(A, j)
    decreases n.Above(S)
  {
    var A := n.Ancestors(S);
    var r := n.GetOutermostAltNode(S);
    QualifiesHere(n, S);
    if n.parent != null && !QualifiesAt(A, 0) && r.Ok? && r.value != null {
      AncestorsStep(n, S);
      OutermostAltIsNearestOnChain(n.parent, S);
      var B := n.parent.Ancestors(S);
      var k :| 0 <= k < |B| && B[k] == r.value && QualifiesAt(B, k) &&
               forall j :: 0 <= j < k ==> !QualifiesAt(B, j);
      FirstShift(n, B, k);
    }
  }

  /**
   * getOutermostAltNode() fails exactly when no node of the parent chain
   * qualifies and the chain ends in an AltAST root, whose missing parent it
   * dereferences; it returns null exactly when no node qualifies and the root
   * is not an AltAST.
   */
  lemma {:induction false} OutermostAltFailsAtAltRoot(n: GrammarAST, S: set<GrammarAST>)
    requires WellFormed(S) && n in S
    ensures var A := n.Ancestors(S); var r := n.GetOutermostAltNode(S);
      var none := forall j :: 0 <= j < |A| ==> !QualifiesAt(A, j);
      (r == Ok(null) <==> none && A[|A| - 1].kind != Alt) &&
      (r == Err(NullPointerException) <==> none && A[|A| - 1].kind == Alt) &&
      (r.Err? ==> r.error == NullPointerException)
    decreases n.Above(S)
  {
    var A := n.Ancestors(S);
    QualifiesHere(n, S);
    if n.parent == null {
      assert A == [n];
    } else if !QualifiesAt(A, 0) {
      AncestorsStep(n, S);
      OutermostAltFailsAtAltRoot(n.parent, S);
      var B := n.parent.Ancestors(S);
      NoneShift(n, B);
      assert A[|A| - 1] == B[|B| - 1];
    }
  }
}
