/**
 * The mutable grammar syntax-tree node GrammarAST: a token payload, an
 * ordered list of children, a parent link and a cached child index, with
 * its structural edits, payload edits and tree queries.
 */
module GrammarAst {
  import opened Wrappers
  import opened Tokens
  import opened NodeStream

  /** Which class of the node hierarchy a node is an instance of. */
  datatype Kind = Plain | Alt | Rule

  class GrammarAST {
    /** The token the node was built from; None for a token-less node. */
    var token: Option<Token>
    /** GrammarAST itself, or its subclass AltAST or RuleAST. */
    const kind: Kind
    /** The children in left-to-right order. */
    var children: seq<GrammarAST>
    /** False while the children list is still null (then `children` is empty). */
    var hasChildList: bool
    /** The node this one was last attached under, or null. */
    var parent: GrammarAST?
    /** The position this node was last given in its parent's children. */
    var childIndex: int
    /**
     * A rank that strictly grows along every parent link; it witnesses that
     * following children or parents always ends.
     */
    ghost var height: nat

    /** The node's token type, or the invalid type when it has no token. */
    function Type(): int
      reads this
    {
      if token.Some? then token.value.ttype else INVALID_TOKEN_TYPE
    }

    /**
     * This node's share of the tree invariant: every child sits in `S`, has
     * this node as parent and its own position as child index; the parent
     * link stays inside `S` and goes up in rank.
     */
    ghost predicate Linked(S: set<GrammarAST>)
      requires this in S
      reads S`children, S`hasChildList, S`parent, S`childIndex, S`height
    {
      (!hasChildList ==> children == []) &&
      (forall i :: 0 <= i < |children| ==>
         children[i] in S && children[i].parent == this && children[i].childIndex == i) &&
      (parent != null ==> parent in S && height < parent.height)
    }

    /** The nodes of `S` ranked above this one. */
    ghost function Above(S: set<GrammarAST>): set<GrammarAST>
      reads S`height, this`height
    {
      set m | m in S && m.height > height
    }

    /** GrammarAST(): a node with no token. */
    constructor Empty(kind: Kind)
      ensures this.kind == kind && token == None
      ensures children == [] && !hasChildList && parent == null && childIndex == -1 && height == 0
    {
      this.kind := kind;
      token := None;
      children, hasChildList, parent, childIndex := [], false, null, -1;
      height := 0;
    }

    /** GrammarAST(Token t): a node for the token `t`. */
    constructor FromToken(kind: Kind, t: Token)
      ensures this.kind == kind && token == Some(t)
      ensures children == [] && !hasChildList && parent == null && childIndex == -1 && height == 0
    {
      this.kind := kind;
      token := Some(t);
      children, hasChildList, parent, childIndex := [], false, null, -1;
      height := 0;
    }

    /** GrammarAST(GrammarAST node): a detached node with `node`'s token. */
    constructor Copy(kind: Kind, node: GrammarAST)
      ensures this.kind == kind && token == node.token
      ensures children == [] && !hasChildList && parent == null && childIndex == -1 && height == 0
    {
      this.kind := kind;
      token := node.token;
      children, hasChildList, parent, childIndex := [], false, null, -1;
      height := 0;
    }

    /**
     * GrammarAST(int type): an imaginary node whose text is the canonical
     * name of `type`, looked up in the parser's token-name table.
     */
    constructor OfType(kind: Kind, ttype: int, tokenName: int -> string)
      ensures this.kind == kind && token.Some?
      ensures token.value.ttype == ttype && token.value.text == tokenName(ttype)
      ensures token.value.inputStream == None
      ensures children == [] && !hasChildList && parent == null && childIndex == -1 && height == 0
    {
      this.kind := kind;
      token := Some(NewToken(ttype, tokenName(ttype)));
      children, hasChildList, parent, childIndex := [], false, null, -1;
      height := 0;
    }

    /**
     * GrammarAST(int type, Token t): a node of type `ttype` with `t`'s text
     * and `t`'s stream, line, column and token index.
     */
    constructor Imaginary(kind: Kind, ttype: int, t: Token)
      ensures this.kind == kind && token.Some?
      ensures token.value.ttype == ttype && token.value.text == t.text
      ensures token.value.inputStream == t.inputStream && token.value.line == t.line
      ensures token.value.charPositionInLine == t.charPositionInLine
      ensures token.value.tokenIndex == t.tokenIndex
      ensures children == [] && !hasChildList && parent == null && childIndex == -1 && height == 0
    {
      this.kind := kind;
      token := Some(WithProvenance(ttype, t.text, t));
      children, hasChildList, parent, childIndex := [], false, null, -1;
      height := 0;
    }

    /**
     * GrammarAST(int type, Token t, String text): as Imaginary, with `text`
     * in place of `t`'s text.
     */
    constructor ImaginaryWithText(kind: Kind, ttype: int, t: Token, text: string)
      ensures this.kind == kind && token.Some?
      ensures token.value.ttype == ttype && token.value.text == text
      ensures token.value.inputStream == t.inputStream && token.value.line == t.line
      ensures token.value.charPositionInLine == t.charPositionInLine
      ensures token.value.tokenIndex == t.tokenIndex
      ensures children == [] && !hasChildList && parent == null && childIndex == -1 && height == 0
    {
      this.kind := kind;
      token := Some(WithProvenance(ttype, text, t));
      children, hasChildList, parent, childIndex := [], false, null, -1;
      height := 0;
    }

    /** dupNode(): a fresh detached node carrying this node's token. */
    method DupNode() returns (r: GrammarAST)
      ensures fresh(r) && r.kind == Plain && r.token == token
      ensures r.children == [] && !r.hasChildList && r.parent == null && r.childIndex == -1
      ensures r.height == 0
    {
      r := new GrammarAST.Copy(Plain, this);
    }

    /** setType(type): replaces the token's type; throws when there is no token. */
    method SetType(ttype: int) returns (r: Result<()>)
      modifies this`token
      ensures old(token).None? ==> r == Err(NullPointerException) && token == None
      ensures old(token).Some? ==> r == Ok(()) && token == Some(old(token).value.(ttype := ttype))
      ensures children == old(children) && parent == old(parent) && childIndex == old(childIndex)
    {
      if token.None? {
        return Err(NullPointerException);
      }
      token := Some(token.value.(ttype := ttype));
      r := Ok(());
    }

    /** setText(text): replaces the token's text; throws when there is no token. */
    method SetText(text: string) returns (r: Result<()>)
      modifies this`token
      ensures old(token).None? ==> r == Err(NullPointerException) && token == None
      ensures old(token).Some? ==> r == Ok(()) && token == Some(old(token).value.(text := text))
      ensures children == old(children) && parent == old(parent) && childIndex == old(childIndex)
    {
      if token.None? {
        return Err(NullPointerException);
      }
      token := Some(token.value.(text := text));
      r := Ok(());
    }

    /**
     * toTokenString(): reads this node's token's input stream (throwing when
     * there is no token), then walks the node stream of the tree, appending a
     * space and each node's text until the look-ahead is an EOF node.
     */
    method ToTokenString(stream: seq<Entry>) returns (r: Result<string>)
      ensures token.None? ==> r == Err(NullPointerException)
      ensures token.Some? ==> r == Ok(Render(stream))
    {
      if token.None? {
        return Err(NullPointerException);
      }
      var buf := "";
      var p := 0;
      var o := LookAhead(stream, p);
      assert stream[p..] == stream;
      while o.ttype != EOF
        invariant p <= |stream| && o == LookAhead(stream, p)
        invariant buf + Render(stream[p..]) == Render(stream)
        decreases |stream| - p
      {
        RenderFrom(stream, p);
        RenderAppend(buf, o.text, Render(stream[p + 1..]));
        buf := buf + " " + o.text;
        p := p + 1;
        o := LookAhead(stream, p);
      }
      RenderFrom(stream, p);
      assert buf + "" == buf;
      r := Ok(buf);
    }

    /**
     * The parent chain from this node up to a root: this node, its parent,
     * its grandparent, ... ending with a node that has no parent.
     */
    ghost function Ancestors(S: set<GrammarAST>): (r: seq<GrammarAST>)
      requires WellFormed(S) && this in S
      reads S
      ensures |r| >= 1 && r[0] == this && AllIn(r, S)
      ensures forall k :: 0 <= k < |r| - 1 ==> r[k].parent == r[k + 1]
      ensures r[|r| - 1].parent == null
      decreases Above(S)
    {
      if parent == null then [this]
      else
        assert Linked(S);
        assert parent in Above(S) - parent.Above(S);
        [this] + parent.Ancestors(S)
    }

    /**
     * getOutermostAltNode(): walks up the parent links to the first AltAST
     * whose grandparent is a RuleAST. Reaching a root gives null; meeting an
     * AltAST without a parent dereferences null.
     */
    function GetOutermostAltNode(ghost S: set<GrammarAST>): (r: Result<GrammarAST?>)
      requires WellFormed(S) && this in S
      reads S
      ensures r.Ok? && r.value != null ==> r.value.kind == Alt && r.value in S
      decreases Above(S)
    {
      if kind == Alt && parent == null then Err(NullPointerException)
      else if kind == Alt && parent.parent != null && parent.parent.kind == Rule then Ok(this)
      else if parent != null then
        assert Linked(S);
        assert parent in Above(S) - parent.Above(S);
        parent.GetOutermostAltNode(S)
      else Ok(null)
    }

    /**
     * getFirstDescendantWithType(BitSet types): this node if its type is in
     * `types`, else the first match found among the children in order.
     */
    function GetFirstDescendantWithTypes(types: set<int>, ghost S: set<GrammarAST>): (r: GrammarAST?)
      requires WellFormed(S) && this in S
      reads S
      ensures r != null ==> r in S && r.Type() in types
      ensures Type() in types ==> r == this
      decreases height + 1, 0, 0
    {
      if Type() in types then this
      else FirstAmongChildren(0, types, S)
    }

    /**
     * The loop of getFirstDescendantWithType from child `i` on: a child whose
     * type matches, else the first match in that child's subtree, else the
     * next child.
     */
    function FirstAmongChildren(i: nat, types: set<int>, ghost S: set<GrammarAST>): (r: GrammarAST?)
      requires WellFormed(S) && this in S && i <= |children|
      reads S
      ensures r != null ==> r in S && r.Type() in types
      decreases height, 1, |children| - i
    {
      if i == |children| then null
      else
        ChildBelow(S, this, i);
        var t := children[i];
        if t.Type() in types then t
        else
          var d := t.GetFirstDescendantWithTypes(types, S);
          if d != null then d else FirstAmongChildren(i + 1, types, S)
    }

    /** getFirstDescendantWithType(int type): the same search for one type. */
    function GetFirstDescendantWithType(ttype: int, ghost S: set<GrammarAST>): (r: GrammarAST?)
      requires WellFormed(S) && this in S
      reads S
      ensures r != null ==> r in S && r.Type() == ttype
      ensures Type() == ttype ==> r == this
    {
      GetFirstDescendantWithTypes({ttype}, S)
    }

    /** getAllChildrenWithType(type): the direct children of type `ttype`, in order. */
    method GetAllChildrenWithType(ttype: int) returns (nodes: seq<GrammarAST>)
      ensures nodes == Filter(children, {ttype})
      ensures forall x :: x in nodes <==> x in children && x.Type() == ttype
    {
      nodes := [];
      var i := 0;
      while i < |children|
        invariant 0 <= i <= |children|
        invariant nodes == Filter(children[..i], {ttype})
      {
        var t := children[i];
        FilterConcat(children[..i], [t], {ttype});
        TakeSnoc(children, i);
        if t.Type() == ttype {
          nodes := nodes + [t];
        }
        i := i + 1;
      }
      assert children[..i] == children;
    }

    /**
     * getNodesWithType(IntervalSet types): drains a first-in first-out work
     * list that starts with this node, keeping each visited node whose type
     * is in `types` and appending its children to the work list.
     */
    method GetNodesWithTypes(types: set<int>, ghost S: set<GrammarAST>) returns (nodes: seq<GrammarAST>)
      requires WellFormed(S) && this in S
      ensures nodes == Filter(Bfs([this], S), types)
      ensures Type() in types ==> |nodes| > 0 && nodes[0] == this
    {
      nodes := [];
      var work := [this];
      while |work| > 0
        invariant AllIn(work, S)
        invariant nodes + Filter(Bfs(work, S), types) == Filter(Bfs([this], S), types)
        decreases SizeSum(work, S)
      {
        var t := work[0];
        BfsAdvance(nodes, work, types, S);
        work := work[1..];
        if t.Type() in types {
          nodes := nodes + [t];
        }
        work := work + t.children;
      }
      assert nodes + [] == nodes;
      BfsStep([this], types, S);
    }

    /** getNodesWithType(int ttype): the same search for one type. */
    method GetNodesWithType(ttype: int, ghost S: set<GrammarAST>) returns (nodes: seq<GrammarAST>)
      requires WellFormed(S) && this in S
      ensures nodes == Filter(Bfs([this], S), {ttype})
      ensures Type() == ttype ==> |nodes| > 0 && nodes[0] == this
    {
      nodes := GetNodesWithTypes({ttype}, S);
    }

    /**
     * Re-ranks this node's parent chain so that `t` ranks below this node;
     * only ghost ranks change. `t` must not be on the chain.
     */
    ghost method RaiseAbove(t: GrammarAST, S: set<GrammarAST>)
      requires WellFormed(S) && this in S && t in S
      requires t !in Ancestors(S)
      modifies S`height
      ensures WellFormed(S) && t.height < height
    {
      var A := Ancestors(S);
      var C: set<GrammarAST> := set a | a in A;
      var d: nat := if t.height < height then 0 else t.height + 1 - height;
      forall a: GrammarAST | a in C ensures a.parent == null || a.parent in C {
        var k :| 0 <= k < |A| && A[k] == a;
        if k < |A| - 1 {
          assert A[k + 1] in C;
        }
      }
      forall a | a in C {
        a.height := a.height + d;
      }
      forall n | n in S ensures n.Linked(S) {
        assert old(n.Linked(S));
      }
    }

    /**
     * insertChild(i, t): throws when `i` is outside 0..getChildCount();
     * otherwise inserts `t` at position `i` and re-derives the parent and
     * child index of every child from `i` on. `t` must be detached and must
     * not be this node or one of its ancestors.
     */
    method InsertChild(i: int, t: GrammarAST, ghost S: set<GrammarAST>) returns (r: Result<()>)
      requires WellFormed(S) && this in S && t in S
      requires Detached(t, S) && t !in Ancestors(S)
      modifies this`children, this`hasChildList, t`parent, t`childIndex,
               children`childIndex, children`parent, S`height
      ensures WellFormed(S)
      ensures r.Err? <==> i < 0 || i > |old(children)|
      ensures r.Err? ==> r.error == IndexOutOfBoundsException
      ensures r.Err? ==> children == old(children) && hasChildList == old(hasChildList)
      ensures r.Err? ==> t.parent == old(t.parent) && t.childIndex == old(t.childIndex)
      ensures r.Err? ==> forall c :: c in children ==> c.childIndex == old(c.childIndex)
      ensures r.Ok? ==> children == old(children)[..i] + [t] + old(children)[i..] && hasChildList
      ensures r.Ok? ==> t.parent == this && t.childIndex == i
      ensures forall j :: 0 <= j < |children| ==> children[j].parent == this && children[j].childIndex == j
    {
      if i < 0 || i > |children| {
        assert Linked(S);
        return Err(IndexOutOfBoundsException);
      }
      RaiseAbove(t, S);
      label Raised:
      assert Linked(S);
      ghost var before := children;
      AddChildAt(i, t);
      assert children[i] == t;
      forall n | n in S ensures n.Linked(S) {
        assert old@Raised(n.Linked(S));
        if n == t {
          assert t.parent == this;
        } else if n in before {
          var m :| 0 <= m < |before| && before[m] == n;
          assert children[if m < i then m else m + 1] == n;
        }
        if n != this {
          forall k | 0 <= k < |n.children|
            ensures n.children[k] in S && n.children[k].parent == n && n.children[k].childIndex == k
          {
            var c := n.children[k];
            assert old@Raised(c.parent) == n;
            assert c !in before && c != t;
          }
        }
      }
      r := Ok(());
    }

    /**
     * The in-bounds part of insertChild: creates the children list when it
     * is null, inserts `t` at `i` and freshens the children from `i` on.
     */
    method AddChildAt(i: int, t: GrammarAST)
      requires 0 <= i <= |children| && t !in children
      requires forall j, k :: 0 <= j < k < |children| ==> children[j] != children[k]
      requires forall j :: 0 <= j < i ==> children[j].parent == this && children[j].childIndex == j
      modifies this`children, this`hasChildList, t`parent, t`childIndex,
               children`childIndex, children`parent
      ensures children == old(children)[..i] + [t] + old(children)[i..] && hasChildList
      ensures forall j :: 0 <= j < |children| ==> children[j].parent == this && children[j].childIndex == j
    {
      ghost var before := children;
      if !hasChildList {
        hasChildList := true;
      }
      children := children[..i] + [t] + children[i..];
      assert forall j :: 0 <= j < i ==> children[j] == before[j];
      assert forall j :: i < j < |children| ==> children[j] == before[j - 1];
      FreshenParentAndChildIndexes(i);
    }

    /**
     * deleteChild(Tree t): throws when the children list is null; otherwise
     * looks for `t` among the children by identity and, when found, removes
     * the child at `t`'s child index and re-derives the indexes after it.
     * The removed node keeps its parent link.
     */
    method DeleteChild(t: GrammarAST, ghost S: set<GrammarAST>) returns (r: Result<bool>)
      requires WellFormed(S) && this in S
      modifies this`children, children`childIndex, children`parent
      ensures WellFormed(S)
      ensures r.Err? <==> !hasChildList
      ensures r.Err? ==> r.error == NullPointerException
      ensures r.Ok? ==> (r.value <==> t in old(children))
      ensures r == Ok(true) ==>
        var k := old(t.childIndex);
        0 <= k < |old(children)| && old(children)[k] == t &&
        children == old(children)[..k] + old(children)[k + 1..]
      ensures r != Ok(true) ==> children == old(children)
      ensures t.parent == old(t.parent)
      ensures r == Ok(true) ==> t.childIndex == old(t.childIndex)
      ensures forall j :: 0 <= j < |children| ==> children[j].parent == this && children[j].childIndex == j
    {
      assert Linked(S);
      if !hasChildList {
        return Err(NullPointerException);
      }
      var i := 0;
      while i < |children|
        invariant 0 <= i <= |children|
        invariant forall j :: 0 <= j < i ==> children[j] != t
      {
        if children[i] == t {
          break;
        }
        i := i + 1;
      }
      if i == |children| {
        return Ok(false);
      }
      label Found:
      ghost var before := children;
      var k := t.childIndex;
      RemoveChildAt(k);
      forall n | n in S ensures n.Linked(S) {
        assert old@Found(n.Linked(S));
        if n in children {
          var m :| 0 <= m < |children| && children[m] == n;
          assert n.parent == this;
        }
        if n != this {
          forall m | 0 <= m < |n.children|
            ensures n.children[m] in S && n.children[m].parent == n && n.children[m].childIndex == m
          {
            assert old@Found(n.children[m].parent) == n;
          }
        }
      }
      return Ok(true);
    }

    /**
     * deleteChild(int i) of the base tree class: removes the child at `i`
     * and freshens the children from `i` on.
     */
    method RemoveChildAt(i: int)
      requires 0 <= i < |children|
      requires forall j, k :: 0 <= j < k < |children| ==> children[j] != children[k]
      requires forall j :: 0 <= j < i ==> children[j].parent == this && children[j].childIndex == j
      modifies this`children, children`childIndex, children`parent
      ensures children == old(children)[..i] + old(children)[i + 1..]
      ensures old(children)[i].parent == old(children[i].parent)
      ensures old(children)[i].childIndex == old(children[i].childIndex)
      ensures forall j :: 0 <= j < |children| ==> children[j].parent == this && children[j].childIndex == j
    {
      ghost var before := children;
      children := children[..i] + children[i + 1..];
      assert forall j :: 0 <= j < i ==> children[j] == before[j];
      assert forall j :: i <= j < |children| ==> children[j] == before[j + 1];
      FreshenParentAndChildIndexes(i);
    }

    /**
     * freshenParentAndChildIndexes(offset): gives every child from
     * `offset` on its position as child index and this node as parent.
     */
    method FreshenParentAndChildIndexes(offset: nat)
      requires offset <= |children|
      requires forall j, k :: 0 <= j < k < |children| ==> children[j] != children[k]
      modifies children`childIndex, children`parent
      ensures forall j :: offset <= j < |children| ==>
        children[j].childIndex == j && children[j].parent == this
      ensures forall j :: 0 <= j < offset ==>
        children[j].childIndex == old(children[j].childIndex) && children[j].parent == old(children[j].parent)
    {
      var c := offset;
      while c < |children|
        invariant offset <= c <= |children|
        invariant forall j :: offset <= j < c ==> children[j].childIndex == j && children[j].parent == this
        invariant forall j :: 0 <= j < offset || c <= j < |children| ==>
          children[j].childIndex == old(children[j].childIndex) && children[j].parent == old(children[j].parent)
      {
        children[c].childIndex := c;
        children[c].parent := this;
        c := c + 1;
      }
    }
  }

  /** All nodes of `L` lie in `S`. */
  ghost predicate AllIn(L: seq<GrammarAST>, S: set<GrammarAST>)
  {
    forall i :: 0 <= i < |L| ==> L[i] in S
  }

  /**
   * The index invariant over a node set `S` closed under child and parent
   * links: for every parent P in S and every i, P.children[i] has parent P
   * and child index i.
   */
  ghost predicate WellFormed(S: set<GrammarAST>)
    reads S`children, S`hasChildList, S`parent, S`childIndex, S`height
  {
    forall n :: n in S ==> n.Linked(S)
  }

  /** `t` is in no child list of a node of `S`. */
  ghost predicate Detached(t: GrammarAST, S: set<GrammarAST>)
    reads S`children
  {
    forall n :: n in S ==> t !in n.children
  }

  /**
   * A newly built node (no children, no parent) joins a well-formed set
   * without breaking the invariant, and meets insertChild's demands for
   * every node already in the set.
   */
  lemma AdmitNewNode(S: set<GrammarAST>, t: GrammarAST)
    requires WellFormed(S) && t !in S && t.children == [] && t.parent == null
    ensures WellFormed(S + {t}) && Detached(t, S + {t})
    ensures forall n :: n in S ==> t !in n.Ancestors(S + {t})
  {
    var S' := S + {t};
    forall n | n in S' ensures n.Linked(S') {
      if n != t {
        assert n.Linked(S);
      }
    }
    forall n | n in S ensures t !in n.Ancestors(S') {
      NewNodeNotAbove(S, t, n);
    }
  }

  lemma {:induction false} NewNodeNotAbove(S: set<GrammarAST>, t: GrammarAST, n: GrammarAST)
    requires WellFormed(S) && WellFormed(S + {t}) && t !in S && n in S
    ensures t !in n.Ancestors(S + {t})
    decreases n.Above(S + {t})
  {
    assert n.Linked(S) && n.Linked(S + {t});
    if n.parent != null {
      assert n.parent in n.Above(S + {t}) - n.parent.Above(S + {t});
      NewNodeNotAbove(S, t, n.parent);
      assert n.Ancestors(S + {t}) == [n] + n.parent.Ancestors(S + {t});
    } else {
      assert n.Ancestors(S + {t}) == [n];
    }
  }

  /** A child of a node of a well-formed set is in the set and ranked below it. */
  lemma ChildBelow(S: set<GrammarAST>, n: GrammarAST, i: int)
    requires WellFormed(S) && n in S && 0 <= i < |n.children|
    ensures n.children[i] in S && n.children[i].height < n.height
  {
  }

  /** One more than the largest rank in `L`, or 0 for the empty list. */
  ghost function Bound(L: seq<GrammarAST>): nat
    reads L`height
    decreases |L|
  {
    if L == [] then 0
    else if L[0].height + 1 < Bound(L[1..]) then Bound(L[1..]) else L[0].height + 1
  }

  lemma {:induction false} BoundBelow(L: seq<GrammarAST>, h: nat)
    requires forall i :: 0 <= i < |L| ==> L[i].height < h
    ensures Bound(L) <= h
  {
    if L != [] {
      BoundBelow(L[1..], h);
    }
  }

  lemma ChildrenBound(S: set<GrammarAST>, n: GrammarAST)
    requires WellFormed(S) && n in S
    ensures AllIn(n.children, S) && Bound(n.children) <= n.height
  {
    forall i | 0 <= i < |n.children| ensures n.children[i] in S && n.children[i].height < n.height {
      ChildBelow(S, n, i);
    }
    BoundBelow(n.children, n.height);
  }

  /** The number of nodes in the subtree rooted at `n`. */
  ghost function Size(n: GrammarAST, S: set<GrammarAST>): (k: nat)
    requires WellFormed(S) && n in S
    reads S
    ensures k >= 1
    decreases n.height + 1, 0, 0
  {
    ChildrenBound(S, n);
    1 + SizeSum(n.children, S)
  }

  /** The number of nodes in the subtrees rooted at the nodes of `L`. */
  ghost function SizeSum(L: seq<GrammarAST>, S: set<GrammarAST>): nat
    requires WellFormed(S) && AllIn(L, S)
    reads S
    decreases Bound(L), 1, |L|
  {
    if L == [] then 0 else Size(L[0], S) + SizeSum(L[1..], S)
  }

  lemma {:induction false} SizeSumConcat(A: seq<GrammarAST>, B: seq<GrammarAST>, S: set<GrammarAST>)
    requires WellFormed(S) && AllIn(A, S) && AllIn(B, S)
    ensures AllIn(A + B, S) && SizeSum(A + B, S) == SizeSum(A, S) + SizeSum(B, S)
  {
    if A != [] {
      assert (A + B)[1..] == A[1..] + B;
      SizeSumConcat(A[1..], B, S);
    } else {
      assert A + B == B;
    }
  }

  /** Left to right, the children of the nodes of `L`: the next level down. */
  ghost function Kids(L: seq<GrammarAST>, S: set<GrammarAST>): (r: seq<GrammarAST>)
    requires WellFormed(S) && AllIn(L, S)
    reads S
    ensures AllIn(r, S)
    ensures L != [] ==> SizeSum(r, S) + |L| == SizeSum(L, S)
  {
    if L == [] then []
    else
      ChildrenBound(S, L[0]);
      var rest := Kids(L[1..], S);
      SizeSumConcat(L[0].children, rest, S);
      L[0].children + rest
  }

  /**
   * The visiting order of a first-in first-out work list that starts as `L`
   * and appends each visited node's children.
   */
  ghost function Bfs(L: seq<GrammarAST>, S: set<GrammarAST>): seq<GrammarAST>
    requires WellFormed(S) && AllIn(L, S)
    reads S
    decreases SizeSum(L, S)
  {
    if L == [] then []
    else
      ChildrenBound(S, L[0]);
      SizeSumConcat(L[1..], L[0].children, S);
      assert Size(L[0], S) == 1 + SizeSum(L[0].children, S);
      [L[0]] + Bfs(L[1..] + L[0].children, S)
  }

  /** Level order: the nodes of `L`, then their children, then their grandchildren, ... */
  ghost function Levels(L: seq<GrammarAST>, S: set<GrammarAST>): seq<GrammarAST>
    requires WellFormed(S) && AllIn(L, S)
    reads S
    decreases SizeSum(L, S)
  {
    if L == [] then [] else L + Levels(Kids(L, S), S)
  }

  /** The subtree rooted at `n` in left-to-right pre-order. */
  ghost function PreOrder(n: GrammarAST, S: set<GrammarAST>): (r: seq<GrammarAST>)
    requires WellFormed(S) && n in S
    reads S
    decreases n.height + 1, 0, 0
  {
    ChildrenBound(S, n);
    [n] + PreOrderSeq(n.children, S)
  }

  /** The pre-orders of the subtrees rooted at the nodes of `L`, concatenated. */
  ghost function PreOrderSeq(L: seq<GrammarAST>, S: set<GrammarAST>): seq<GrammarAST>
    requires WellFormed(S) && AllIn(L, S)
    reads S
    decreases Bound(L), 1, |L|
  {
    if L == [] then [] else PreOrder(L[0], S) + PreOrderSeq(L[1..], S)
  }

  /** The nodes of `L` whose type is in `types`, in their order in `L`. */
  ghost function Filter(L: seq<GrammarAST>, types: set<int>): (r: seq<GrammarAST>)
    reads L
    decreases |L|
    ensures |r| <= |L|
    ensures forall i :: 0 <= i < |r| ==> r[i] in L && r[i].Type() in types
    ensures forall i :: 0 <= i < |L| && L[i].Type() in types ==> L[i] in r
  {
    if L == [] then []
    else (if L[0].Type() in types then [L[0]] else []) + Filter(L[1..], types)
  }

  /** One step of the work list: visit the head, append its children. */
  lemma BfsStep(L: seq<GrammarAST>, types: set<int>, S: set<GrammarAST>)
    requires WellFormed(S) && AllIn(L, S) && L != []
    ensures AllIn(L[1..] + L[0].children, S)
    ensures SizeSum(L[1..] + L[0].children, S) < SizeSum(L, S)
    ensures Bfs(L, S) == [L[0]] + Bfs(L[1..] + L[0].children, S)
    ensures Filter(Bfs(L, S), types)
         == (if L[0].Type() in types then [L[0]] else []) + Filter(Bfs(L[1..] + L[0].children, S), types)
  {
    ChildrenBound(S, L[0]);
    SizeSumConcat(L[1..], L[0].children, S);
    assert Size(L[0], S) == 1 + SizeSum(L[0].children, S);
    var next := Bfs(L[1..] + L[0].children, S);
    assert ([L[0]] + next)[1..] == next;
  }

  /** The work-list loop keeps `nodes + Filter(Bfs(work))` unchanged. */
  lemma BfsAdvance(nodes: seq<GrammarAST>, L: seq<GrammarAST>, types: set<int>, S: set<GrammarAST>)
    requires WellFormed(S) && AllIn(L, S) && L != []
    ensures AllIn(L[1..] + L[0].children, S)
    ensures SizeSum(L[1..] + L[0].children, S) < SizeSum(L, S)
    ensures (if L[0].Type() in types then nodes + [L[0]] else nodes)
              + Filter(Bfs(L[1..] + L[0].children, S), types)
         == nodes + Filter(Bfs(L, S), types)
  {
    BfsStep(L, types, S);
    var rest := Filter(Bfs(L[1..] + L[0].children, S), types);
    if L[0].Type() in types {
      assert nodes + ([L[0]] + rest) == (nodes + [L[0]]) + rest;
    } else {
      assert [] + rest == rest;
    }
  }

  lemma {:induction false} FilterConcat(A: seq<GrammarAST>, B: seq<GrammarAST>, types: set<int>)
    ensures Filter(A + B, types) == Filter(A, types) + Filter(B, types)
  {
    if A == [] {
      assert A + B == B;
    } else {
      assert (A + B)[1..] == A[1..] + B;
      FilterConcat(A[1..], B, types);
    }
  }

  lemma TakeSnoc<T>(s: seq<T>, i: nat)
    requires i < |s|
    ensures s[..i + 1] == s[..i] + [s[i]]
  {
  }

  /** The first element of `L`, or null. */
  function Head(L: seq<GrammarAST>): GrammarAST?
  {
    if L == [] then null else L[0]
  }
}
