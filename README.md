# GrammarAST: a verified model of ANTLR's grammar syntax-tree node

This project models `GrammarAST`. It is the mutable node of the syntax tree
that the ANTLR 4 tool builds for a grammar. Each node holds:

- a token payload: type, text, line, column, token index and input stream;
- an ordered list of children;
- a link to its parent;
- a cached child index: its own position in the parent's children.

The model covers three groups of operations:

- **Structural edits.** `insertChild` and `deleteChild(Tree)` change the
  children list in place. They re-derive the parent link and child index of
  every child they move.
- **Queries.**
  - `getNodesWithType` is a breadth-first search driven by a work queue.
  - `getAllChildrenWithType` filters the direct children.
  - `getFirstDescendantWithType` is a recursive pre-order search.
  - `getOutermostAltNode` climbs the parent links.
  - `toTokenString` renders the node stream of a tree.
- **Payload edits and construction.** `setType`, `setText`, `dupNode` and
  the six constructors.

Files:

- `wrappers.dfy`: `Option`, plus `Result`, which models Java calls that throw
  (`NullPointerException`, `IndexOutOfBoundsException`).
- `tokens.dfy`: the token payload as a value, with the `EOF` and
  invalid-type constants.
- `node_stream.dfy`: the flat node stream that `toTokenString` reads, and the
  string it renders.
- `grammar_ast.dfy`: the class `GrammarAST`, its methods, and the tree
  invariant.
  - The tree invariant is `WellFormed(S)`, defined over a ghost set `S` of
    nodes: every child of a node in `S` is in `S`, has that node as parent,
    and has its position as child index.
  - A ghost rank (`height`) grows strictly along every parent link. It
    witnesses that the structure is acyclic.
  - It also holds the reference orders: level order (`Levels`), the
    first-in first-out work-list order (`Bfs`) and pre-order (`PreOrder`).
- `grammar_ast_queries.dfy`: what each query returns, stated against those
  reference orders and against the parent chain (`Ancestors`).

The `AltAST` and `RuleAST` subclasses appear only as a node kind
(`Kind.Alt`, `Kind.Rule`). That is all `getOutermostAltNode` asks of them.

Two behaviours of the code are modelled as written:

- `getFirstDescendantWithType` returns the node itself when the node
  matches. The TODO comments above both overloads (GrammarAST.java:138 and
  :152) say it should not include this node, but the code does (:141, :154).
- `getOutermostAltNode` throws a `NullPointerException` when it reaches an
  `AltAST` without a parent. The test at :106 dereferences `parent.parent`
  whenever the node is an `AltAST`.

## Model

| member | source | states |
|---|---|---|
| Tokens.NewToken | tool/src/org/antlr/v4/tool/ast/GrammarAST.java:61-63 | a token built from a type and a text carries exactly that type and text and no input stream |
| Tokens.WithProvenance | tool/src/org/antlr/v4/tool/ast/GrammarAST.java:62-75 | the token has the given type and text; its input stream, line, column and token index are copied from the reference token |
| GrammarAst.GrammarAST.Empty | tool/src/org/antlr/v4/tool/ast/GrammarAST.java:58 | a node without a token, without children (null list), without a parent and with child index -1 |
| GrammarAst.GrammarAST.FromToken | tool/src/org/antlr/v4/tool/ast/GrammarAST.java:59 | a detached node with a null children list and child index -1, carrying the given token |
| GrammarAst.GrammarAST.Copy | tool/src/org/antlr/v4/tool/ast/GrammarAST.java:60 | a detached node with a null children list and child index -1, carrying the original's token |
| GrammarAst.GrammarAST.OfType | tool/src/org/antlr/v4/tool/ast/GrammarAST.java:61 | an imaginary node whose token has the given type and, as text, that type's name from the token-name table; detached, null children list, child index -1 |
| GrammarAst.GrammarAST.Imaginary | tool/src/org/antlr/v4/tool/ast/GrammarAST.java:62-68 | the node's token has the given type and the reference token's text, input stream, line, column and token index; detached, null children list, child index -1 |
| GrammarAst.GrammarAST.ImaginaryWithText | tool/src/org/antlr/v4/tool/ast/GrammarAST.java:69-75 | as above, but with the given text in place of the reference token's text; detached, null children list, child index -1 |
| GrammarAst.GrammarAST.DupNode | tool/src/org/antlr/v4/tool/ast/GrammarAST.java:189-191 | a fresh plain node with the same token, a null children list (so a later deleteChild on it throws NullPointerException), no parent and child index -1 |
| GrammarAst.GrammarAST.SetType | tool/src/org/antlr/v4/tool/ast/GrammarAST.java:165-167 | throws NullPointerException when there is no token; otherwise only the token's type changes, and children, parent and child index are untouched |
| GrammarAst.GrammarAST.SetText | tool/src/org/antlr/v4/tool/ast/GrammarAST.java:178-181 | throws NullPointerException when there is no token; otherwise only the token's text changes, and children, parent and child index are untouched |
| GrammarAst.GrammarAST.ToTokenString | tool/src/org/antlr/v4/tool/ast/GrammarAST.java:200-216 | throws NullPointerException when the node has no token; otherwise the loop returns exactly `Render(stream)`, which is a space and the text of each node before the first EOF node |
| NodeStream.RenderIsSpacedTexts | tool/src/org/antlr/v4/tool/ast/GrammarAST.java:205-213 | the rendered string is the texts of the nodes before the first EOF, each preceded by one space |
| NodeStream.RenderStopsAtEof | tool/src/org/antlr/v4/tool/ast/GrammarAST.java:207-213 | nothing after the first EOF node reaches the string |
| NodeStream.RenderConcat | tool/src/org/antlr/v4/tool/ast/GrammarAST.java:207-213 | rendering an EOF-free prefix and then the rest gives the two renderings concatenated |
| NodeStream.RenderLength | tool/src/org/antlr/v4/tool/ast/GrammarAST.java:207-213 | each node before the first EOF adds one space and its text, nothing more |
| NodeStream.RenderFrom | tool/src/org/antlr/v4/tool/ast/GrammarAST.java:207-213 | one loop step: the look-ahead (an EOF node past the end) either ends the string or contributes a space and its text |
| GrammarAst.GrammarAST.GetAllChildrenWithType | tool/src/org/antlr/v4/tool/ast/GrammarAST.java:81-90 | the result is the direct children of the given type, in child order; a node is in it exactly when it is a child with that type (empty for a null children list) |
| GrammarAst.GrammarAST.GetNodesWithTypes | tool/src/org/antlr/v4/tool/ast/GrammarAST.java:92-103 | the work-queue loop returns the work-list visiting order filtered by `types`; this node comes first when it matches |
| GrammarAst.GrammarAST.GetNodesWithType | tool/src/org/antlr/v4/tool/ast/GrammarAST.java:77-79 | the single-type overload is the set version on the singleton set, with this node first when it matches |
| GrammarAstQueries.BfsIsLevelOrder | tool/src/org/antlr/v4/tool/ast/GrammarAST.java:94-101 | the first-in first-out work list visits the tree level by level |
| GrammarAstQueries.BfsAppend | tool/src/org/antlr/v4/tool/ast/GrammarAST.java:97-101 | draining a queue `L + M` visits `L`, then drains `M` followed by the children of `L` |
| GrammarAstQueries.NodesWithTypesAreLevelOrderMatches | tool/src/org/antlr/v4/tool/ast/GrammarAST.java:92-103 | getNodesWithType's result is the matching nodes in level order, and it holds the same nodes as the matching nodes of the subtree in pre-order |
| GrammarAstQueries.NodesWithTypesExactlyOnce | tool/src/org/antlr/v4/tool/ast/GrammarAST.java:92-103 | every node of the subtree whose type is in `types` occurs exactly once in the result; no other node occurs |
| GrammarAstQueries.LevelsPermutePreOrder | tool/src/org/antlr/v4/tool/ast/GrammarAST.java:92-103 | level order and pre-order list the same nodes, each equally often |
| GrammarAstQueries.PreOrderDistinct | tool/src/org/antlr/v4/tool/ast/GrammarAST.java:130-134 | because children carry their parent and index, no node occurs twice in a subtree's pre-order |
| GrammarAstQueries.SubtreesOfChildren | tool/src/org/antlr/v4/tool/ast/GrammarAST.java:130-134 | the subtrees of two different children of a node share no node |
| GrammarAstQueries.SubtreeOnChain | tool/src/org/antlr/v4/tool/ast/GrammarAST.java:105-111 | a node in the subtree rooted at `c` has `c` on its parent chain |
| GrammarAstQueries.AncestorsIncrease | tool/src/org/antlr/v4/tool/ast/GrammarAST.java:105-111 | the parent chain strictly climbs in rank, so the upward walk ends |
| GrammarAst.GrammarAST.GetFirstDescendantWithTypes | tool/src/org/antlr/v4/tool/ast/GrammarAST.java:153-163 | a non-null result is a node of the tree whose type is in `types`; when this node's type is in `types` the result is this node |
| GrammarAst.GrammarAST.FirstAmongChildren | tool/src/org/antlr/v4/tool/ast/GrammarAST.java:156-162 | the loop over the children from position `i` returns null or a node whose type is in `types` |
| GrammarAst.GrammarAST.GetFirstDescendantWithType | tool/src/org/antlr/v4/tool/ast/GrammarAST.java:140-150 | a non-null result has the given type; this node is returned when it has the type |
| GrammarAstQueries.FirstDescendantIsFirstInPreOrder | tool/src/org/antlr/v4/tool/ast/GrammarAST.java:153-163 | the result is the first node, in left-to-right pre-order of the subtree including this node, whose type is in `types`; null when there is none |
| GrammarAstQueries.FirstAmongIsFirstInPreOrder | tool/src/org/antlr/v4/tool/ast/GrammarAST.java:156-162 | the child loop from position `i` returns the first match in the pre-order of the children from `i` on |
| GrammarAstQueries.FirstDescendantWithTypeIsFirstInPreOrder | tool/src/org/antlr/v4/tool/ast/GrammarAST.java:140-150 | the single-type overload returns the first node of that type in pre-order, or null |
| GrammarAst.GrammarAST.GetOutermostAltNode | tool/src/org/antlr/v4/tool/ast/GrammarAST.java:105-111 | a non-null result is an AltAST node of the tree |
| GrammarAst.GrammarAST.Ancestors | tool/src/org/antlr/v4/tool/ast/GrammarAST.java:109 | the chain starts at this node, follows parent links, and ends at a node without a parent |
| GrammarAstQueries.OutermostAltIsNearestOnChain | tool/src/org/antlr/v4/tool/ast/GrammarAST.java:105-111 | a non-null result is the first node of the parent chain that is an AltAST with a RuleAST grandparent |
| GrammarAstQueries.OutermostAltFailsAtAltRoot | tool/src/org/antlr/v4/tool/ast/GrammarAST.java:105-111 | null exactly when no node of the chain qualifies and the root is not an AltAST; NullPointerException exactly when none qualifies and the root is an AltAST |
| GrammarAstQueries.QualifiesHere | tool/src/org/antlr/v4/tool/ast/GrammarAST.java:106 | the test at the start of the method holds exactly when the first node of the chain qualifies |
| GrammarAst.GrammarAST.InsertChild | tool/src/org/antlr/v4/tool/ast/GrammarAST.java:126-135 | IndexOutOfBoundsException exactly when `i < 0` or `i > getChildCount()`, leaving children and indexes unchanged; otherwise the list becomes `old[..i] + [t] + old[i..]`, `t` gets this node as parent and `i` as index, every child has its position as index, and the tree invariant is kept |
| GrammarAst.GrammarAST.AddChildAt | tool/src/org/antlr/v4/tool/ast/GrammarAST.java:130-134 | creates the list when it is null, splices `t` in at `i`, and leaves every child with this node as parent and its position as index |
| GrammarAst.GrammarAST.DeleteChild | tool/src/org/antlr/v4/tool/ast/GrammarAST.java:113-122 | NullPointerException exactly when the children list is null; otherwise true exactly when `t` is one of the children (by identity), in which case the child at `t`'s index is removed, the others keep their order and have their positions as indexes; on false the list is unchanged; the invariant is kept, and `t`'s parent link and child index are not cleared |
| GrammarAst.GrammarAST.RemoveChildAt | tool/src/org/antlr/v4/tool/ast/GrammarAST.java:117 | removes the child at `i`, keeps the others in order and re-derives their parent and index; the removed child keeps its parent and index |
| GrammarAst.GrammarAST.FreshenParentAndChildIndexes | tool/src/org/antlr/v4/tool/ast/GrammarAST.java:134 | every child from `offset` on gets its position as index and this node as parent; children before `offset` are untouched |
| GrammarAst.AdmitNewNode | tool/src/org/antlr/v4/tool/ast/GrammarAST.java:58-75 | a newly built node joins a well-formed tree, keeps the invariant, and meets insertChild's demands for every node already in the tree |

## Left out

- `dupTree` is left out. It delegates to the tree adaptor's copy, which is not part of this model.
- `visit` is left out. It dispatches to an external visitor.
- The fields `g`, `atnState` and `textOverride` have no behaviour here and are left out.
- The base tree classes (`CommonTree`, `BaseTree`) are not part of this model.
  - `getChildCount`, `createChildrenList`, `freshenParentAndChildIndexes` and `deleteChild(int)` are modelled by their usual behaviour in the ANTLR 3 runtime. `getType` gives the invalid type (0) for a node without a token.
  - The start and stop token indexes of `CommonTree`, and the token channel, are not modelled.
- The tree node stream that `toTokenString` walks, with its DOWN, UP and EOF navigation nodes, is not part of this model. The method takes the stream as a sequence of (type, text) entries.
- Character streams are not modelled. A token's input stream is an opaque identifier.
- `IntervalSet` and `BitSet` are both modelled as a set of integers. A `BitSet` never reports a negative type as a member, but a set may hold one.
- The parser's token-name table is a function parameter. An out-of-range type, which makes the table lookup throw, is not modelled.
- Java's 32-bit `int` is not modelled: indexes and child counts are unbounded. Stack overflow in the recursive searches is not modelled either.
- GrammarAst.GrammarAST.DupNode: the token is a value, so the copy does not share the original's token object. A later `setType` or `setText` on one node therefore does not show through the other, as it would in the runtime, where both nodes share the token.
- GrammarAst.GrammarAST.Copy: the same token-sharing difference as `DupNode` applies.
- GrammarAst.GrammarAST.FromToken: the node stores the caller's token as a value. In the runtime it keeps a reference to that token object, which the token stream and every other node built from it also see.
- GrammarAst.GrammarAST.SetType: it changes only this node's token value. In the runtime it changes the shared token object, so the token stream and every other node holding that token see the new type.
- GrammarAst.GrammarAST.SetText: it changes only this node's token value. In the runtime it changes the shared token object, so the token stream and every other node holding that token see the new text. The comment beside `setText` (:179-180) notes this sharing.
- GrammarAst.GrammarAST.InsertChild: it requires that `t` is in no children list and is not this node or one of its ancestors. Otherwise inserting would break the tree shape. The code inserts whatever it is given and does not detach `t` from an earlier parent.
- GrammarAst.GrammarAST.DeleteChild: it requires the tree invariant, so `t`'s cached child index is correct. With a stale index the code would remove a different child.
- The ghost rank `height` exists only to prove termination and acyclicity. It has no counterpart in the code.
