/**
 * Load-time chaining (renpy/ast.py `chain_block` and the `chain` overrides)
 * and in-place rewiring (`replace_next` and its container overrides).
 *
 * The source mutates node objects; here each operation returns the updated
 * tree. Node identity (`is`) is comparison of ids.
 */
module Chaining {
  import opened Wrappers
  import opened Syntax

  /** What element `j` of block `b` is chained to: the next element, or the block's follower. */
  function Successor(b: seq<Stmt>, j: nat, following: Option<NodeId>): Option<NodeId>
    requires j < |b|
  {
    if j + 1 < |b| then Some(b[j + 1].id) else following
  }

  /** `chain_block`: element i is chained to element i+1, the last to `following`. */
  function ChainBlock(block: seq<Stmt>, following: Option<NodeId>): (r: seq<Stmt>)
    ensures |r| == |block|
    ensures forall j :: 0 <= j < |block| ==> r[j] == Chain(block[j], Successor(block, j, following))
    decreases block
  {
    if |block| == 0 then []
    else [Chain(block[0], Successor(block, 0, following))] + ChainBlock(block[1..], following)
  }

  function ChainEntries(entries: seq<Entry<Stmt>>, following: Option<NodeId>): (r: seq<Entry<Stmt>>)
    ensures |r| == |entries|
    ensures forall i :: 0 <= i < |entries| ==>
              r[i] == Entry(entries[i].condition, ChainBlock(entries[i].block, following))
    decreases entries
  {
    if |entries| == 0 then []
    else [Entry(entries[0].condition, ChainBlock(entries[0].block, following))]
         + ChainEntries(entries[1..], following)
  }

  function ChainItems(items: seq<MenuItem<Stmt>>, following: Option<NodeId>): (r: seq<MenuItem<Stmt>>)
    ensures |r| == |items|
    ensures forall i :: 0 <= i < |items| ==>
              r[i].caption == items[i].caption && r[i].condition == items[i].condition
              && (r[i].block.NoBlock? <==> items[i].block.NoBlock?)
    decreases items
  {
    if |items| == 0 then []
    else
      var it := items[0];
      [match it.block
       case Block(b) => it.(block := Block(ChainBlock(b, following)))
       case NoBlock => it]
      + ChainItems(items[1..], following)
  }

  /** The `chain` method of each statement variant. */
  function Chain(s: Stmt, following: Option<NodeId>): (r: Stmt)
    ensures r.id == s.id
    decreases s
  {
    match s.kind
    case Init(b, p) =>
      // The block runs at init time and ends in None; the statement itself continues.
      s.(next := following, kind := Init(ChainBlock(b, None), p))
    case Label(name, b) =>
      if |b| > 0 then Stmt(s.id, Label(name, ChainBlock(b, following)), Some(b[0].id))
      else s.(next := following)
    case While(c, b) =>
      // The body loops back to the while statement.
      s.(next := following, kind := While(c, ChainBlock(b, Some(s.id))))
    case If(es) =>
      s.(next := following, kind := If(ChainEntries(es, following)))
    case Menu(items) =>
      s.(next := following, kind := Menu(ChainItems(items, following)))
    case Jump(_, _, _) => s.(next := None)
    case Return(_) => s.(next := None)
    case Translate(id, lang, alt, b, _) =>
      if |b| > 0 then Stmt(s.id, Translate(id, lang, alt, ChainBlock(b, following), following), Some(b[0].id))
      else Stmt(s.id, Translate(id, lang, alt, b, following), following)
    case TranslateBlock(lang, b) =>
      s.(next := following, kind := TranslateBlock(lang, ChainBlock(b, None)))
    case _ => s.(next := following)
  }

  /** Chaining rewires links and blocks only: the variant and its other fields stay, and a translate's `after` becomes the follower. */
  lemma ChainKeepsFields(s: Stmt, following: Option<NodeId>)
    ensures SameFields(s.kind, Chain(s, following).kind)
    ensures s.kind.Translate? ==> Chain(s, following).kind.after == following
  {
    match s.kind
    case Menu(items) => assert SameItemFields(items, ChainItems(items, following));
    case If(es) => assert |ChainEntries(es, following)| == |es|;
    case _ =>
  }

  /** Where a statement's interior blocks lead once chained. */
  function Follower(s: Stmt, following: Option<NodeId>): Option<NodeId>
  {
    match s.kind
    case While(_, _) => Some(s.id)
    case Init(_, _) => None
    case TranslateBlock(_, _) => None
    case _ => following
  }

  lemma ChainItemsBlocks(items: seq<MenuItem<Stmt>>, following: Option<NodeId>)
    ensures |ItemBlocks(ChainItems(items, following))| == |ItemBlocks(items)|
    ensures forall i :: 0 <= i < |ItemBlocks(items)| ==>
              ItemBlocks(ChainItems(items, following))[i] == ChainBlock(ItemBlocks(items)[i], following)
  {
    if |items| > 0 {
      ChainItemsBlocks(items[1..], following);
      assert ChainItems(items, following)[1..] == ChainItems(items[1..], following);
    }
  }

  /**
   * The `chain` overrides: jump and return drop their successor, label and
   * translate enter a non-empty block, every other statement continues to
   * `following`; a translate block also records `after`.
   */
  lemma ChainNext(s: Stmt, following: Option<NodeId>)
    ensures Chain(s, following).next ==
              (if s.kind.Jump? || s.kind.Return? then None
               else if (s.kind.Label? || s.kind.Translate?) && |s.kind.block| > 0 then Some(s.kind.block[0].id)
               else following)
    ensures s.kind.Translate? ==> Chain(s, following).kind.Translate? && Chain(s, following).kind.after == following
    ensures Chain(s, following).kind.While? <==> s.kind.While?
  {
  }

  /**
   * Each owned block is chained to the statement's `Follower`: the while
   * statement itself, None for init and translate blocks, `following` for
   * the blocks of label, if, menu and translate.
   */
  lemma ChainBlocks(s: Stmt, following: Option<NodeId>)
    ensures |Blocks(Chain(s, following).kind)| == |Blocks(s.kind)|
    ensures forall i :: 0 <= i < |Blocks(s.kind)| ==>
              Blocks(Chain(s, following).kind)[i] == ChainBlock(Blocks(s.kind)[i], Follower(s, following))
  {
    match s.kind
    case Menu(_) => ChainMenuBlocks(s, following);
    case If(_) => ChainIfBlocks(s, following);
    case Init(_, _) => ChainSingleBlock(s, following);
    case Label(_, _) => ChainSingleBlock(s, following);
    case While(_, _) => ChainSingleBlock(s, following);
    case Translate(_, _, _, _, _) => ChainSingleBlock(s, following);
    case TranslateBlock(_, _) => ChainSingleBlock(s, following);
    case _ => assert Blocks(s.kind) == [];
  }

  /** The statements that own exactly one block. */
  lemma ChainSingleBlock(s: Stmt, following: Option<NodeId>)
    requires s.kind.Init? || s.kind.Label? || s.kind.While? || s.kind.Translate? || s.kind.TranslateBlock?
    ensures Blocks(Chain(s, following).kind) == [ChainBlock(s.kind.block, Follower(s, following))]
  {
  }

  lemma ChainIfBlocks(s: Stmt, following: Option<NodeId>)
    requires s.kind.If?
    ensures |Blocks(Chain(s, following).kind)| == |Blocks(s.kind)|
    ensures forall i :: 0 <= i < |Blocks(s.kind)| ==>
              Blocks(Chain(s, following).kind)[i] == ChainBlock(Blocks(s.kind)[i], following)
  {
    var es := s.kind.entries;
    var ces := ChainEntries(es, following);
    assert Chain(s, following).kind == If(ces);
    forall i | 0 <= i < |es|
      ensures Blocks(If(ces))[i] == ChainBlock(Blocks(s.kind)[i], following)
    {
      assert Blocks(s.kind)[i] == es[i].block;
      assert Blocks(If(ces))[i] == ces[i].block;
    }
  }

  lemma ChainMenuBlocks(s: Stmt, following: Option<NodeId>)
    requires s.kind.Menu?
    ensures |Blocks(Chain(s, following).kind)| == |Blocks(s.kind)|
    ensures forall i :: 0 <= i < |Blocks(s.kind)| ==>
              Blocks(Chain(s, following).kind)[i] == ChainBlock(Blocks(s.kind)[i], following)
  {
    assert Chain(s, following).kind == Menu(ChainItems(s.kind.items, following));
    ChainItemsBlocks(s.kind.items, following);
  }

  /** The trees below a statement lie inside the statement's tree. */
  lemma ChildSubtrees(s: Stmt)
    ensures forall i, j :: 0 <= i < |Blocks(s.kind)| && 0 <= j < |Blocks(s.kind)[i]| ==>
              Subtrees(Blocks(s.kind)[i][j]) <= Subtrees(s) && Ids(Blocks(s.kind)[i][j]) <= Ids(s)
  {
    forall i, j | 0 <= i < |Blocks(s.kind)| && 0 <= j < |Blocks(s.kind)[i]|
      ensures Subtrees(Blocks(s.kind)[i][j]) <= Subtrees(s) && Ids(Blocks(s.kind)[i][j]) <= Ids(s)
    {
      ChildSubtreesAt(s, i, j);
    }
  }

  /** The tree of one child lies inside the statement's tree. */
  lemma ChildSubtreesAt(s: Stmt, i: nat, j: nat)
    requires i < |Blocks(s.kind)| && j < |Blocks(s.kind)[i]|
    ensures Subtrees(Blocks(s.kind)[i][j]) <= Subtrees(s) && Ids(Blocks(s.kind)[i][j]) <= Ids(s)
  {
    var c := Blocks(s.kind)[i][j];
    forall t | t in Subtrees(c) ensures t in Subtrees(s) { }
  }

  /** A statement of a chained tree is its root or lies in the chained tree of one of the root's children. */
  lemma SubtreesOfChain(s: Stmt, following: Option<NodeId>, t: Stmt)
    requires t in Subtrees(Chain(s, following))
    ensures t == Chain(s, following) ||
            exists i, j :: 0 <= i < |Blocks(s.kind)| && 0 <= j < |Blocks(s.kind)[i]| &&
              t in Subtrees(Chain(Blocks(s.kind)[i][j], Successor(Blocks(s.kind)[i], j, Follower(s, following))))
  {
    var r := Chain(s, following);
    ChainBlocks(s, following);
    if t != r {
      var rbs := Blocks(r.kind);
      var i, j :| 0 <= i < |rbs| && 0 <= j < |rbs[i]| && t in Subtrees(rbs[i][j]);
      assert rbs[i][j] == Chain(Blocks(s.kind)[i][j], Successor(Blocks(s.kind)[i], j, Follower(s, following)));
    }
  }

  /**
   * No dangling chains: after `Chain(s, following)`, every link of every
   * statement in the tree is None, `following`, or the address of a
   * statement of the same tree.
   */
  lemma {:induction false} NoDanglingLinks(s: Stmt, following: Option<NodeId>)
    ensures forall t, x :: t in Subtrees(Chain(s, following)) && x in Targets(t) ==>
              x == None || x == following || (x.Some? && x.value in Ids(s))
    decreases s
  {
    var bs := Blocks(s.kind);
    var g := Follower(s, following);
    forall i, j | 0 <= i < |bs| && 0 <= j < |bs[i]|
      ensures LinksWithinChained(bs[i][j], Successor(bs[i], j, g))
    {
      BlocksRank(s);
      NoDanglingLinks(bs[i][j], Successor(bs[i], j, g));
    }
    forall t, x | t in Subtrees(Chain(s, following)) && x in Targets(t)
      ensures x == None || x == following || (x.Some? && x.value in Ids(s))
    {
      SubtreesOfChain(s, following, t);
      if t == Chain(s, following) {
        RootLinksWithin(s, following, x);
      } else {
        ChildLinksWithin(s, following, t, x);
      }
    }
  }

  /** Every link in the chained tree of `s` is None, `following`, or an address of `s`'s tree. */
  ghost predicate LinksWithinChained(s: Stmt, following: Option<NodeId>)
  {
    forall t, x :: t in Subtrees(Chain(s, following)) && x in Targets(t) ==>
      x == None || x == following || (x.Some? && x.value in Ids(s))
  }

  /** The chained root links to None, `following`, or the head of its own block. */
  lemma RootLinksWithin(s: Stmt, following: Option<NodeId>, x: Option<NodeId>)
    requires x in Targets(Chain(s, following))
    ensures x == None || x == following || (x.Some? && x.value in Ids(s))
  {
    ChainNext(s, following);
    if (s.kind.Label? || s.kind.Translate?) && |s.kind.block| > 0 {
      ChildSubtrees(s);
      assert Blocks(s.kind)[0][0] == s.kind.block[0];
      assert s.kind.block[0] in Subtrees(s.kind.block[0]);
    }
  }

  /** A link inside a chained child tree stays inside the owner's tree or goes to `following`. */
  lemma ChildLinksWithin(s: Stmt, following: Option<NodeId>, t: Stmt, x: Option<NodeId>)
    requires forall i, j :: 0 <= i < |Blocks(s.kind)| && 0 <= j < |Blocks(s.kind)[i]| ==>
               LinksWithinChained(Blocks(s.kind)[i][j], Successor(Blocks(s.kind)[i], j, Follower(s, following)))
    requires x in Targets(t)
    requires exists i, j :: 0 <= i < |Blocks(s.kind)| && 0 <= j < |Blocks(s.kind)[i]| &&
               t in Subtrees(Chain(Blocks(s.kind)[i][j], Successor(Blocks(s.kind)[i], j, Follower(s, following))))
    ensures x == None || x == following || (x.Some? && x.value in Ids(s))
  {
    var bs := Blocks(s.kind);
    var g := Follower(s, following);
    var i, j :| 0 <= i < |bs| && 0 <= j < |bs[i]| && t in Subtrees(Chain(bs[i][j], Successor(bs[i], j, g)));
    assert LinksWithinChained(bs[i][j], Successor(bs[i], j, g));
    ChildSubtrees(s);
    assert s in Subtrees(s);
    if j + 1 < |bs[i]| {
      assert bs[i][j + 1] in Subtrees(bs[i][j + 1]);
    }
  }

  /** The subtrees of a statement's subtrees are its own subtrees. */
  lemma {:induction false} SubtreesTransitive(s: Stmt, t: Stmt)
    requires t in Subtrees(s)
    ensures Subtrees(t) <= Subtrees(s)
    decreases s
  {
    if t != s {
      var bs := Blocks(s.kind);
      BlocksRank(s);
      var i, j :| 0 <= i < |bs| && 0 <= j < |bs[i]| && t in Subtrees(bs[i][j]);
      SubtreesTransitive(bs[i][j], t);
      ChildSubtrees(s);
    }
  }

  /** Chaining keeps the addresses of every child tree: the induction hypothesis of `ChainKeepsIds`. */
  ghost predicate ChildIdsKept(s: Stmt, following: Option<NodeId>)
  {
    var bs := Blocks(s.kind);
    forall i, j :: 0 <= i < |bs| && 0 <= j < |bs[i]| ==>
      Ids(Chain(bs[i][j], Successor(bs[i], j, Follower(s, following)))) == Ids(bs[i][j])
  }

  /** An address of the chained tree is an address of the original one. */
  lemma ChainedIdOriginal(s: Stmt, following: Option<NodeId>, x: NodeId)
    requires ChildIdsKept(s, following)
    requires x in Ids(Chain(s, following))
    ensures x in Ids(s)
  {
    var r := Chain(s, following);
    var bs := Blocks(s.kind);
    var g := Follower(s, following);
    var t :| t in Subtrees(r) && t.id == x;
    SubtreesOfChain(s, following, t);
    if t == r {
      assert s in Subtrees(s);
    } else {
      var i, j :| 0 <= i < |bs| && 0 <= j < |bs[i]| && t in Subtrees(Chain(bs[i][j], Successor(bs[i], j, g)));
      assert x in Ids(Chain(bs[i][j], Successor(bs[i], j, g)));
      assert x in Ids(bs[i][j]);
      ChildSubtreesAt(s, i, j);
    }
  }

  /** An address of the original tree is an address of the chained one. */
  lemma OriginalIdChained(s: Stmt, following: Option<NodeId>, x: NodeId)
    requires ChildIdsKept(s, following)
    requires x in Ids(s)
    ensures x in Ids(Chain(s, following))
  {
    var r := Chain(s, following);
    var bs := Blocks(s.kind);
    var g := Follower(s, following);
    var t :| t in Subtrees(s) && t.id == x;
    if t == s {
      assert r in Subtrees(r);
    } else {
      var i, j :| 0 <= i < |bs| && 0 <= j < |bs[i]| && t in Subtrees(bs[i][j]);
      assert x in Ids(bs[i][j]);
      var c := Chain(bs[i][j], Successor(bs[i], j, g));
      assert x in Ids(c);
      ChainBlocks(s, following);
      assert Blocks(r.kind)[i][j] == c;
      ChildSubtreesAt(r, i, j);
    }
  }

  /** Chaining rewires links but keeps every address of the tree. */
  lemma {:induction false} ChainKeepsIds(s: Stmt, following: Option<NodeId>)
    ensures Ids(Chain(s, following)) == Ids(s)
    decreases s
  {
    var bs := Blocks(s.kind);
    var g := Follower(s, following);
    forall i, j | 0 <= i < |bs| && 0 <= j < |bs[i]|
      ensures Ids(Chain(bs[i][j], Successor(bs[i], j, g))) == Ids(bs[i][j])
    {
      BlocksRank(s);
      ChainKeepsIds(bs[i][j], Successor(bs[i], j, g));
    }
    forall x | x in Ids(Chain(s, following)) ensures x in Ids(s) {
      ChainedIdOriginal(s, following, x);
    }
    forall x | x in Ids(s) ensures x in Ids(Chain(s, following)) {
      OriginalIdChained(s, following, x);
    }
  }

  /** A child's successor inside its block never points into the child's own tree. */
  lemma SuccessorOutside(s: Stmt, following: Option<NodeId>, i: nat, j: nat)
    requires LocallyUnique(s)
    requires following == None || following.value !in Ids(s)
    requires i < |Blocks(s.kind)| && j < |Blocks(s.kind)[i]|
    ensures var b := Blocks(s.kind)[i];
            var gj := Successor(b, j, Follower(s, following));
            && (gj == None || gj.value !in Ids(b[j]))
            && (gj == Some(s.id) ==> s.kind.While?)
  {
    var bs := Blocks(s.kind);
    ChildSubtrees(s);
    assert s in Subtrees(s);
    assert bs[i][j] in Subtrees(bs[i][j]);
    if j + 1 < |bs[i]| {
      assert bs[i][j + 1] in Subtrees(bs[i][j + 1]);
      assert Ids(bs[i][j]) !! Ids(bs[i][j + 1]);
    }
  }

  /** Only a while statement is linked to from inside its own chained tree. */
  lemma RootLinkedOnlyIfWhile(s: Stmt, following: Option<NodeId>, u: Stmt)
    requires LocallyUnique(s)
    requires following == None || following.value !in Ids(s)
    requires u in Subtrees(Chain(s, following)) && Some(s.id) in Targets(u)
    ensures s.kind.While?
  {
    var bs := Blocks(s.kind);
    var g := Follower(s, following);
    assert s in Subtrees(s);
    SubtreesOfChain(s, following, u);
    if u == Chain(s, following) {
      ChainNext(s, following);
    } else {
      var i, j :| 0 <= i < |bs| && 0 <= j < |bs[i]| && u in Subtrees(Chain(bs[i][j], Successor(bs[i], j, g)));
      ChildLinkedToRoot(s, following, i, j, u);
    }
  }

  lemma ChildLinkedToRoot(s: Stmt, following: Option<NodeId>, i: nat, j: nat, u: Stmt)
    requires LocallyUnique(s)
    requires following == None || following.value !in Ids(s)
    requires i < |Blocks(s.kind)| && j < |Blocks(s.kind)[i]|
    requires var b := Blocks(s.kind)[i];
             u in Subtrees(Chain(b[j], Successor(b, j, Follower(s, following)))) && Some(s.id) in Targets(u)
    ensures s.kind.While?
  {
    var b := Blocks(s.kind)[i];
    NoDanglingLinks(b[j], Successor(b, j, Follower(s, following)));
    SuccessorOutside(s, following, i, j);
  }

  /**
   * Back-edges only where intended: in a chained tree with distinct
   * addresses, a statement is the target of a link from inside its own tree
   * only when it is a while loop (its body's last statement loops back).
   */
  lemma {:induction false} BackLinksOnlyToWhile(s: Stmt, following: Option<NodeId>)
    requires UniqueIds(s)
    requires following == None || following.value !in Ids(s)
    ensures forall t, u :: t in Subtrees(Chain(s, following)) && u in Subtrees(t) && Some(t.id) in Targets(u) ==>
              t.kind.While?
    decreases s
  {
    var r := Chain(s, following);
    var bs := Blocks(s.kind);
    var g := Follower(s, following);
    BlocksRank(s);
    assert s in Subtrees(s);
    forall t, u | t in Subtrees(r) && u in Subtrees(t) && Some(t.id) in Targets(u)
      ensures t.kind.While?
    {
      if t == r {
        RootLinkedOnlyIfWhile(s, following, u);
        ChainNext(s, following);
      } else {
        SubtreesOfChain(s, following, t);
        var i, j :| 0 <= i < |bs| && 0 <= j < |bs[i]| && t in Subtrees(Chain(bs[i][j], Successor(bs[i], j, g)));
        SuccessorOutside(s, following, i, j);
        ChildSubtrees(s);
        assert Subtrees(bs[i][j]) <= Subtrees(s);
        BackLinksOnlyToWhile(bs[i][j], Successor(bs[i], j, g));
      }
    }
  }

  /** A container's `block.insert(0, new)` when the block starts with `old`. */
  function InsertBeforeHead(b: seq<Stmt>, oldNode: NodeId, newNode: Stmt): (r: seq<Stmt>)
    ensures |b| > 0 && b[0].id == oldNode ==> r == [newNode] + b
    ensures !(|b| > 0 && b[0].id == oldNode) ==> r == b
  {
    if |b| > 0 && b[0].id == oldNode then [newNode] + b else b
  }

  function ReplaceInItems(items: seq<MenuItem<Stmt>>, oldNode: NodeId, newNode: Stmt): (r: seq<MenuItem<Stmt>>)
    ensures |ItemBlocks(r)| == |ItemBlocks(items)|
    ensures forall i :: 0 <= i < |ItemBlocks(items)| ==>
              ItemBlocks(r)[i] == InsertBeforeHead(ItemBlocks(items)[i], oldNode, newNode)
  {
    if |items| == 0 then []
    else
      var it := items[0];
      var rest := ReplaceInItems(items[1..], oldNode, newNode);
      var head := match it.block
                  case Block(b) => it.(block := Block(InsertBeforeHead(b, oldNode, newNode)))
                  case NoBlock => it;
      assert ([head] + rest)[1..] == rest;
      [head] + rest
  }

  /** The kinds whose `replace_next` override also rewrites the heads of their blocks. */
  predicate RewritesHeads<B>(k: Kind<B>)
  {
    k.While? || k.If? || k.Menu? || k.Translate?
  }

  /**
   * `replace_next(old, new)`: a `next` (or a translate block's `after`) equal
   * to `old` becomes `new`; while, if, menu and translate additionally insert
   * `new` in front of every owned block that starts with `old`. Other
   * statements, label and init included, leave their blocks alone.
   */
  function ReplaceNext(s: Stmt, oldNode: NodeId, newNode: Stmt): (r: Stmt)
    ensures r.id == s.id
    ensures r.next == (if s.next == Some(oldNode) then Some(newNode.id) else s.next)
    ensures newNode.id != oldNode ==> Some(oldNode) !in Targets(r)
    ensures Targets(r) <= Targets(s) + {Some(newNode.id)}
    ensures |Blocks(r.kind)| == |Blocks(s.kind)|
    ensures forall i :: 0 <= i < |Blocks(s.kind)| ==>
              Blocks(r.kind)[i] == (if RewritesHeads(s.kind) then InsertBeforeHead(Blocks(s.kind)[i], oldNode, newNode)
                                    else Blocks(s.kind)[i])
  {
    var s1 := if s.next == Some(oldNode) then s.(next := Some(newNode.id)) else s;
    match s.kind
    case While(c, b) => s1.(kind := While(c, InsertBeforeHead(b, oldNode, newNode)))
    case If(es) =>
      s1.(kind := If(seq(|es|, i requires 0 <= i < |es| =>
                           Entry(es[i].condition, InsertBeforeHead(es[i].block, oldNode, newNode)))))
    case Menu(items) => s1.(kind := Menu(ReplaceInItems(items, oldNode, newNode)))
    case Translate(id, lang, alt, b, after) =>
      s1.(kind := Translate(id, lang, alt, InsertBeforeHead(b, oldNode, newNode),
                            if after == Some(oldNode) then Some(newNode.id) else after))
    case _ => s1
  }

  /**
   * Rewiring changes links and block heads only: the variant and its other
   * fields stay, and a translate's `after` becomes the new node exactly when
   * it was the old one.
   */
  lemma ReplaceNextKeepsFields(s: Stmt, oldNode: NodeId, newNode: Stmt)
    ensures SameFields(s.kind, ReplaceNext(s, oldNode, newNode).kind)
    ensures s.kind.Translate? ==>
              ReplaceNext(s, oldNode, newNode).kind.after
              == (if s.kind.after == Some(oldNode) then Some(newNode.id) else s.kind.after)
  {
    match s.kind
    case Menu(items) => ReplaceItemsKeepFields(items, oldNode, newNode);
    case _ =>
  }

  lemma {:induction false} ReplaceItemsKeepFields(items: seq<MenuItem<Stmt>>, oldNode: NodeId, newNode: Stmt)
    ensures SameItemFields(items, ReplaceInItems(items, oldNode, newNode))
  {
    if |items| > 0 {
      ReplaceItemsKeepFields(items[1..], oldNode, newNode);
      var r := ReplaceInItems(items, oldNode, newNode);
      assert r[1..] == ReplaceInItems(items[1..], oldNode, newNode);
      assert forall i :: 1 <= i < |items| ==> r[i] == r[1..][i - 1] && items[i] == items[1..][i - 1];
    }
  }

  /** Rewiring twice is rewiring once, as long as the new node is not the old one. */
  lemma ReplaceNextIdempotent(s: Stmt, oldNode: NodeId, newNode: Stmt)
    requires newNode.id != oldNode
    ensures ReplaceNext(ReplaceNext(s, oldNode, newNode), oldNode, newNode) == ReplaceNext(s, oldNode, newNode)
  {
    var r := ReplaceNext(s, oldNode, newNode);
    match s.kind
    case Menu(items) => ReplaceItemsIdempotent(items, oldNode, newNode);
    case _ =>
  }

  lemma {:induction false} ReplaceItemsIdempotent(items: seq<MenuItem<Stmt>>, oldNode: NodeId, newNode: Stmt)
    requires newNode.id != oldNode
    ensures ReplaceInItems(ReplaceInItems(items, oldNode, newNode), oldNode, newNode) == ReplaceInItems(items, oldNode, newNode)
  {
    if |items| > 0 {
      ReplaceItemsIdempotent(items[1..], oldNode, newNode);
      assert ReplaceInItems(items, oldNode, newNode)[1..] == ReplaceInItems(items[1..], oldNode, newNode);
    }
  }

  /** A statement that neither links to the old node nor starts a block with it is left as it is. */
  lemma ReplaceNextUnrelated(s: Stmt, oldNode: NodeId, newNode: Stmt)
    requires Some(oldNode) !in Targets(s)
    requires forall i :: 0 <= i < |Blocks(s.kind)| && |Blocks(s.kind)[i]| > 0 ==> Blocks(s.kind)[i][0].id != oldNode
    ensures ReplaceNext(s, oldNode, newNode) == s
  {
    match s.kind
    case Menu(items) =>
      assert Blocks(s.kind) == ItemBlocks(items);
      ReplaceItemsUnrelated(items, oldNode, newNode);
    case If(es) =>
      assert forall i :: 0 <= i < |es| ==> Blocks(s.kind)[i] == es[i].block;
      var es' := seq(|es|, i requires 0 <= i < |es| => Entry(es[i].condition, InsertBeforeHead(es[i].block, oldNode, newNode)));
      assert es' == es;
    case While(c, b) =>
      assert Blocks(s.kind)[0] == b;
    case Translate(_, _, _, b, _) =>
      assert Blocks(s.kind)[0] == b;
    case _ =>
  }

  lemma {:induction false} ReplaceItemsUnrelated(items: seq<MenuItem<Stmt>>, oldNode: NodeId, newNode: Stmt)
    requires forall i :: 0 <= i < |ItemBlocks(items)| && |ItemBlocks(items)[i]| > 0 ==> ItemBlocks(items)[i][0].id != oldNode
    ensures ReplaceInItems(items, oldNode, newNode) == items
  {
    if |items| > 0 {
      match items[0].block {
        case Block(b) =>
          assert ItemBlocks(items) == [b] + ItemBlocks(items[1..]);
          assert forall i :: 0 <= i < |ItemBlocks(items[1..])| ==> ItemBlocks(items[1..])[i] == ItemBlocks(items)[i + 1];
          assert ItemBlocks(items)[0] == b;
        case NoBlock =>
          assert ItemBlocks(items) == ItemBlocks(items[1..]);
      }
      ReplaceItemsUnrelated(items[1..], oldNode, newNode);
      assert items == [items[0]] + items[1..];
    }
  }
}
