/**
 * Loading: the parsed and chained statement tree becomes the runtime node
 * arena that reachability and execution work on (renpy/ast.py `chain_block`
 * applied to a file's statements, each node then found by its address).
 */
module Load {
  import opened Wrappers
  import opened Syntax
  import opened Chaining
  import opened Reachable

  /** The addresses of a block, in order. */
  function IdsOf(b: seq<Stmt>): (r: seq<NodeId>)
    ensures |r| == |b|
    ensures forall j :: 0 <= j < |b| ==> r[j] == b[j].id
  {
    seq(|b|, j requires 0 <= j < |b| => b[j].id)
  }

  function ItemsByAddress(items: seq<MenuItem<Stmt>>): (r: seq<MenuItem<NodeId>>)
    ensures SameItemFields(items, r)
    ensures |ItemBlocks(r)| == |ItemBlocks(items)|
    ensures forall i :: 0 <= i < |ItemBlocks(items)| ==> ItemBlocks(r)[i] == IdsOf(ItemBlocks(items)[i])
  {
    if |items| == 0 then []
    else
      var it := items[0];
      var rest := ItemsByAddress(items[1..]);
      var head := match it.block
                  case Block(b) => MenuItem(it.caption, it.condition, Block(IdsOf(b)))
                  case NoBlock => MenuItem(it.caption, it.condition, NoBlock);
      assert ([head] + rest)[1..] == rest;
      [head] + rest
  }

  function EntriesByAddress(es: seq<Entry<Stmt>>): (r: seq<Entry<NodeId>>)
    ensures |r| == |es|
    ensures forall i :: 0 <= i < |es| ==> r[i].condition == es[i].condition && r[i].block == IdsOf(es[i].block)
  {
    seq(|es|, i requires 0 <= i < |es| => Entry(es[i].condition, IdsOf(es[i].block)))
  }

  /** The payload with each owned child replaced by its address. */
  function KindByAddress(k: Kind<Stmt>): (r: Kind<NodeId>)
    ensures |Blocks(r)| == |Blocks(k)|
    ensures forall i :: 0 <= i < |Blocks(k)| ==> Blocks(r)[i] == IdsOf(Blocks(k)[i])
    ensures Shaped(r) <==> Shaped(k)
    ensures r.Translate? <==> k.Translate?
    ensures k.Translate? ==> r.after == k.after
  {
    match k
    case Plain(st) => Plain(st)
    case Pass => Pass
    case Init(b, p) => Init(IdsOf(b), p)
    case Label(name, b) => Label(name, IdsOf(b))
    case While(c, b) => While(c, IdsOf(b))
    case If(es) =>
      var r := If(EntriesByAddress(es));
      assert forall i :: 0 <= i < |es| ==> Blocks(r)[i] == IdsOf(es[i].block) && Blocks(k)[i] == es[i].block;
      r
    case Menu(items) => Menu(ItemsByAddress(items))
    case Jump(t, e, g) => Jump(t, e, g)
    case Call(t, e, g) => Call(t, e, g)
    case Return(x) => Return(x)
    case Translate(id, lang, alt, b, after) => Translate(id, lang, alt, IdsOf(b), after)
    case TranslateSay(id, lang, alt) => TranslateSay(id, lang, alt)
    case EndTranslate => EndTranslate
    case TranslateBlock(lang, b) => TranslateBlock(lang, IdsOf(b))
  }

  /**
   * The arena keeps each statement's own fields: only the children change,
   * from statements to their addresses.
   */
  lemma KindByAddressKeepsFields(k: Kind<Stmt>)
    ensures SameFields(k, KindByAddress(k))
  {
    if k.Menu? {
      assert SameItemFields(k.items, ItemsByAddress(k.items));
    }
  }

  /** Every statement of a block's trees. */
  ghost function BlockSubtrees(b: seq<Stmt>): set<Stmt>
  {
    set j, t | 0 <= j < |b| && t in Subtrees(b[j]) :: t
  }

  /** The statement of the block's trees that carries address `x`. */
  ghost function StmtAt(b: seq<Stmt>, x: NodeId): (t: Stmt)
    requires x in BlockIds(b)
    ensures t in BlockSubtrees(b) && t.id == x
  {
    var j :| 0 <= j < |b| && x in Ids(b[j]);
    var t :| t in Subtrees(b[j]) && t.id == x;
    t
  }

  /** The runtime arena of a loaded block: each address maps to its statement with children by address. */
  ghost function ArenaOf(b: seq<Stmt>): (a: map<NodeId, Node>)
    ensures a.Keys == BlockIds(b)
  {
    map x | x in BlockIds(b) :: Node(KindByAddress(StmtAt(b, x).kind), StmtAt(b, x).next)
  }

  /** Every link and every child of every node is itself a node of the arena. */
  ghost predicate LinksInside(a: map<NodeId, Node>)
  {
    forall id :: id in a ==>
      && (a[id].next.Some? ==> a[id].next.value in a)
      && (a[id].kind.Translate? && a[id].kind.after.Some? ==> a[id].kind.after.value in a)
      && (forall i, j :: 0 <= i < |Blocks(a[id].kind)| && 0 <= j < |Blocks(a[id].kind)[i]| ==>
            Blocks(a[id].kind)[i][j] in a)
  }

  /** Chaining keeps the block shapes the parser produced. */
  lemma ChainShaped(s: Stmt, following: Option<NodeId>)
    ensures Shaped(Chain(s, following).kind) <==> Shaped(s.kind)
  {
    ChainBlocks(s, following);
    var r := Chain(s, following);
    match s.kind
    case If(es) =>
      assert forall i :: 0 <= i < |es| ==> Blocks(r.kind)[i] == r.kind.entries[i].block;
    case _ =>
  }

  /** Every statement of a chained tree is some statement of the original tree, chained. */
  lemma {:induction false} ChainedFromOriginal(s: Stmt, following: Option<NodeId>, t: Stmt)
    requires t in Subtrees(Chain(s, following))
    ensures exists u, g :: u in Subtrees(s) && t == Chain(u, g)
    decreases s
  {
    SubtreesOfChain(s, following, t);
    if t == Chain(s, following) {
      assert s in Subtrees(s);
    } else {
      var bs := Blocks(s.kind);
      var g := Follower(s, following);
      BlocksRank(s);
      ChildSubtrees(s);
      var i, j :| 0 <= i < |bs| && 0 <= j < |bs[i]| && t in Subtrees(Chain(bs[i][j], Successor(bs[i], j, g)));
      ChainedFromOriginal(bs[i][j], Successor(bs[i], j, g), t);
    }
  }

  /** Chaining a file's statements keeps every address and every block shape. */
  lemma ChainedBlockFacts(b: seq<Stmt>)
    requires forall t :: t in BlockSubtrees(b) ==> Shaped(t.kind)
    ensures BlockIds(ChainBlock(b, None)) == BlockIds(b)
    ensures forall t :: t in BlockSubtrees(ChainBlock(b, None)) ==> Shaped(t.kind)
  {
    var c := ChainBlock(b, None);
    forall j | 0 <= j < |b| ensures Ids(c[j]) == Ids(b[j]) {
      ChainKeepsIds(b[j], Successor(b, j, None));
    }
    forall t | t in BlockSubtrees(c) ensures Shaped(t.kind) {
      var j :| 0 <= j < |c| && t in Subtrees(c[j]);
      ChainedFromOriginal(b[j], Successor(b, j, None), t);
      var u, g :| u in Subtrees(b[j]) && t == Chain(u, g);
      ChainShaped(u, g);
    }
  }

  /**
   * A chained file's links never leave the file: each statement's `next`
   * (and a translate block's `after`) is None or the address of a statement
   * of the file.
   */
  lemma ChainedLinksInside(b: seq<Stmt>)
    ensures forall t, x :: t in BlockSubtrees(ChainBlock(b, None)) && x in Targets(t) ==>
              x == None || (x.Some? && x.value in BlockIds(b))
  {
    var c := ChainBlock(b, None);
    forall t, x | t in BlockSubtrees(c) && x in Targets(t)
      ensures x == None || (x.Some? && x.value in BlockIds(b))
    {
      var j :| 0 <= j < |c| && t in Subtrees(c[j]);
      NoDanglingLinks(b[j], Successor(b, j, None));
      if j + 1 < |b| {
        assert b[j + 1] in Subtrees(b[j + 1]);
        assert b[j + 1].id in Ids(b[j + 1]);
      }
    }
  }

  /** One node of the arena of a chained block: its links and children are nodes too. */
  lemma ArenaNodeInside(c: seq<Stmt>, id: NodeId)
    requires forall t, x :: t in BlockSubtrees(c) && x in Targets(t) ==> x == None || (x.Some? && x.value in BlockIds(c))
    requires id in ArenaOf(c)
    ensures var a := ArenaOf(c);
            && (a[id].next.Some? ==> a[id].next.value in a)
            && (a[id].kind.Translate? && a[id].kind.after.Some? ==> a[id].kind.after.value in a)
            && (forall i, j :: 0 <= i < |Blocks(a[id].kind)| && 0 <= j < |Blocks(a[id].kind)[i]| ==>
                  Blocks(a[id].kind)[i][j] in a)
  {
    var a := ArenaOf(c);
    var t := StmtAt(c, id);
    assert a[id] == Node(KindByAddress(t.kind), t.next);
    assert t.next in Targets(t);
    if t.kind.Translate? {
      assert t.kind.after in Targets(t);
    }
    var bs: seq<seq<Stmt>> := Blocks(t.kind);
    var k :| 0 <= k < |c| && t in Subtrees(c[k]);
    ChildSubtrees(t);
    SubtreesTransitive(c[k], t);
    forall i, j | 0 <= i < |bs| && 0 <= j < |bs[i]|
      ensures bs[i][j].id in BlockIds(c)
    {
      assert bs[i][j] in Subtrees(bs[i][j]);
      assert bs[i][j] in Subtrees(c[k]);
      assert bs[i][j].id in Ids(c[k]);
    }
  }

  /** The loaded arena of a chained file holds every node any of its nodes refers to. */
  lemma LoadedArenaClosed(b: seq<Stmt>)
    requires forall t :: t in BlockSubtrees(b) ==> Shaped(t.kind)
    ensures LinksInside(ArenaOf(ChainBlock(b, None)))
    ensures forall id :: id in ArenaOf(ChainBlock(b, None)) ==> Shaped(ArenaOf(ChainBlock(b, None))[id].kind)
  {
    var c := ChainBlock(b, None);
    var a := ArenaOf(c);
    ChainedBlockFacts(b);
    ChainedLinksInside(b);
    forall id | id in a
      ensures && (a[id].next.Some? ==> a[id].next.value in a)
              && (a[id].kind.Translate? && a[id].kind.after.Some? ==> a[id].kind.after.value in a)
              && (forall i, j :: 0 <= i < |Blocks(a[id].kind)| && 0 <= j < |Blocks(a[id].kind)[i]| ==>
                    Blocks(a[id].kind)[i][j] in a)
      ensures Shaped(a[id].kind)
    {
      ArenaNodeInside(c, id);
      assert StmtAt(c, id) in BlockSubtrees(c);
    }
  }

  /**
   * A loaded file whose label table points at its own statements satisfies
   * the precondition of the reachability search: every node is well shaped
   * and everything `get_reachable` reports is a node.
   */
  lemma LoadedScriptClosed(b: seq<Stmt>, labels: map<string, NodeId>, translates: map<string, seq<NodeId>>)
    requires forall t :: t in BlockSubtrees(b) ==> Shaped(t.kind)
    requires forall name :: name in labels ==> labels[name] in BlockIds(b)
    ensures Closed(Script(ArenaOf(ChainBlock(b, None)), labels, translates))
  {
    var a := ArenaOf(ChainBlock(b, None));
    var sc := Script(a, labels, translates);
    LoadedArenaClosed(b);
    ChainedBlockFacts(b);
    forall id | id in a
      ensures Shaped(a[id].kind) && forall x :: x in GetReachable(sc, id) ==> x in a
    {
      forall x | x in GetReachable(sc, id) ensures x in a {
        LinksWithin(sc, id, x);
      }
    }
  }

  lemma LinksWithin(sc: Script, id: NodeId, x: NodeId)
    requires LinksInside(sc.nodes)
    requires forall name :: name in sc.labels ==> sc.labels[name] in sc.nodes
    requires id in sc.nodes && x in Links(sc, sc.nodes[id])
    ensures x in sc.nodes
  {
    var n := sc.nodes[id];
    var bs := Blocks(n.kind);
    if (n.kind.Translate? || n.kind.TranslateSay?) && n.kind.language.None? {
      var ts := AllTranslates(sc, n.kind.identifier);
      if exists i :: 0 <= i < |ts| && TranslateWithBody(sc.nodes, ts[i]) && sc.nodes[ts[i]].kind.block[0] == x {
        var i :| 0 <= i < |ts| && TranslateWithBody(sc.nodes, ts[i]) && sc.nodes[ts[i]].kind.block[0] == x;
        assert Blocks(sc.nodes[ts[i]].kind)[0] == sc.nodes[ts[i]].kind.block;
      }
    }
  }
}
