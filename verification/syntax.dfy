/**
 * The statement variants of the script AST (renpy/ast.py) and the ownership
 * tree the parser produces.
 *
 * A statement's payload `Kind<B>` is generic in the element type of its child
 * blocks: the load-time tree uses `Kind<Stmt>` (children owned by value), the
 * runtime arena uses `Kind<NodeId>` (children referenced by address).
 */
module Syntax {
  import opened Wrappers

  /** Arena address of a node. Two statements are the same object iff their ids agree. */
  type NodeId = nat

  /** One `if`/`elif`/`else` clause: condition source text and its block. */
  datatype Entry<B> = Entry(condition: string, block: seq<B>)

  /** The block of a menu choice; `NoBlock` is the source's `None`. */
  datatype MenuBlock<B> = NoBlock | Block(stmts: seq<B>)

  /** One menu item: caption, guard condition source, and optional block. */
  datatype MenuItem<B> = MenuItem(caption: string, condition: string, block: MenuBlock<B>)

  /**
   * Statement payloads. `Plain` stands for every statement whose chaining and
   * reachability are the `Node` defaults and whose execution is not modelled
   * (say, python, show, scene, define, default, ...).
   */
  datatype Kind<B> =
    | Plain(statement: string)
    | Pass
    | Init(block: seq<B>, priority: int)
    | Label(name: string, block: seq<B>)
    | While(condition: string, block: seq<B>)
    | If(entries: seq<Entry<B>>)
    | Menu(items: seq<MenuItem<B>>)
    | Jump(target: string, expression: bool, globalLabel: string)
    | Call(target: string, expression: bool, globalLabel: string)
    | Return(returnExpr: Option<string>)
    | Translate(identifier: string, language: Option<string>, alternate: Option<string>,
                block: seq<B>, after: Option<NodeId>)
    | TranslateSay(identifier: string, language: Option<string>, alternate: Option<string>)
    | EndTranslate
    | TranslateBlock(forLanguage: string, block: seq<B>)

  /** A statement of the parsed tree: its address, payload and `next` link. */
  datatype Stmt = Stmt(id: NodeId, kind: Kind<Stmt>, next: Option<NodeId>)

  /** The blocks of the menu items that have one, in item order. */
  function ItemBlocks<B>(items: seq<MenuItem<B>>): (r: seq<seq<B>>)
    ensures |r| <= |items|
  {
    if |items| == 0 then []
    else
      (match items[0].block
       case Block(b) => [b]
       case NoBlock => []) + ItemBlocks(items[1..])
  }

  /** Items keep their captions, conditions and whether they own a block. */
  predicate SameItemFields<A, B>(a: seq<MenuItem<A>>, b: seq<MenuItem<B>>)
  {
    |b| == |a|
    && forall i :: 0 <= i < |a| ==>
         b[i].caption == a[i].caption && b[i].condition == a[i].condition
         && (b[i].block.NoBlock? <==> a[i].block.NoBlock?)
  }

  /**
   * `b` is the same statement variant as `a` with the same fields apart from
   * its blocks and a translate's `after`. The two may hold their children
   * differently (as trees or by address).
   */
  predicate SameFields<A, B>(a: Kind<A>, b: Kind<B>)
  {
    match a
    case Plain(st) => b.Plain? && b.statement == st
    case Pass => b.Pass?
    case Init(_, p) => b.Init? && b.priority == p
    case Label(name, _) => b.Label? && b.name == name
    case While(c, _) => b.While? && b.condition == c
    case If(es) =>
      b.If? && |b.entries| == |es| && forall i :: 0 <= i < |es| ==> b.entries[i].condition == es[i].condition
    case Menu(items) => b.Menu? && SameItemFields(items, b.items)
    case Jump(t, e, g) => b.Jump? && b.target == t && b.expression == e && b.globalLabel == g
    case Call(t, e, g) => b.Call? && b.target == t && b.expression == e && b.globalLabel == g
    case Return(x) => b.Return? && b.returnExpr == x
    case Translate(id, lang, alt, _, _) =>
      b.Translate? && b.identifier == id && b.language == lang && b.alternate == alt
    case TranslateSay(id, lang, alt) =>
      b.TranslateSay? && b.identifier == id && b.language == lang && b.alternate == alt
    case EndTranslate => b.EndTranslate?
    case TranslateBlock(lang, _) => b.TranslateBlock? && b.forLanguage == lang
  }

  /** The child blocks a statement owns, in the order `restructure` offers them. */
  function Blocks<B>(k: Kind<B>): seq<seq<B>>
  {
    match k
    case Init(b, _) => [b]
    case Label(_, b) => [b]
    case While(_, b) => [b]
    case If(es) => seq(|es|, i requires 0 <= i < |es| => es[i].block)
    case Menu(items) => ItemBlocks(items)
    case Translate(_, _, _, b, _) => [b]
    case TranslateBlock(_, b) => [b]
    case _ => []
  }

  /** The source indexes `block[0]` of while bodies and if clauses without a guard. */
  predicate Shaped<B>(k: Kind<B>)
  {
    match k
    case While(_, b) => |b| > 0
    case If(es) => forall i :: 0 <= i < |es| ==> |es[i].block| > 0
    case _ => true
  }

  lemma ItemBlocksRank(s: Stmt, items: seq<MenuItem<Stmt>>)
    requires forall k :: 0 <= k < |items| ==> items[k] < s
    ensures forall i, j :: 0 <= i < |ItemBlocks(items)| && 0 <= j < |ItemBlocks(items)[i]| ==>
              ItemBlocks(items)[i][j] < s
  {
    if |items| > 0 {
      ItemBlocksRank(s, items[1..]);
      var r := ItemBlocks(items);
      forall i, j | 0 <= i < |r| && 0 <= j < |r[i]|
        ensures r[i][j] < s
      {
        match items[0].block
        case Block(b) =>
          if i == 0 { assert r[i][j] == b[j]; } else { assert r[i][j] == ItemBlocks(items[1..])[i - 1][j]; }
        case NoBlock =>
          assert r[i][j] == ItemBlocks(items[1..])[i][j];
      }
    }
  }

  /** Children are structurally smaller than their owner (for termination). */
  lemma BlocksRank(s: Stmt)
    ensures forall i, j :: 0 <= i < |Blocks(s.kind)| && 0 <= j < |Blocks(s.kind)[i]| ==>
              Blocks(s.kind)[i][j] < s
  {
    match s.kind
    case Menu(items) => ItemBlocksRank(s, items);
    case _ =>
  }

  /** Every statement of the tree rooted at `s`, `s` included. */
  ghost function Subtrees(s: Stmt): set<Stmt>
    decreases s
  {
    BlocksRank(s);
    var bs := Blocks(s.kind);
    {s} + (set i, j, t | 0 <= i < |bs| && 0 <= j < |bs[i]| && t in Subtrees(bs[i][j]) :: t)
  }

  /** The addresses used in the tree rooted at `s`. */
  ghost function Ids(s: Stmt): set<NodeId>
  {
    set t | t in Subtrees(s) :: t.id
  }

  /** The addresses used in a block and the trees below it. */
  ghost function BlockIds(b: seq<Stmt>): set<NodeId>
  {
    set j, x | 0 <= j < |b| && x in Ids(b[j]) :: x
  }

  /** The links a node holds: `next`, and for a translate block also `after`. */
  function Targets(t: Stmt): set<Option<NodeId>>
  {
    {t.next} + (if t.kind.Translate? then {t.kind.after} else {})
  }

  /**
   * No address is used twice at one level: the owner's id is not reused below
   * it and the trees of its children are pairwise disjoint.
   */
  ghost predicate LocallyUnique(t: Stmt)
  {
    var bs := Blocks(t.kind);
    && (forall i, j :: 0 <= i < |bs| && 0 <= j < |bs[i]| ==> t.id !in Ids(bs[i][j]))
    && (forall i, j, i', j' ::
          0 <= i < |bs| && 0 <= j < |bs[i]| && 0 <= i' < |bs| && 0 <= j' < |bs[i']| && (i, j) != (i', j') ==>
          Ids(bs[i][j]) !! Ids(bs[i'][j']))
  }

  /** Every statement in the tree has its own address, as every parsed node is a distinct object. */
  ghost predicate UniqueIds(s: Stmt)
  {
    forall t :: t in Subtrees(s) ==> LocallyUnique(t)
  }
}
