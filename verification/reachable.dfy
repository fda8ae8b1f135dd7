/**
 * Static reachability over the loaded script (renpy/ast.py `get_reachable`
 * and `get_reachable_nodes`).
 *
 * At runtime statements refer to each other by address: a `Script` holds the
 * node arena, the label table and the translator's table of translations.
 */
module Reachable {
  import opened Wrappers
  import opened Syntax

  /** A loaded statement: payload with child blocks by address, and `next`. */
  datatype Node = Node(kind: Kind<NodeId>, next: Option<NodeId>)

  /**
   * The parts of the loaded game script reachability consults: every node,
   * the label table, and for each translation identifier the translate nodes
   * of all languages, in the translator's order.
   */
  datatype Script = Script(nodes: map<NodeId, Node>,
                           labels: map<string, NodeId>,
                           translates: map<string, seq<NodeId>>)

  /** `lookup_or_none`: the node a label names, if there is one. */
  function LookupOrNone(sc: Script, name: string): (r: Option<NodeId>)
    ensures r.Some? <==> name in sc.labels
    ensures r.Some? ==> r.value == sc.labels[name]
  {
    if name in sc.labels then Some(sc.labels[name]) else None
  }

  /** The head of every non-empty block, in order. */
  function NonEmptyHeads(bs: seq<seq<NodeId>>): (r: seq<NodeId>)
    ensures |r| <= |bs|
    ensures forall x :: x in r <==> exists i :: 0 <= i < |bs| && |bs[i]| > 0 && bs[i][0] == x
  {
    if |bs| == 0 then []
    else
      var rest := NonEmptyHeads(bs[1..]);
      assert forall i :: 1 <= i < |bs| ==> bs[i] == bs[1..][i - 1];
      if |bs[0]| > 0 then [bs[0][0]] + rest else rest
  }

  /** `n` is a translate node of the arena with a non-empty block. */
  predicate TranslateWithBody(nodes: map<NodeId, Node>, n: NodeId)
  {
    n in nodes && nodes[n].kind.Translate? && |nodes[n].kind.block| > 0
  }

  /** `[n.block[0] for n in nodes if n.block]` over the translate nodes listed. */
  function TranslateHeads(nodes: map<NodeId, Node>, ns: seq<NodeId>): (r: seq<NodeId>)
    ensures |r| <= |ns|
    ensures forall x :: x in r <==> exists i :: 0 <= i < |ns| && TranslateWithBody(nodes, ns[i]) && nodes[ns[i]].kind.block[0] == x
  {
    if |ns| == 0 then []
    else
      var rest := TranslateHeads(nodes, ns[1..]);
      assert forall i :: 1 <= i < |ns| ==> ns[i] == ns[1..][i - 1];
      if TranslateWithBody(nodes, ns[0]) then [nodes[ns[0]].kind.block[0]] + rest else rest
  }

  /** The translations recorded for an identifier (`get_all_translates`). */
  function AllTranslates(sc: Script, identifier: string): seq<NodeId>
  {
    if identifier in sc.translates then sc.translates[identifier] else []
  }

  /** The index of the first clause whose condition is the literal text `True`, or `|es|`. */
  function FirstLiteralTrue<B>(es: seq<Entry<B>>): (k: nat)
    ensures k <= |es|
    ensures forall i :: 0 <= i < k ==> es[i].condition != "True"
    ensures k < |es| ==> es[k].condition == "True"
  {
    if |es| == 0 then 0
    else if es[0].condition == "True" then 0
    else 1 + FirstLiteralTrue(es[1..])
  }

  /**
   * `If.get_reachable`: the heads of the clauses up to and including the first
   * clause that is literally `True`; `next` only when no clause is.
   */
  function IfReachable(es: seq<Entry<NodeId>>, next: Option<NodeId>): (r: seq<NodeId>)
    requires forall i :: 0 <= i < |es| ==> |es[i].block| > 0
    ensures var k := FirstLiteralTrue(es);
            if k < |es| then r == seq(k + 1, i requires 0 <= i < k + 1 => es[i].block[0])
            else r == seq(|es|, i requires 0 <= i < |es| => es[i].block[0]) + OptionList(next)
  {
    if |es| == 0 then OptionList(next)
    else if es[0].condition == "True" then [es[0].block[0]]
    else [es[0].block[0]] + IfReachable(es[1..], next)
  }

  /** Every address a node refers to statically: `next`, block heads, a static target, translations. */
  function Links(sc: Script, n: Node): set<NodeId>
  {
    var bs := Blocks(n.kind);
    (if n.next.Some? then {n.next.value} else {})
    + (set i | 0 <= i < |bs| && |bs[i]| > 0 :: bs[i][0])
    + (if (n.kind.Jump? || n.kind.Call?) && !n.kind.expression && n.kind.target in sc.labels
       then {sc.labels[n.kind.target]} else {})
    + (if (n.kind.Translate? || n.kind.TranslateSay?) && n.kind.language.None?
       then var ts := AllTranslates(sc, n.kind.identifier);
            set i | 0 <= i < |ts| && TranslateWithBody(sc.nodes, ts[i]) :: sc.nodes[ts[i]].kind.block[0]
       else {})
  }

  /** A clause or loop whose condition is literally `True` never falls through to `next`. */
  predicate Diverts<B>(k: Kind<B>)
  {
    (k.While? && k.condition == "True") || (k.If? && FirstLiteralTrue(k.entries) < |k.entries|)
  }

  /**
   * `get_reachable` of the node at `id`: the default `[next]`, overridden by
   * Call/Jump (static target first), Menu, While, If, Translate and TranslateSay.
   */
  function GetReachable(sc: Script, id: NodeId): (r: seq<NodeId>)
    requires id in sc.nodes && Shaped(sc.nodes[id].kind)
    ensures forall x :: x in r ==> x in Links(sc, sc.nodes[id])
    ensures sc.nodes[id].next.Some? && !Diverts(sc.nodes[id].kind) ==> sc.nodes[id].next.value in r
  {
    var n := sc.nodes[id];
    match n.kind
    case Call(_, _, _) => TargetReachable(sc, n)
    case Jump(_, _, _) => TargetReachable(sc, n)
    case Menu(_) => MenuReachable(sc, n)
    case While(_, _) => WhileReachable(sc, n)
    case If(_) => IfNodeReachable(sc, n)
    case Translate(_, _, _, _, _) => TranslationsReachable(sc, n)
    case TranslateSay(_, _, _) => TranslationsReachable(sc, n)
    case _ =>
      assert !Diverts(n.kind);
      OptionList(n.next)
  }

  /** Call and Jump: the static target, if the label exists, then `next`. */
  function TargetReachable(sc: Script, n: Node): (r: seq<NodeId>)
    requires n.kind.Call? || n.kind.Jump?
    ensures forall x :: x in r ==> x in Links(sc, n)
    ensures n.next.Some? ==> n.next.value in r
  {
    (if !n.kind.expression then OptionList(LookupOrNone(sc, n.kind.target)) else []) + OptionList(n.next)
  }

  /** Menu: the head of every non-empty item block, then `next`. */
  function MenuReachable(sc: Script, n: Node): (r: seq<NodeId>)
    requires n.kind.Menu?
    ensures forall x :: x in r ==> x in Links(sc, n)
    ensures n.next.Some? ==> n.next.value in r
  {
    NonEmptyHeads(ItemBlocks(n.kind.items)) + OptionList(n.next)
  }

  /** While: the body's head, then `next` unless the condition is literally `True`. */
  function WhileReachable(sc: Script, n: Node): (r: seq<NodeId>)
    requires n.kind.While? && Shaped(n.kind)
    ensures forall x :: x in r ==> x in Links(sc, n)
    ensures n.next.Some? && n.kind.condition != "True" ==> n.next.value in r
  {
    var block := n.kind.block;
    assert Blocks(n.kind)[0] == block;
    if n.kind.condition == "True" then [block[0]] else [block[0]] + OptionList(n.next)
  }

  function IfNodeReachable(sc: Script, n: Node): (r: seq<NodeId>)
    requires n.kind.If? && Shaped(n.kind)
    ensures forall x :: x in r ==> x in Links(sc, n)
    ensures n.next.Some? && FirstLiteralTrue(n.kind.entries) == |n.kind.entries| ==> n.next.value in r
  {
    var entries := n.kind.entries;
    var bs := Blocks(n.kind);
    assert forall i :: 0 <= i < |entries| ==> bs[i] == entries[i].block;
    IfReachable(entries, n.next)
  }

  /** Translate and TranslateSay: `next`, then for the default language the heads of every translation. */
  function TranslationsReachable(sc: Script, n: Node): (r: seq<NodeId>)
    requires n.kind.Translate? || n.kind.TranslateSay?
    ensures forall x :: x in r ==> x in Links(sc, n)
    ensures n.next.Some? ==> n.next.value in r
  {
    OptionList(n.next)
    + (if n.kind.language.None? then TranslateHeads(sc.nodes, AllTranslates(sc, n.kind.identifier)) else [])
  }

  /**
   * The order of `get_reachable`'s list, kind by kind: a static target comes
   * before `next`, menu heads before `next`, a loop body before `next`, and
   * the translations of a default-language translate after `next`.
   */
  lemma GetReachableOrder(sc: Script, id: NodeId)
    requires id in sc.nodes && Shaped(sc.nodes[id].kind)
    ensures var n := sc.nodes[id];
            var k := n.kind;
            var r := GetReachable(sc, id);
            ((k.Call? || k.Jump?) ==>
               r == (if !k.expression && k.target in sc.labels then [sc.labels[k.target]] else []) + OptionList(n.next))
            && (k.Menu? ==> r == NonEmptyHeads(ItemBlocks(k.items)) + OptionList(n.next))
            && (k.While? ==> r == [k.block[0]] + (if k.condition == "True" then [] else OptionList(n.next)))
            && ((k.Translate? || k.TranslateSay?) ==>
                  r == OptionList(n.next)
                       + (if k.language.None? then TranslateHeads(sc.nodes, AllTranslates(sc, k.identifier)) else []))
            && (!(k.Call? || k.Jump? || k.Menu? || k.While? || k.If? || k.Translate? || k.TranslateSay?) ==>
                  r == OptionList(n.next))
  {
  }

  /** Every branch head a compound statement can enter is reported, except clauses after a literal `True`. */
  lemma ReachableBranches(sc: Script, id: NodeId)
    requires id in sc.nodes && Shaped(sc.nodes[id].kind)
    ensures var k := sc.nodes[id].kind;
            (k.While? ==> k.block[0] in GetReachable(sc, id))
            && (k.If? ==> forall i :: 0 <= i < |k.entries| && i <= FirstLiteralTrue(k.entries) ==>
                            k.entries[i].block[0] in GetReachable(sc, id))
            && (k.Menu? ==> forall i :: 0 <= i < |k.items| && k.items[i].block.Block? && |k.items[i].block.stmts| > 0 ==>
                              k.items[i].block.stmts[0] in GetReachable(sc, id))
  {
    var k := sc.nodes[id].kind;
    if k.If? {
      forall i | 0 <= i < |k.entries| && i <= FirstLiteralTrue(k.entries)
        ensures k.entries[i].block[0] in GetReachable(sc, id)
      {
        var r := GetReachable(sc, id);
        assert r[i] == k.entries[i].block[0];
      }
    }
    if k.Menu? {
      forall i | 0 <= i < |k.items| && k.items[i].block.Block? && |k.items[i].block.stmts| > 0
        ensures k.items[i].block.stmts[0] in GetReachable(sc, id)
      {
        ItemBlockPresent(k.items, i);
      }
    }
  }

  /** A menu item's block appears among the item blocks. */
  lemma {:induction false} ItemBlockPresent<B>(items: seq<MenuItem<B>>, i: nat)
    requires i < |items| && items[i].block.Block?
    ensures exists t :: 0 <= t < |ItemBlocks(items)| && ItemBlocks(items)[t] == items[i].block.stmts
  {
    if i == 0 {
      assert ItemBlocks(items)[0] == items[0].block.stmts;
    } else {
      ItemBlockPresent(items[1..], i - 1);
      var t :| 0 <= t < |ItemBlocks(items[1..])| && ItemBlocks(items[1..])[t] == items[1..][i - 1].block.stmts;
      match items[0].block
      case Block(b) => assert ItemBlocks(items)[t + 1] == ItemBlocks(items[1..])[t];
      case NoBlock => assert ItemBlocks(items)[t] == ItemBlocks(items[1..])[t];
    }
  }

  /** `while True:` reports only its body: nothing after the loop is reachable through it. */
  lemma WhileTrueOnlyBody(sc: Script, id: NodeId)
    requires id in sc.nodes && sc.nodes[id].kind.While? && sc.nodes[id].kind.condition == "True"
    requires Shaped(sc.nodes[id].kind)
    ensures GetReachable(sc, id) == [sc.nodes[id].kind.block[0]]
  {
  }

  /** Language-specific translations report only their `next`: they are never entered from elsewhere. */
  lemma LanguageTranslateOnlyNext(sc: Script, id: NodeId)
    requires id in sc.nodes && sc.nodes[id].kind.Translate? && sc.nodes[id].kind.language.Some?
    ensures GetReachable(sc, id) == OptionList(sc.nodes[id].next)
  {
  }

  /**
   * A well-formed loaded script: every node has the block shape the parser
   * guarantees, and everything a node reports as reachable is a node.
   */
  ghost predicate Closed(sc: Script)
  {
    forall id :: id in sc.nodes ==>
      Shaped(sc.nodes[id].kind) && forall x :: x in GetReachable(sc, id) ==> x in sc.nodes
  }

  /** The entries in worklist order, skipping those already seen and repeats. */
  function NewEntries(entries: seq<NodeId>, seen: set<NodeId>): (r: seq<NodeId>)
    ensures forall x :: x in r <==> x in entries && x !in seen
    ensures forall i, j :: 0 <= i < j < |r| ==> r[i] != r[j]
  {
    if |entries| == 0 then []
    else
      var p := NewEntries(entries[..|entries| - 1], seen);
      var x := entries[|entries| - 1];
      assert entries == entries[..|entries| - 1] + [x];
      if x in seen || x in p then p else p + [x]
  }

  lemma {:induction false} NewEntriesPrefix(entries: seq<NodeId>, seen: set<NodeId>, m: nat)
    requires m <= |entries|
    ensures |NewEntries(entries[..m], seen)| <= |NewEntries(entries, seen)|
    ensures NewEntries(entries[..m], seen) == NewEntries(entries, seen)[..|NewEntries(entries[..m], seen)|]
    decreases |entries| - m
  {
    if m == |entries| {
      assert entries[..m] == entries;
    } else {
      NewEntriesPrefix(entries, seen, m + 1);
      var a := NewEntries(entries[..m], seen);
      var b := NewEntries(entries[..m + 1], seen);
      var c := NewEntries(entries, seen);
      assert entries[..m + 1][..m] == entries[..m];
      assert b == a || b == a + [entries[m]];
      assert a == b[..|a|];
      assert b[..|a|] == c[..|b|][..|a|] == c[..|a|];
    }
  }

  /** Addresses from `r` that are not yet seen and that the validator accepts from `source`. */
  function Admitted(r: seq<NodeId>, seen: set<NodeId>, valid: (NodeId, NodeId) -> bool, source: NodeId): (q: seq<NodeId>)
    ensures forall x :: x in q <==> x in r && x !in seen && valid(source, x)
  {
    if |r| == 0 then []
    else
      var rest := Admitted(r[1..], seen, valid, source);
      assert forall x :: x in r <==> x == r[0] || x in r[1..];
      if r[0] !in seen && valid(source, r[0]) then [r[0]] + rest else rest
  }

  /** `get_reachable` as a total function of the address: nothing outside the arena. */
  function Reach(sc: Script, id: NodeId): (r: seq<NodeId>)
    ensures id in sc.nodes && Shaped(sc.nodes[id].kind) ==> r == GetReachable(sc, id)
  {
    if id in sc.nodes && Shaped(sc.nodes[id].kind) then GetReachable(sc, id) else []
  }

  /** `b` is among the nodes `a` reports as reachable, and the validator admits the edge. */
  predicate Edge(reach: NodeId -> seq<NodeId>, valid: (NodeId, NodeId) -> bool, a: NodeId, b: NodeId)
  {
    b in reach(a) && valid(a, b)
  }

  /** Some node of `prefix` has an admitted edge to `x`. */
  predicate ReachedFrom(reach: NodeId -> seq<NodeId>, valid: (NodeId, NodeId) -> bool, prefix: seq<NodeId>, x: NodeId)
  {
    exists j :: 0 <= j < |prefix| && Edge(reach, valid, prefix[j], x)
  }

  lemma ReachedGrow(reach: NodeId -> seq<NodeId>, valid: (NodeId, NodeId) -> bool, prefix: seq<NodeId>, y: NodeId, x: NodeId)
    requires ReachedFrom(reach, valid, prefix, x)
    ensures ReachedFrom(reach, valid, prefix + [y], x)
  {
    var j :| 0 <= j < |prefix| && Edge(reach, valid, prefix[j], x);
    assert (prefix + [y])[j] == prefix[j];
  }

  /** The fixed inputs of a search: the node universe, successors, validator, entries and initial seen set. */
  datatype Query = Query(domain: set<NodeId>, reach: NodeId -> seq<NodeId>, valid: (NodeId, NodeId) -> bool,
                         entries: seq<NodeId>, seen0: set<NodeId>)

  /** The search state: the deque as `queue[head..]`, the nodes reached so far, and the seen set. */
  datatype Frontier = Frontier(queue: seq<NodeId>, head: nat, result: seq<NodeId>, seen: set<NodeId>)

  /** The successors of every node of the universe, and every entry, lie in the universe. */
  ghost predicate WellFormed(q: Query)
  {
    && (forall a, b :: a in q.domain && b in q.reach(a) ==> b in q.domain)
    && (forall e :: e in q.entries ==> e in q.domain)
  }

  /** The deque starts with the entries and holds only nodes of the universe. */
  ghost predicate QueueInv(q: Query, f: Frontier)
  {
    && |q.entries| <= |f.queue| && f.queue[..|q.entries|] == q.entries
    && f.head <= |f.queue|
    && forall k :: 0 <= k < |f.queue| ==> f.queue[k] in q.domain
  }

  /** The seen set is the initial one plus the result, whose nodes are new and distinct. */
  ghost predicate SeenInv(q: Query, f: Frontier)
  {
    && (forall x :: x in f.seen <==> x in q.seen0 || x in f.result)
    && (forall i, j :: 0 <= i < j < |f.result| ==> f.result[i] != f.result[j])
    && (forall i :: 0 <= i < |f.result| ==> f.result[i] in q.domain && f.result[i] !in q.seen0)
  }

  /** The result begins with the new entries, in order. */
  ghost predicate EntriesInv(q: Query, f: Frontier)
  {
    && (f.head <= |q.entries| ==> f.result == NewEntries(q.entries[..f.head], q.seen0))
    && (f.head >= |q.entries| ==>
          |NewEntries(q.entries, q.seen0)| <= |f.result|
          && f.result[..|NewEntries(q.entries, q.seen0)|] == NewEntries(q.entries, q.seen0))
  }

  /** Every queued non-entry, and every reached non-entry, has an admitted edge from an earlier result node. */
  ghost predicate OriginInv(q: Query, f: Frontier)
  {
    && (forall k :: |q.entries| <= k < |f.queue| ==> ReachedFrom(q.reach, q.valid, f.result, f.queue[k]))
    && (forall i :: |NewEntries(q.entries, q.seen0)| <= i < |f.result| ==>
          ReachedFrom(q.reach, q.valid, f.result[..i], f.result[i]))
  }

  /** Every admitted edge out of a reached node ends in the seen set or in the deque. */
  ghost predicate ClosedInv(q: Query, f: Frontier)
  {
    forall i, x :: 0 <= i < |f.result| && Edge(q.reach, q.valid, f.result[i], x) ==>
      x in f.seen || (f.head <= |f.queue| && x in f.queue[f.head..])
  }

  /**
   * Everything the deque has held once the nodes of `visited` have been
   * expanded in turn: the entries, then each visited node's admitted
   * successors in `get_reachable` order, leaving out the nodes seen when it
   * was expanded.
   */
  function Worklist(q: Query, visited: seq<NodeId>): seq<NodeId>
  {
    if |visited| == 0 then q.entries
    else
      var last := visited[|visited| - 1];
      Worklist(q, visited[..|visited| - 1])
      + Admitted(q.reach(last), q.seen0 + (set x | x in visited), q.valid, last)
  }

  /**
   * Breadth-first order: the deque is the worklist of the nodes reached so
   * far, and those nodes are the first unseen occurrences among the entries
   * popped so far, in deque order.
   */
  ghost predicate OrderInv(q: Query, f: Frontier)
  {
    f.queue == Worklist(q, f.result) && f.head <= |f.queue| && f.result == NewEntries(f.queue[..f.head], q.seen0)
  }

  ghost predicate SearchInv(q: Query, f: Frontier)
  {
    QueueInv(q, f) && SeenInv(q, f) && EntriesInv(q, f) && OriginInv(q, f) && ClosedInv(q, f) && OrderInv(q, f)
  }

  /** One iteration of the `while worklist` loop: pop the leftmost node; if unseen, record it and queue its admitted successors. */
  function Step(q: Query, f: Frontier): (g: Frontier)
    requires f.head < |f.queue|
    ensures g.head == f.head + 1
    ensures f.queue[f.head] in f.seen ==> g == f.(head := f.head + 1)
  {
    var node := f.queue[f.head];
    if node in f.seen then f.(head := f.head + 1)
    else Frontier(f.queue + Admitted(q.reach(node), f.seen + {node}, q.valid, node),
                  f.head + 1, f.result + [node], f.seen + {node})
  }

  lemma StepQueue(q: Query, f: Frontier)
    requires WellFormed(q) && QueueInv(q, f) && f.head < |f.queue|
    ensures QueueInv(q, Step(q, f))
  {
    var g := Step(q, f);
    assert g.queue[..|q.entries|] == f.queue[..|q.entries|];
    forall k | |f.queue| <= k < |g.queue| ensures g.queue[k] in q.domain {
      assert g.queue[k] in q.reach(f.queue[f.head]);
    }
  }

  lemma StepSeen(q: Query, f: Frontier)
    requires QueueInv(q, f) && SeenInv(q, f) && f.head < |f.queue|
    ensures SeenInv(q, Step(q, f))
  {
  }

  /** Recording a node shrinks the unseen part of the universe, so the search terminates. */
  lemma StepShrinks(q: Query, f: Frontier)
    requires QueueInv(q, f) && f.head < |f.queue| && f.queue[f.head] !in f.seen
    ensures |q.domain - Step(q, f).seen| < |q.domain - f.seen|
  {
    var node := f.queue[f.head];
    assert q.domain - f.seen == (q.domain - Step(q, f).seen) + {node};
  }

  lemma StepEntries(q: Query, f: Frontier)
    requires QueueInv(q, f) && SeenInv(q, f) && EntriesInv(q, f) && f.head < |f.queue|
    ensures EntriesInv(q, Step(q, f))
  {
    var g := Step(q, f);
    var node := f.queue[f.head];
    var ne := NewEntries(q.entries, q.seen0);
    if f.head < |q.entries| {
      var es := q.entries[..f.head + 1];
      assert f.queue[..|q.entries|][f.head] == node;
      assert es[..|es| - 1] == q.entries[..f.head];
      assert es[|es| - 1] == node;
      assert g.result == NewEntries(es, q.seen0);
      NewEntriesPrefix(q.entries, q.seen0, f.head + 1);
      if g.head == |q.entries| {
        assert es == q.entries;
        assert g.result[..|g.result|] == g.result;
      }
    } else {
      assert g.result[..|ne|] == f.result[..|ne|];
    }
  }

  lemma StepOriginQueue(q: Query, f: Frontier)
    requires QueueInv(q, f) && OriginInv(q, f) && f.head < |f.queue|
    ensures forall k :: |q.entries| <= k < |Step(q, f).queue| ==>
              ReachedFrom(q.reach, q.valid, Step(q, f).result, Step(q, f).queue[k])
  {
    var g := Step(q, f);
    var node := f.queue[f.head];
    if node !in f.seen {
      forall k | |q.entries| <= k < |g.queue|
        ensures ReachedFrom(q.reach, q.valid, g.result, g.queue[k])
      {
        if k < |f.queue| {
          ReachedGrow(q.reach, q.valid, f.result, node, g.queue[k]);
        } else {
          assert g.result[|f.result|] == node;
          assert Edge(q.reach, q.valid, g.result[|f.result|], g.queue[k]);
        }
      }
    }
  }

  lemma StepOriginResult(q: Query, f: Frontier)
    requires QueueInv(q, f) && SeenInv(q, f) && EntriesInv(q, f) && OriginInv(q, f) && f.head < |f.queue|
    ensures forall i :: |NewEntries(q.entries, q.seen0)| <= i < |Step(q, f).result| ==>
              ReachedFrom(q.reach, q.valid, Step(q, f).result[..i], Step(q, f).result[i])
  {
    var g := Step(q, f);
    var node := f.queue[f.head];
    var ne := NewEntries(q.entries, q.seen0);
    if node !in f.seen {
      if f.head < |q.entries| {
        StepEntries(q, f);
        NewEntriesPrefix(q.entries, q.seen0, f.head + 1);
        assert |g.result| <= |ne|;
      } else {
        assert ReachedFrom(q.reach, q.valid, f.result, node);
      }
      forall i | |ne| <= i < |g.result|
        ensures ReachedFrom(q.reach, q.valid, g.result[..i], g.result[i])
      {
        if i < |f.result| {
          assert g.result[..i] == f.result[..i];
        } else {
          assert g.result[..i] == f.result;
        }
      }
    }
  }

  lemma StepClosed(q: Query, f: Frontier)
    requires SeenInv(q, f) && ClosedInv(q, f) && f.head < |f.queue|
    ensures ClosedInv(q, Step(q, f))
  {
    var g := Step(q, f);
    var node := f.queue[f.head];
    forall i, x | 0 <= i < |g.result| && Edge(q.reach, q.valid, g.result[i], x)
      ensures x in g.seen || x in g.queue[g.head..]
    {
      if i < |f.result| {
        assert g.result[i] == f.result[i];
        if x !in g.seen {
          var k :| f.head <= k < |f.queue| && f.queue[k] == x;
          assert k != f.head;
          assert g.queue[k] == x;
        }
      } else if x !in g.seen {
        var admitted := Admitted(q.reach(node), f.seen + {node}, q.valid, node);
        var k :| 0 <= k < |admitted| && admitted[k] == x;
        assert g.queue[|f.queue| + k] == x;
      }
    }
  }

  lemma NewEntriesSnoc(xs: seq<NodeId>, x: NodeId, seen: set<NodeId>)
    ensures NewEntries(xs + [x], seen) ==
              if x in seen || x in NewEntries(xs, seen) then NewEntries(xs, seen) else NewEntries(xs, seen) + [x]
  {
    assert (xs + [x])[..|xs|] == xs;
  }

  lemma StepOrder(q: Query, f: Frontier)
    requires SeenInv(q, f) && OrderInv(q, f) && f.head < |f.queue|
    ensures OrderInv(q, Step(q, f))
  {
    var node := f.queue[f.head];
    assert f.queue[..f.head + 1] == f.queue[..f.head] + [node];
    NewEntriesSnoc(f.queue[..f.head], node, q.seen0);
    if node !in f.seen {
      StepOrderNew(q, f);
    }
  }

  lemma StepOrderNew(q: Query, f: Frontier)
    requires SeenInv(q, f) && OrderInv(q, f) && f.head < |f.queue| && f.queue[f.head] !in f.seen
    ensures OrderInv(q, Step(q, f))
  {
    var node := f.queue[f.head];
    var adm := Admitted(q.reach(node), f.seen + {node}, q.valid, node);
    assert Step(q, f) == Frontier(f.queue + adm, f.head + 1, f.result + [node], f.seen + {node});
    SeenAfterVisit(q.seen0, f.seen, f.result, node);
    WorklistSnoc(q, f.result, node);
    PoppedPrefix(f.queue, adm, f.head);
    NewEntriesSnoc(f.queue[..f.head], node, q.seen0);
  }

  /** The popped part of the deque grows by the node popped, whatever was appended. */
  lemma PoppedPrefix(queue: seq<NodeId>, more: seq<NodeId>, head: nat)
    requires head < |queue|
    ensures (queue + more)[..head + 1] == queue[..head] + [queue[head]]
  {
  }

  lemma SeenAfterVisit(seen0: set<NodeId>, seen: set<NodeId>, result: seq<NodeId>, node: NodeId)
    requires forall x :: x in seen <==> x in seen0 || x in result
    ensures seen + {node} == seen0 + (set x | x in result + [node])
  {
  }

  lemma WorklistSnoc(q: Query, visited: seq<NodeId>, node: NodeId)
    ensures Worklist(q, visited + [node]) ==
              Worklist(q, visited) + Admitted(q.reach(node), q.seen0 + (set x | x in visited + [node]), q.valid, node)
  {
    assert (visited + [node])[..|visited|] == visited;
  }

  lemma StepPreserves(q: Query, f: Frontier)
    requires WellFormed(q) && SearchInv(q, f) && f.head < |f.queue|
    ensures SearchInv(q, Step(q, f))
    ensures f.queue[f.head] !in f.seen ==> |q.domain - Step(q, f).seen| < |q.domain - f.seen|
  {
    StepQueue(q, f);
    StepSeen(q, f);
    if f.queue[f.head] !in f.seen {
      StepShrinks(q, f);
    }
    StepEntries(q, f);
    StepOriginQueue(q, f);
    StepOriginResult(q, f);
    StepClosed(q, f);
    StepOrder(q, f);
  }

  /**
   * The worklist search of `get_reachable_nodes` over any successor function
   * that stays inside its universe: breadth-first from the entries, following
   * only the edges the validator admits and skipping nodes already seen.
   * Returns the nodes reached in visiting order and the enlarged seen set.
   */
  method Search(q: Query) returns (result: seq<NodeId>, seen: set<NodeId>)
    requires WellFormed(q)
    ensures forall x :: x in seen <==> x in q.seen0 || x in result
    ensures forall i, j :: 0 <= i < j < |result| ==> result[i] != result[j]
    ensures forall i :: 0 <= i < |result| ==> result[i] in q.domain && result[i] !in q.seen0
    ensures |NewEntries(q.entries, q.seen0)| <= |result|
    ensures result[..|NewEntries(q.entries, q.seen0)|] == NewEntries(q.entries, q.seen0)
    ensures forall i :: |NewEntries(q.entries, q.seen0)| <= i < |result| ==>
              ReachedFrom(q.reach, q.valid, result[..i], result[i])
    ensures forall i, x :: 0 <= i < |result| && Edge(q.reach, q.valid, result[i], x) ==> x in seen
    ensures result == NewEntries(Worklist(q, result), q.seen0)
  {
    var f := Frontier(q.entries, 0, [], q.seen0);
    SearchStart(q);
    while f.head < |f.queue|
      invariant SearchInv(q, f)
      decreases |q.domain - f.seen|, |f.queue| - f.head
    {
      StepPreserves(q, f);
      f := Step(q, f);
    }
    SearchDone(q, f);
    result, seen := f.result, f.seen;
  }

  lemma SearchStart(q: Query)
    requires WellFormed(q)
    ensures SearchInv(q, Frontier(q.entries, 0, [], q.seen0))
  {
    assert q.entries[..0] == [];
  }

  /** When the deque is empty, the invariants are the search's promises. */
  lemma SearchDone(q: Query, f: Frontier)
    requires SearchInv(q, f) && f.head == |f.queue|
    ensures forall i, x :: 0 <= i < |f.result| && Edge(q.reach, q.valid, f.result[i], x) ==> x in f.seen
    ensures f.result == NewEntries(Worklist(q, f.result), q.seen0)
  {
    assert f.queue[f.head..] == [];
    assert f.queue[..f.head] == f.queue;
  }

  /**
   * `get_reachable_nodes` on a loaded script: the search above with each
   * node's own `get_reachable` as the successor function.
   */
  method GetReachableNodes(sc: Script, entries: seq<NodeId>, valid: (NodeId, NodeId) -> bool, seen0: set<NodeId>)
    returns (result: seq<NodeId>, seen: set<NodeId>)
    requires Closed(sc)
    requires forall e :: e in entries ==> e in sc.nodes
    ensures forall x :: x in seen <==> x in seen0 || x in result
    ensures forall i, j :: 0 <= i < j < |result| ==> result[i] != result[j]
    ensures forall i :: 0 <= i < |result| ==> result[i] in sc.nodes && result[i] !in seen0
    ensures |NewEntries(entries, seen0)| <= |result|
    ensures result[..|NewEntries(entries, seen0)|] == NewEntries(entries, seen0)
    ensures forall i :: |NewEntries(entries, seen0)| <= i < |result| ==>
              exists j :: 0 <= j < i && result[i] in GetReachable(sc, result[j]) && valid(result[j], result[i])
    ensures forall i, x :: 0 <= i < |result| && x in GetReachable(sc, result[i]) && valid(result[i], x) ==> x in seen
    ensures result == NewEntries(Worklist(Query(sc.nodes.Keys, ReachOf(sc), valid, entries, seen0), result), seen0)
  {
    ScriptQueryWellFormed(sc, valid, entries, seen0);
    result, seen := Search(Query(sc.nodes.Keys, ReachOf(sc), valid, entries, seen0));
    forall i | |NewEntries(entries, seen0)| <= i < |result|
      ensures exists j :: 0 <= j < i && result[i] in GetReachable(sc, result[j]) && valid(result[j], result[i])
    {
      var j :| 0 <= j < |result[..i]| && Edge(ReachOf(sc), valid, result[..i][j], result[i]);
      assert result[..i][j] == result[j];
      ScriptEdge(sc, valid, result[j], result[i]);
    }
    forall i, x | 0 <= i < |result| && x in GetReachable(sc, result[i]) && valid(result[i], x)
      ensures x in seen
    {
      ScriptEdge(sc, valid, result[i], x);
    }
  }

  /** The successor function a search over a loaded script uses: each node's own `get_reachable`. */
  function ReachOf(sc: Script): NodeId -> seq<NodeId>
  {
    (id: NodeId) => Reach(sc, id)
  }

  /** A closed script's nodes and reachability form a universe the search stays inside. */
  lemma ScriptQueryWellFormed(sc: Script, valid: (NodeId, NodeId) -> bool, entries: seq<NodeId>, seen0: set<NodeId>)
    requires Closed(sc)
    requires forall e :: e in entries ==> e in sc.nodes
    ensures WellFormed(Query(sc.nodes.Keys, ReachOf(sc), valid, entries, seen0))
  {
    forall a, b | a in sc.nodes && b in ReachOf(sc)(a) ensures b in sc.nodes {
      assert ReachOf(sc)(a) == GetReachable(sc, a);
    }
  }

  /** On a closed script, a search edge is an admitted `get_reachable` successor. */
  lemma ScriptEdge(sc: Script, valid: (NodeId, NodeId) -> bool, a: NodeId, b: NodeId)
    requires Closed(sc) && a in sc.nodes
    ensures Edge(ReachOf(sc), valid, a, b) <==> b in GetReachable(sc, a) && valid(a, b)
  {
    assert ReachOf(sc)(a) == GetReachable(sc, a);
  }

  /** A diamond-free example graph: 0 reports [1, 2], 1 reports [3]; every edge is admitted. */
  function ExampleQuery(): Query
  {
    Query({0, 1, 2, 3}, (id: NodeId) => if id == 0 then [1, 2] else if id == 1 then [3] else [],
          (a: NodeId, b: NodeId) => true, [0], {})
  }

  /**
   * The order the search promises is breadth-first: from entry 0 it visits
   * 0, 1, 2, 3, and the depth-first order 0, 1, 3, 2 does not meet it.
   */
  lemma BreadthFirstNotDepthFirst()
    ensures var q := ExampleQuery();
            var bfs := [0, 1, 2, 3];
            var dfs := [0, 1, 3, 2];
            bfs == NewEntries(Worklist(q, bfs), q.seen0) && dfs != NewEntries(Worklist(q, dfs), q.seen0)
  {
    ExampleWorklist(2, 3);
    ExampleWorklist(3, 2);
    NewEntriesDistinct([0, 1, 2, 3]);
  }

  /** Both visiting orders of 2 and 3 leave the same queue 0, 1, 2, 3. */
  lemma ExampleWorklist(a: NodeId, b: NodeId)
    requires a in {2, 3} && b in {2, 3}
    ensures Worklist(ExampleQuery(), [0, 1, a, b]) == [0, 1, 2, 3]
  {
    var v2: seq<NodeId> := [0] + [1];
    ExampleFirstSteps();
    ExampleLastSteps(v2, a, b);
    assert v2 + [a] + [b] == [0, 1, a, b];
  }

  /** Expanding 0 then 1 queues 1, 2, then 3. */
  lemma ExampleFirstSteps()
    ensures Worklist(ExampleQuery(), [0] + [1]) == [0, 1, 2, 3]
  {
    var q := ExampleQuery();
    ExampleExpandRoot();
    WorklistSnoc(q, [0], 1);
    assert q.seen0 + (set x | x in [0] + [1]) == {0, 1};
    assert q.reach(1) == [3] && q.valid(1, 3);
    assert Admitted([3], {0, 1}, q.valid, 1) == [3];
  }

  /** Expanding the entry 0 queues its children 1 and 2. */
  lemma ExampleExpandRoot()
    ensures Worklist(ExampleQuery(), [0]) == [0, 1, 2]
  {
    var q := ExampleQuery();
    var v0: seq<NodeId> := [];
    WorklistSnoc(q, v0, 0);
    assert v0 + [0] == [0];
    assert Worklist(q, v0) == [0];
    assert q.seen0 + (set x | x in [0]) == {0};
    assert q.reach(0) == [1, 2] && q.valid(0, 1) && q.valid(0, 2);
    assert [1, 2][1..] == [2];
    assert Admitted([2], {0}, q.valid, 0) == [2];
    assert Admitted([1, 2], {0}, q.valid, 0) == [1, 2];
  }

  /** Expanding 2 and 3, in either order, queues nothing more. */
  lemma ExampleLastSteps(v2: seq<NodeId>, a: NodeId, b: NodeId)
    requires Worklist(ExampleQuery(), v2) == [0, 1, 2, 3]
    requires a in {2, 3} && b in {2, 3}
    ensures Worklist(ExampleQuery(), v2 + [a] + [b]) == [0, 1, 2, 3]
  {
    var q := ExampleQuery();
    WorklistSnoc(q, v2, a);
    assert q.reach(a) == [];
    WorklistSnoc(q, v2 + [a], b);
    assert q.reach(b) == [];
  }

  /** A list of distinct fresh nodes is its own list of new entries. */
  lemma {:induction false} NewEntriesDistinct(xs: seq<NodeId>)
    requires forall i, j :: 0 <= i < j < |xs| ==> xs[i] != xs[j]
    ensures NewEntries(xs, {}) == xs
  {
    if |xs| > 0 {
      var init := xs[..|xs| - 1];
      NewEntriesDistinct(init);
      assert xs == init + [xs[|xs| - 1]];
      NewEntriesSnoc(init, xs[|xs| - 1], {});
    }
  }
}
