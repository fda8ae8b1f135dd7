/**
 * One step of the interpreter: the `execute` methods of the control-flow
 * statements in renpy/ast.py, over the loaded arena.
 *
 * `execute` reports where control goes by calling `next_node`, sometimes
 * several times, before it may raise; the context keeps the last value. A
 * step therefore yields the whole world together with the failure, if any.
 * The evaluator, the menu chooser, the say machinery, the translator's
 * lookup and the context's return lookup are parameters (`Env`).
 */
module Execute {
  import opened Wrappers
  import opened Syntax
  import opened Reachable
  import opened SeenTranslations

  /**
   * The execution context's fields statements touch: `next_node`, `abnormal`,
   * the current and alternate translate identifiers, the return stack of
   * return sites, and whether the init phase is running.
   */
  datatype Ctx = Ctx(nextNode: Option<NodeId>, abnormal: bool,
                     tlid: Option<string>, altTlid: Option<string>,
                     returnStack: seq<NodeId>, initPhase: bool)

  /** The context and the persistent seen-translation record. */
  datatype World = World(ctx: Ctx, seen: Seen)

  /** A menu choice offered to the player: caption, condition, and the item index when it has a block. */
  datatype Choice = Choice(caption: string, condition: string, index: Option<nat>)

  /**
   * Everything outside this file a step consults. `evalCond` is `py_eval`
   * followed by Python truthiness; `evalLabel` evaluates a label expression;
   * `evalError` is the exception, if any, evaluating a return expression
   * raises; `menu` is `renpy.exports.menu`; `sayError` is the exception, if
   * any, `Say.execute` raises; `menuArgsError` is the exception, if any,
   * evaluating a menu's own arguments raises (None when it has none);
   * `lookupTranslate` is the translator's `lookup_translate`; `lookupReturn`
   * is `lookup_return(pop=True)` given the stack.
   */
  datatype Env = Env(
    evalCond: string -> Result<bool, string>,
    evalLabel: string -> Result<string, string>,
    evalError: string -> Option<string>,
    menu: seq<Choice> -> Result<Option<int>, string>,
    sayError: Option<string>,
    menuArgsError: Option<string>,
    lookupTranslate: (string, Option<string>) -> Option<NodeId>,
    lookupReturn: seq<NodeId> -> Option<NodeId>,
    developer: bool,
    narratorMenu: bool,
    hashSeen: bool,
    hash64: string -> int)

  /** Why a statement raised. */
  datatype Failure =
    | EvalFailed(message: string)
    | UnknownLabel(name: string)
    | NoReturnSite
    | ReturnInInit
    | RunDirectly
    | EmptyBlock
    | BadChoice(choice: int)
    | MenuFailed(message: string)
    | SayFailed(message: string)

  /** The world after a step, and the exception it raised, if any. */
  datatype Outcome = Outcome(world: World, failure: Option<Failure>)

  /** `next_node(n)`. */
  function SetNext(w: World, n: Option<NodeId>): (r: World)
    ensures r.ctx.nextNode == n && r.seen == w.seen
    ensures r.ctx == w.ctx.(nextNode := n)
  {
    w.(ctx := w.ctx.(nextNode := n))
  }

  /** Only `next_node` changed, and nothing was raised. */
  predicate MovedTo(o: Outcome, w: World, n: Option<NodeId>)
  {
    o.failure.None? && o.world == SetNext(w, n)
  }

  /**
   * The clauses of an `if`, evaluated in order from `from`: the index of the
   * first true one, none, or the exception of the first condition that
   * raised.
   */
  function FirstTrue<B>(es: seq<Entry<B>>, eval: string -> Result<bool, string>, from: nat): (r: Result<Option<nat>, string>)
    requires from <= |es|
    ensures r.Ok? && r.value.Some? ==>
              from <= r.value.value < |es| && eval(es[r.value.value].condition) == Ok(true)
              && forall i :: from <= i < r.value.value ==> eval(es[i].condition) == Ok(false)
    ensures r == Ok(None) <==> forall i :: from <= i < |es| ==> eval(es[i].condition) == Ok(false)
    ensures r.Err? ==> exists k :: from <= k < |es| && eval(es[k].condition) == Err(r.error)
                        && forall i :: from <= i < k ==> eval(es[i].condition) == Ok(false)
    ensures forall k :: from <= k < |es| && eval(es[k].condition).Err?
                        && (forall i :: from <= i < k ==> eval(es[i].condition) == Ok(false)) ==>
              r == Err(eval(es[k].condition).error)
    decreases |es| - from
  {
    if from == |es| then Ok(None)
    else
      match eval(es[from].condition)
      case Err(e) => Err(e)
      case Ok(b) => if b then Ok(Some(from)) else FirstTrue(es, eval, from + 1)
  }

  /** Every clause before `k` is false and clause `k` is true: `k` is the clause `if` runs. */
  predicate FirstTrueAt<B>(es: seq<Entry<B>>, eval: string -> Result<bool, string>, k: int)
  {
    0 <= k < |es| && eval(es[k].condition) == Ok(true) && forall i :: 0 <= i < k ==> eval(es[i].condition) == Ok(false)
  }

  /**
   * `If.execute`: fall through to `next` unless a clause is true, in which
   * case control enters the first true clause's block; a condition that
   * raises stops the scan.
   */
  function ExecIf(n: Node, env: Env, w: World): (o: Outcome)
    requires n.kind.If? && Shaped(n.kind)
    ensures forall k :: FirstTrueAt(n.kind.entries, env.evalCond, k) ==> MovedTo(o, w, Some(n.kind.entries[k].block[0]))
    ensures (forall i :: 0 <= i < |n.kind.entries| ==> env.evalCond(n.kind.entries[i].condition) == Ok(false))
              ==> MovedTo(o, w, n.next)
    ensures o.failure.Some? ==>
              && o.world == SetNext(w, n.next)
              && exists k :: 0 <= k < |n.kind.entries| && env.evalCond(n.kind.entries[k].condition).Err?
                             && forall i :: 0 <= i < k ==> env.evalCond(n.kind.entries[i].condition) == Ok(false)
    ensures forall k :: 0 <= k < |n.kind.entries| && env.evalCond(n.kind.entries[k].condition).Err?
                        && (forall i :: 0 <= i < k ==> env.evalCond(n.kind.entries[i].condition) == Ok(false)) ==>
              o == Outcome(SetNext(w, n.next), Some(EvalFailed(env.evalCond(n.kind.entries[k].condition).error)))
  {
    var es := n.kind.entries;
    match FirstTrue(es, env.evalCond, 0)
    case Err(e) => Outcome(SetNext(w, n.next), Some(EvalFailed(e)))
    case Ok(None) => Outcome(SetNext(w, n.next), None)
    case Ok(Some(k)) =>
      Outcome(SetNext(w, Some(es[k].block[0])), None)
  }

  /** `While.execute`: enter the body when the condition is true, else leave the loop. */
  function ExecWhile(n: Node, env: Env, w: World): (o: Outcome)
    requires n.kind.While? && Shaped(n.kind)
    ensures env.evalCond(n.kind.condition) == Ok(true) ==> MovedTo(o, w, Some(n.kind.block[0]))
    ensures env.evalCond(n.kind.condition) == Ok(false) ==> MovedTo(o, w, n.next)
    ensures env.evalCond(n.kind.condition).Err? ==>
              o == Outcome(SetNext(w, n.next), Some(EvalFailed(env.evalCond(n.kind.condition).error)))
  {
    match env.evalCond(n.kind.condition)
    case Err(e) => Outcome(SetNext(w, n.next), Some(EvalFailed(e)))
    case Ok(b) => Outcome(SetNext(w, if b then Some(n.kind.block[0]) else n.next), None)
  }

  /** A menu item without a block, shown as narration instead of a choice. */
  predicate Narrated(item: MenuItem<NodeId>, narratorMenu: bool)
  {
    item.block.NoBlock? && narratorMenu && item.caption != ""
  }

  /**
   * The choice list `Menu.execute` builds from `items[from..]`: narrated
   * captions are left out, and an item with a block carries its index.
   */
  function MenuChoices(items: seq<MenuItem<NodeId>>, narratorMenu: bool, from: nat): (r: seq<Choice>)
    requires from <= |items|
    ensures |r| <= |items| - from
    ensures forall c :: c in r ==> exists i :: from <= i < |items| && !Narrated(items[i], narratorMenu)
                                          && c.caption == items[i].caption && c.condition == items[i].condition
    ensures forall c :: c in r && c.index.Some? ==>
              from <= c.index.value < |items| && items[c.index.value].block.Block?
              && c.caption == items[c.index.value].caption
    ensures forall i :: from <= i < |items| && items[i].block.Block? ==> exists c :: c in r && c.index == Some(i)
    ensures (forall i :: from <= i < |items| ==> !Narrated(items[i], narratorMenu)) ==> |r| == |items| - from
    decreases |items| - from
  {
    if from == |items| then []
    else
      var item := items[from];
      var rest := MenuChoices(items, narratorMenu, from + 1);
      if Narrated(item, narratorMenu) then rest
      else [Choice(item.caption, item.condition, if item.block.Block? then Some(from) else None)] + rest
  }

  /** The captions of the narrated items, joined by the caller into one line of narration. */
  function Narration(items: seq<MenuItem<NodeId>>, narratorMenu: bool, from: nat): (r: seq<string>)
    requires from <= |items|
    ensures forall s :: s in r ==> exists i :: from <= i < |items| && Narrated(items[i], narratorMenu) && items[i].caption == s
    ensures |r| + |MenuChoices(items, narratorMenu, from)| == |items| - from
    decreases |items| - from
  {
    if from == |items| then []
    else
      var rest := Narration(items, narratorMenu, from + 1);
      if Narrated(items[from], narratorMenu) then [items[from].caption] + rest else rest
  }

  /**
   * The `next_node(block[0])` calls of the menu loop over `items[from..]`,
   * starting from `cur`: the last head set, and the index of the first
   * empty block, where `block[0]` raises.
   */
  function ScanHeads(items: seq<MenuItem<NodeId>>, from: nat, cur: Option<NodeId>): (r: (Option<NodeId>, Option<nat>))
    requires from <= |items|
    ensures r.1.Some? ==> from <= r.1.value < |items| && items[r.1.value].block == Block([])
                          && forall i :: from <= i < r.1.value ==> items[i].block != Block([])
    ensures r.1.None? <==> forall i :: from <= i < |items| ==> items[i].block != Block([])
    ensures r.0 == cur || exists i :: from <= i < |items| && items[i].block.Block? && |items[i].block.stmts| > 0
                                      && r.0 == Some(items[i].block.stmts[0])
    decreases |items| - from
  {
    if from == |items| then (cur, None)
    else
      match items[from].block
      case NoBlock => ScanHeads(items, from + 1, cur)
      case Block(b) =>
        if |b| == 0 then (cur, Some(from)) else ScanHeads(items, from + 1, Some(b[0]))
  }

  /** Python's `seq[i]` index: negative indices count from the end. */
  function PyIndex(i: int, length: nat): (r: Option<nat>)
    ensures r.Some? <==> -(length as int) <= i < length
    ensures r.Some? ==> r.value < length && (r.value == i || r.value == length + i)
  {
    if 0 <= i < length then Some(i)
    else if -(length as int) <= i < 0 then Some(length + i)
    else None
  }

  /** No item has an empty block (`block[0]` would raise). */
  predicate NoEmptyBlock(items: seq<MenuItem<NodeId>>)
  {
    forall i :: 0 <= i < |items| ==> items[i].block != Block([])
  }

  /**
   * `Menu.execute`: offer the choices; control goes to the chosen item's
   * block, or to `next` when nothing is chosen. An empty block, a choice
   * that names no item with a block, or an exception from the chooser fails
   * with whatever `next_node` last received.
   */
  function ExecMenu(n: Node, env: Env, w: World): (o: Outcome)
    requires n.kind.Menu?
    ensures o.world.seen == w.seen && o.world.ctx == w.ctx.(nextNode := o.world.ctx.nextNode)
    ensures env.menuArgsError.Some? ==> o == Outcome(SetNext(w, n.next), Some(EvalFailed(env.menuArgsError.value)))
    ensures o.failure.None? ==>
              env.menuArgsError.None?
              && (forall i :: 0 <= i < |n.kind.items| ==> n.kind.items[i].block != Block([]))
              && env.menu(MenuChoices(n.kind.items, env.narratorMenu, 0)).Ok?
    ensures (env.menuArgsError.None? && env.menu(MenuChoices(n.kind.items, env.narratorMenu, 0)) == Ok(None)
             && forall i :: 0 <= i < |n.kind.items| ==> n.kind.items[i].block != Block([]))
            ==> MovedTo(o, w, n.next)
    ensures o.failure.None? && o.world.ctx.nextNode != n.next ==>
              exists c, i :: env.menu(MenuChoices(n.kind.items, env.narratorMenu, 0)) == Ok(Some(c))
                             && PyIndex(c, |n.kind.items|) == Some(i)
                             && n.kind.items[i].block.Block? && |n.kind.items[i].block.stmts| > 0
                             && o.world.ctx.nextNode == Some(n.kind.items[i].block.stmts[0])
    ensures env.menuArgsError.None? && !NoEmptyBlock(n.kind.items) ==>
              o == Outcome(SetNext(w, ScanHeads(n.kind.items, 0, n.next).0), Some(EmptyBlock))
    ensures var m := env.menu(MenuChoices(n.kind.items, env.narratorMenu, 0));
            env.menuArgsError.None? && NoEmptyBlock(n.kind.items) && m.Err? ==>
              o == Outcome(SetNext(w, ScanHeads(n.kind.items, 0, n.next).0), Some(MenuFailed(m.error)))
    ensures var m := env.menu(MenuChoices(n.kind.items, env.narratorMenu, 0));
            env.menuArgsError.None? && NoEmptyBlock(n.kind.items) && m.Ok? && m.value.Some? ==>
              var c := m.value.value;
              var i := PyIndex(c, |n.kind.items|);
              if i.Some? && n.kind.items[i.value].block.Block?
              then MovedTo(o, w, Some(n.kind.items[i.value].block.stmts[0]))
              else o == Outcome(SetNext(w, ScanHeads(n.kind.items, 0, n.next).0), Some(BadChoice(c)))
  {
    var items := n.kind.items;
    var scan := ScanHeads(items, 0, n.next);
    var scanned := SetNext(w, scan.0);
    if env.menuArgsError.Some? then Outcome(SetNext(w, n.next), Some(EvalFailed(env.menuArgsError.value)))
    else if scan.1.Some? then Outcome(scanned, Some(EmptyBlock))
    else
      match env.menu(MenuChoices(items, env.narratorMenu, 0))
      case Err(e) => Outcome(scanned, Some(MenuFailed(e)))
      case Ok(None) => Outcome(SetNext(w, n.next), None)
      case Ok(Some(c)) =>
        match PyIndex(c, |items|)
        case None => Outcome(scanned, Some(BadChoice(c)))
        case Some(i) =>
          if items[i].block.NoBlock? then Outcome(scanned, Some(BadChoice(c)))
          else
            assert items[i].block != Block([]);
            Outcome(SetNext(w, Some(items[i].block.stmts[0])), None)
  }

  /**
   * The label a jump or call names: the target itself, or the value of the
   * target expression, where a value starting with "." is local to the
   * enclosing global label.
   */
  function ResolveLabel(target: string, expression: bool, globalLabel: string,
                        evalLabel: string -> Result<string, string>): (r: Result<string, string>)
    ensures !expression ==> r == Ok(target)
    ensures expression ==> (r.Err? <==> evalLabel(target).Err?)
    ensures expression && evalLabel(target).Ok? ==>
              var v := evalLabel(target).value;
              r.value == (if |v| > 0 && v[0] == '.' then globalLabel + v else v)
  {
    if !expression then Ok(target)
    else
      match evalLabel(target)
      case Err(e) => Err(e)
      case Ok(v) => Ok(if |v| > 0 && v[0] == '.' then globalLabel + v else v)
  }

  /**
   * `Jump.execute`: resolve the label and look it up; on success the
   * transfer is abnormal and control goes to the label. Nothing changes
   * when resolution or lookup raises.
   */
  function ExecJump(sc: Script, n: Node, env: Env, w: World): (o: Outcome)
    requires n.kind.Jump?
    ensures o.world.seen == w.seen
    ensures o.failure.Some? ==> o.world == w
    ensures o.failure.None? <==>
              var l := ResolveLabel(n.kind.target, n.kind.expression, n.kind.globalLabel, env.evalLabel);
              l.Ok? && l.value in sc.labels
    ensures o.failure.None? ==>
              var l := ResolveLabel(n.kind.target, n.kind.expression, n.kind.globalLabel, env.evalLabel).value;
              o.world.ctx == w.ctx.(nextNode := Some(sc.labels[l]), abnormal := true)
  {
    match ResolveLabel(n.kind.target, n.kind.expression, n.kind.globalLabel, env.evalLabel)
    case Err(e) => Outcome(w, Some(EvalFailed(e)))
    case Ok(l) =>
      match LookupOrNone(sc, l)
      case None => Outcome(w, Some(UnknownLabel(l)))
      case Some(t) => Outcome(World(w.ctx.(nextNode := Some(t), abnormal := true), w.seen), None)
  }

  /**
   * `Call.execute`: like a jump, and the statement after the call is pushed
   * as the return site; a call with no following statement raises.
   */
  function ExecCall(sc: Script, n: Node, env: Env, w: World): (o: Outcome)
    requires n.kind.Call?
    ensures o.world.seen == w.seen
    ensures o.failure.Some? ==> o.world == w
    ensures o.failure.None? <==>
              var l := ResolveLabel(n.kind.target, n.kind.expression, n.kind.globalLabel, env.evalLabel);
              l.Ok? && n.next.Some? && l.value in sc.labels
    ensures o.failure.None? ==>
              var l := ResolveLabel(n.kind.target, n.kind.expression, n.kind.globalLabel, env.evalLabel).value;
              o.world.ctx == w.ctx.(nextNode := Some(sc.labels[l]), abnormal := true,
                                    returnStack := w.ctx.returnStack + [n.next.value])
  {
    match ResolveLabel(n.kind.target, n.kind.expression, n.kind.globalLabel, env.evalLabel)
    case Err(e) => Outcome(w, Some(EvalFailed(e)))
    case Ok(l) =>
      if n.next.None? then Outcome(w, Some(NoReturnSite))
      else
        match LookupOrNone(sc, l)
        case None => Outcome(w, Some(UnknownLabel(l)))
        case Some(t) =>
          var ctx := w.ctx.(nextNode := Some(t), abnormal := true, returnStack := w.ctx.returnStack + [n.next.value]);
          Outcome(World(ctx, w.seen), None)
  }

  /**
   * `Return.execute`: evaluate the return value; during the init phase with
   * nothing to return to, raise in developer mode and otherwise do nothing;
   * else pop the return stack and go where the context's return lookup says.
   */
  function ExecReturn(n: Node, env: Env, w: World): (o: Outcome)
    requires n.kind.Return?
    ensures o.world.seen == w.seen
    ensures var e := n.kind.returnExpr;
            e.Some? && e.value != "" && env.evalError(e.value).Some? ==> o == Outcome(w, Some(EvalFailed(env.evalError(e.value).value)))
    ensures o.failure.None? && w.ctx.initPhase && |w.ctx.returnStack| == 0 ==> o.world == w && !env.developer
    ensures o.failure.None? && !(w.ctx.initPhase && |w.ctx.returnStack| == 0) ==>
              o.world.ctx == w.ctx.(nextNode := env.lookupReturn(w.ctx.returnStack),
                                    returnStack := if |w.ctx.returnStack| > 0
                                                   then w.ctx.returnStack[..|w.ctx.returnStack| - 1]
                                                   else w.ctx.returnStack)
    ensures o.failure == Some(ReturnInInit) ==> w.ctx.initPhase && |w.ctx.returnStack| == 0 && env.developer
    ensures var e := n.kind.returnExpr;
            !(e.Some? && e.value != "" && env.evalError(e.value).Some?) ==>
              (o.failure.Some? <==> w.ctx.initPhase && |w.ctx.returnStack| == 0 && env.developer)
  {
    var e := n.kind.returnExpr;
    var err := if e.Some? && e.value != "" then env.evalError(e.value) else None;
    if err.Some? then Outcome(w, Some(EvalFailed(err.value)))
    else if w.ctx.initPhase && |w.ctx.returnStack| == 0 then
      if env.developer then Outcome(w, Some(ReturnInInit)) else Outcome(w, None)
    else
      var stack := w.ctx.returnStack;
      var popped := if |stack| > 0 then stack[..|stack| - 1] else stack;
      Outcome(World(w.ctx.(nextNode := env.lookupReturn(stack), returnStack := popped), w.seen), None)
  }

  /**
   * `Translate.execute`: a translation for a specific language cannot be run
   * (control would continue at `next`); the default-language block goes to
   * the translation the translator picks and records the identifiers.
   */
  function ExecTranslate(n: Node, env: Env, w: World): (o: Outcome)
    requires n.kind.Translate?
    ensures o.world.seen == w.seen
    ensures n.kind.language.Some? ==> o == Outcome(SetNext(w, n.next), Some(RunDirectly))
    ensures n.kind.language.None? ==>
              o.failure.None?
              && o.world.ctx == w.ctx.(nextNode := env.lookupTranslate(n.kind.identifier, n.kind.alternate),
                                       tlid := Some(n.kind.identifier), altTlid := n.kind.alternate)
  {
    if n.kind.language.Some? then Outcome(SetNext(w, n.next), Some(RunDirectly))
    else
      var ctx := w.ctx.(nextNode := env.lookupTranslate(n.kind.identifier, n.kind.alternate),
                        tlid := Some(n.kind.identifier), altTlid := n.kind.alternate);
      Outcome(World(ctx, w.seen), None)
  }

  /**
   * `TranslateSay.execute` of the node at `id`: a default-language line whose
   * translation is another node jumps there; otherwise the line is said and,
   * whether or not saying raises, its identifier is marked seen and the
   * translate identifiers are cleared.
   */
  function ExecTranslateSay(id: NodeId, n: Node, env: Env, w: World): (o: Outcome)
    requires n.kind.TranslateSay?
    ensures var t := env.lookupTranslate(n.kind.identifier, n.kind.alternate);
            n.kind.language.None? && t.Some? && t.value != id ==>
              o.failure.None? && o.world.seen == w.seen
              && o.world.ctx == w.ctx.(nextNode := t, tlid := Some(n.kind.identifier), altTlid := n.kind.alternate)
    ensures var t := env.lookupTranslate(n.kind.identifier, n.kind.alternate);
            n.kind.language.Some? || t.None? || t.value == id ==>
              o.world.seen == MarkSeen(w.seen, n.kind.identifier, env.hashSeen, env.hash64)
              && o.world.ctx == w.ctx.(nextNode := n.next, tlid := None, altTlid := None)
              && (o.failure.Some? <==> env.sayError.Some?)
  {
    var k := n.kind;
    var entered := World(w.ctx.(nextNode := n.next, tlid := Some(k.identifier), altTlid := k.alternate), w.seen);
    var t := env.lookupTranslate(k.identifier, k.alternate);
    if k.language.None? && t.Some? && t.value != id then Outcome(SetNext(entered, t), None)
    else
      var seen := MarkSeen(w.seen, k.identifier, env.hashSeen, env.hash64);
      var done := World(entered.ctx.(tlid := None, altTlid := None), seen);
      Outcome(done, if env.sayError.Some? then Some(SayFailed(env.sayError.value)) else None)
  }

  /** `EndTranslate.execute`: mark the current translation seen, if any, and clear the identifiers. */
  function ExecEndTranslate(n: Node, env: Env, w: World): (o: Outcome)
    requires n.kind.EndTranslate?
    ensures o.failure.None?
    ensures o.world.ctx == w.ctx.(nextNode := n.next, tlid := None, altTlid := None)
    ensures w.ctx.tlid.Some? ==> o.world.seen == MarkSeen(w.seen, w.ctx.tlid.value, env.hashSeen, env.hash64)
    ensures w.ctx.tlid.None? ==> o.world.seen == w.seen
  {
    var seen := if w.ctx.tlid.Some? then MarkSeen(w.seen, w.ctx.tlid.value, env.hashSeen, env.hash64) else w.seen;
    Outcome(World(w.ctx.(nextNode := n.next, tlid := None, altTlid := None), seen), None)
  }

  /**
   * Execute the node at `id`. Statements without their own transfer of
   * control (`pass`, `label`, `init`, a language's `translate` block, and
   * the statements this model does not interpret) continue at `next`.
   */
  function Execute(sc: Script, id: NodeId, env: Env, w: World): (o: Outcome)
    requires id in sc.nodes && Shaped(sc.nodes[id].kind)
    ensures o.world.ctx.initPhase == w.ctx.initPhase
    ensures !(sc.nodes[id].kind.TranslateSay? || sc.nodes[id].kind.EndTranslate?) ==> o.world.seen == w.seen
    ensures !(sc.nodes[id].kind.Call? || sc.nodes[id].kind.Return?) ==> o.world.ctx.returnStack == w.ctx.returnStack
  {
    var n := sc.nodes[id];
    match n.kind
    case If(_) => ExecIf(n, env, w)
    case While(_, _) => ExecWhile(n, env, w)
    case Menu(_) => ExecMenu(n, env, w)
    case Jump(_, _, _) => ExecJump(sc, n, env, w)
    case Call(_, _, _) => ExecCall(sc, n, env, w)
    case Return(_) => ExecReturn(n, env, w)
    case Translate(_, _, _, _, _) => ExecTranslate(n, env, w)
    case TranslateSay(_, _, _) => ExecTranslateSay(id, n, env, w)
    case EndTranslate => ExecEndTranslate(n, env, w)
    case _ => Outcome(SetNext(w, n.next), None)
  }

  /**
   * Static reachability covers execution: when a statement other than a
   * return, a translate, or a computed jump or call completes normally, the
   * node it continues at is one `get_reachable` reports, provided the
   * condition text `True` evaluates true.
   */
  lemma ExecuteStaysReachable(sc: Script, id: NodeId, env: Env, w: World)
    requires id in sc.nodes && Shaped(sc.nodes[id].kind)
    requires var k := sc.nodes[id].kind;
             !k.Return? && !k.Translate? && !k.TranslateSay? && !((k.Jump? || k.Call?) && k.expression)
    requires env.evalCond("True") == Ok(true)
    ensures var o := Execute(sc, id, env, w);
            o.failure.None? && o.world.ctx.nextNode.Some? ==> o.world.ctx.nextNode.value in GetReachable(sc, id)
  {
    match sc.nodes[id].kind
    case If(_) => IfStaysReachable(sc, id, env, w);
    case While(_, _) => WhileStaysReachable(sc, id, env, w);
    case Menu(_) => MenuStaysReachable(sc, id, env, w);
    case Jump(_, _, _) => TargetStaysReachable(sc, id, env, w);
    case Call(_, _, _) => TargetStaysReachable(sc, id, env, w);
    case _ =>
  }

  /** The `if` case of `ExecuteStaysReachable`. */
  lemma IfStaysReachable(sc: Script, id: NodeId, env: Env, w: World)
    requires id in sc.nodes && Shaped(sc.nodes[id].kind) && sc.nodes[id].kind.If?
    requires env.evalCond("True") == Ok(true)
    ensures var o := Execute(sc, id, env, w);
            o.failure.None? && o.world.ctx.nextNode.Some? ==> o.world.ctx.nextNode.value in GetReachable(sc, id)
  {
    var es := sc.nodes[id].kind.entries;
    var o := Execute(sc, id, env, w);
    ReachableBranches(sc, id);
    if o.failure.None? && o.world.ctx.nextNode.Some? {
      match FirstTrue(es, env.evalCond, 0) {
        case Err(_) =>
        case Ok(None) =>
          assert FirstLiteralTrue(es) == |es|;
        case Ok(Some(k)) =>
          var m := FirstLiteralTrue(es);
          assert m < |es| ==> env.evalCond(es[m].condition) == Ok(true);
          assert FirstTrueAt(es, env.evalCond, k);
      }
    }
  }

  /** The `while` case of `ExecuteStaysReachable`. */
  lemma WhileStaysReachable(sc: Script, id: NodeId, env: Env, w: World)
    requires id in sc.nodes && Shaped(sc.nodes[id].kind) && sc.nodes[id].kind.While?
    requires env.evalCond("True") == Ok(true)
    ensures var o := Execute(sc, id, env, w);
            o.failure.None? && o.world.ctx.nextNode.Some? ==> o.world.ctx.nextNode.value in GetReachable(sc, id)
  {
    var c := sc.nodes[id].kind.condition;
    ReachableBranches(sc, id);
    if env.evalCond(c) == Ok(false) {
      assert c != "True";
    }
  }

  /** The menu case of `ExecuteStaysReachable`. */
  lemma MenuStaysReachable(sc: Script, id: NodeId, env: Env, w: World)
    requires id in sc.nodes && Shaped(sc.nodes[id].kind) && sc.nodes[id].kind.Menu?
    ensures var o := Execute(sc, id, env, w);
            o.failure.None? && o.world.ctx.nextNode.Some? ==> o.world.ctx.nextNode.value in GetReachable(sc, id)
  {
    ReachableBranches(sc, id);
  }

  /** The static jump and call case of `ExecuteStaysReachable`. */
  lemma TargetStaysReachable(sc: Script, id: NodeId, env: Env, w: World)
    requires id in sc.nodes && Shaped(sc.nodes[id].kind)
    requires (sc.nodes[id].kind.Jump? || sc.nodes[id].kind.Call?) && !sc.nodes[id].kind.expression
    ensures var o := Execute(sc, id, env, w);
            o.failure.None? && o.world.ctx.nextNode.Some? ==> o.world.ctx.nextNode.value in GetReachable(sc, id)
  {
    var o := Execute(sc, id, env, w);
    if o.failure.None? && o.world.ctx.nextNode.Some? {
      assert LookupOrNone(sc, sc.nodes[id].kind.target) == Some(o.world.ctx.nextNode.value);
    }
  }

  /**
   * A translated line is counted once: saying it marks its identifier seen,
   * and saying it again leaves the record and both counters as they were.
   */
  lemma TranslateSayCountsOnce(sc: Script, id: NodeId, env: Env, w: World)
    requires id in sc.nodes && sc.nodes[id].kind.TranslateSay?
    requires var k := sc.nodes[id].kind;
             var t := env.lookupTranslate(k.identifier, k.alternate);
             k.language.Some? || t.None? || t.value == id
    ensures var w1 := Execute(sc, id, env, w).world;
            && IsSeen(w1.seen, sc.nodes[id].kind.identifier, env.hash64)
            && w1.seen.seenCount <= w.seen.seenCount + 1
            && w1.ctx.tlid.None? && w1.ctx.altTlid.None?
            && Execute(sc, id, env, w1).world.seen == w1.seen
  {
    var k := sc.nodes[id].kind;
    var w1 := Execute(sc, id, env, w).world;
    MarkSeenIdempotent(w.seen, k.identifier, env.hashSeen, env.hashSeen, env.hash64);
  }

  /**
   * The end of a translate block after a translated line adds nothing: the
   * line already marked itself seen and cleared the identifier.
   */
  lemma EndAfterSayAddsNothing(sc: Script, id: NodeId, endId: NodeId, env: Env, w: World)
    requires id in sc.nodes && sc.nodes[id].kind.TranslateSay?
    requires var k := sc.nodes[id].kind;
             var t := env.lookupTranslate(k.identifier, k.alternate);
             k.language.Some? || t.None? || t.value == id
    requires endId in sc.nodes && sc.nodes[endId].kind.EndTranslate?
    ensures var w1 := Execute(sc, id, env, w).world;
            Execute(sc, endId, env, w1).world.seen == w1.seen
  {
  }

  /**
   * An explicit translate block followed by its end marker counts the
   * identifier once: the block records it, the end marker marks it seen and
   * clears it.
   */
  lemma TranslateThenEndCounts(sc: Script, id: NodeId, endId: NodeId, env: Env, w: World)
    requires id in sc.nodes && sc.nodes[id].kind.Translate? && sc.nodes[id].kind.language.None?
    requires endId in sc.nodes && sc.nodes[endId].kind.EndTranslate?
    ensures var w1 := Execute(sc, id, env, w).world;
            var w2 := Execute(sc, endId, env, w1).world;
            && w2.seen == MarkSeen(w.seen, sc.nodes[id].kind.identifier, env.hashSeen, env.hash64)
            && w2.ctx.tlid.None? && w2.ctx.altTlid.None?
            && Execute(sc, endId, env, w2).world.seen == w2.seen
  {
  }

  /**
   * A `return` during the init phase with nothing to return to raises
   * exactly in developer mode, and otherwise leaves everything as it was.
   */
  lemma InitPhaseReturn(sc: Script, id: NodeId, env: Env, w: World)
    requires id in sc.nodes && sc.nodes[id].kind.Return? && sc.nodes[id].kind.returnExpr.None?
    requires w.ctx.initPhase && |w.ctx.returnStack| == 0
    ensures var o := Execute(sc, id, env, w);
            o.world == w && (o.failure.Some? <==> env.developer)
  {
  }
}
