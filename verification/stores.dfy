/**
 * Store variables set by `define` and `default` (renpy/ast.py `Define.set`
 * and `Default.execute_default`) for ordinary namespaces.
 *
 * Values are of an arbitrary type `V`; evaluating the statement's
 * expressions and Python's `+`, `|`, `x[k]` and `x[k] = v` are given as
 * results, since each may raise.
 */
module Stores {
  import opened Wrappers

  /** A namespace's variables. */
  type Vars<V> = map<string, V>

  /** Python operations a `define` may perform on values; each may raise. */
  datatype ValueOps<!V> = ValueOps(
    add: (V, V) -> Result<V, string>,
    union: (V, V) -> Result<V, string>,
    getItem: (V, V) -> Result<V, string>,
    setItem: (V, V, V) -> Result<V, string>,
    none: V)

  /** The new value of an augmented or plain define: `value`, `old + value`, `old | value`, or None for any other operator. */
  function Combine<V>(ops: ValueOps<V>, operator: string, prior: V, value: V): Result<V, string>
  {
    if operator == "=" then Ok(value)
    else if operator == "+=" then ops.add(prior, value)
    else if operator == "|=" then ops.union(prior, value)
    else Ok(ops.none)
  }

  /**
   * `Define.set`: evaluate the value; a plain `define x = e` sets the
   * variable directly; otherwise read the variable, evaluate the index if
   * any, combine with the old value or item, and write the variable or item.
   */
  function DefineSet<V>(vars: Vars<V>, varname: string, operator: string,
                        value: Result<V, string>, index: Option<Result<V, string>>,
                        ops: ValueOps<V>): (r: Result<Vars<V>, string>)
    ensures value.Err? ==> r == Err(value.error)
    ensures r.Ok? ==> varname in r.value && r.value.Keys == vars.Keys + {varname}
    ensures r.Ok? ==> forall n :: n in vars && n != varname ==> r.value[n] == vars[n]
    ensures value.Ok? && index.None? && operator == "=" ==> r == Ok(vars[varname := value.value])
    ensures (index.Some? || operator != "=") && varname !in vars ==> r.Err?
  {
    if value.Err? then Err(value.error)
    else if index.None? && operator == "=" then Ok(vars[varname := value.value])
    else if varname !in vars then Err("KeyError: " + varname)
    else
      var base := vars[varname];
      match index
      case None =>
        (match Combine(ops, operator, base, value.value)
         case Err(e) => Err(e)
         case Ok(nv) => Ok(vars[varname := nv]))
      case Some(k) =>
        if k.Err? then Err(k.error)
        else
          var prior := if operator != "=" then ops.getItem(base, k.value) else Ok(base);
          if prior.Err? then Err(prior.error)
          else
            match Combine(ops, operator, prior.value, value.value)
            case Err(e) => Err(e)
            case Ok(nv) =>
              (match ops.setItem(base, k.value, nv)
               case Err(e) => Err(e)
               case Ok(b) => Ok(vars[varname := b]))
  }

  /** A plain `define` re-run (as `redefine` does) leaves the same store: it is idempotent. */
  lemma DefineAssignIdempotent<V>(vars: Vars<V>, varname: string, value: V, ops: ValueOps<V>)
    ensures DefineSet(vars, varname, "=", Ok(value), None, ops).Ok?
    ensures DefineSet(DefineSet(vars, varname, "=", Ok(value), None, ops).value, varname, "=", Ok(value), None, ops)
            == DefineSet(vars, varname, "=", Ok(value), None, ops)
  {
    assert vars[varname := value][varname := value] == vars[varname := value];
  }

  /** `define x += e` stores `x + e` when the addition succeeds, and fails as the addition does. */
  lemma DefineAugmented<V>(vars: Vars<V>, varname: string, value: V, ops: ValueOps<V>)
    requires varname in vars
    ensures var r := DefineSet(vars, varname, "+=", Ok(value), None, ops);
            match ops.add(vars[varname], value)
            case Ok(nv) => r == Ok(vars[varname := nv])
            case Err(e) => r == Err(e)
    ensures var r := DefineSet(vars, varname, "|=", Ok(value), None, ops);
            match ops.union(vars[varname], value)
            case Ok(nv) => r == Ok(vars[varname := nv])
            case Err(e) => r == Err(e)
  {
  }

  /** `define x[k] = e` replaces the item without reading it first. */
  lemma DefineItem<V>(vars: Vars<V>, varname: string, key: V, value: V, ops: ValueOps<V>)
    requires varname in vars
    ensures var r := DefineSet(vars, varname, "=", Ok(value), Some(Ok(key)), ops);
            match ops.setItem(vars[varname], key, value)
            case Ok(b) => r == Ok(vars[varname := b])
            case Err(e) => r == Err(e)
  {
  }

  /** An index that raises fails the define with its error, whatever the operator. */
  lemma DefineIndexFails<V>(vars: Vars<V>, varname: string, operator: string, value: V, e: string, ops: ValueOps<V>)
    requires varname in vars
    ensures DefineSet(vars, varname, operator, Ok(value), Some(Err(e)), ops) == Err(e)
  {
  }

  /**
   * `define x[k] += e` reads the item `x[k]`, adds `e`, and stores the sum as
   * the item; `|=` does the same with union. Each step that raises fails the
   * define with its error.
   */
  lemma DefineAugmentedItem<V>(vars: Vars<V>, varname: string, operator: string, key: V, value: V, ops: ValueOps<V>)
    requires varname in vars
    requires operator == "+=" || operator == "|="
    ensures var base := vars[varname];
            var r := DefineSet(vars, varname, operator, Ok(value), Some(Ok(key)), ops);
            match ops.getItem(base, key)
            case Err(e) => r == Err(e)
            case Ok(item) =>
              match (if operator == "+=" then ops.add(item, value) else ops.union(item, value))
              case Err(e) => r == Err(e)
              case Ok(nv) =>
                match ops.setItem(base, key, nv)
                case Err(e) => r == Err(e)
                case Ok(b) => r == Ok(vars[varname := b])
  {
  }

  /** `config.developer`: True, False, or the truthy string "auto". */
  datatype Developer = DevTrue | DevFalse | DevAuto

  predicate Truthy(d: Developer)
  {
    d != DevFalse
  }

  /**
   * The parts of a store dictionary `execute_default` touches: the
   * variables, the `_defaults_set` entry (None until created), and the set
   * of names that have ever been changed.
   */
  datatype StoreDict<V> = StoreDict(vars: Vars<V>, defaultsSet: Option<set<string>>, everChanged: set<string>)

  /** Why a default fails. */
  datatype DefaultError = DefaultedTwice | ShadowsStore | EvalFailed(message: string)

  /**
   * `Default.execute_default`: create `_defaults_set` if missing; a variable
   * already defaulted is an error at start in developer mode and otherwise
   * skipped; at start with `developer is True` a store of the same full name
   * is an error; the value is assigned at start or when the variable was
   * never changed; the variable is then marked changed and defaulted.
   */
  function ExecuteDefault<V>(d: StoreDict<V>, store: string, varname: string, value: Result<V, string>,
                             start: bool, developer: Developer, storeNames: set<string>)
    : (r: (StoreDict<V>, Option<DefaultError>))
    ensures r.0.defaultsSet.Some?
    ensures r.1.None? ==> varname in r.0.defaultsSet.value
    ensures r.1.None? && (d.defaultsSet.None? || varname !in d.defaultsSet.value) ==> varname in r.0.everChanged
    ensures d.defaultsSet.Some? && varname in d.defaultsSet.value ==>
              r == (d, if start && Truthy(developer) then Some(DefaultedTwice) else None)
    ensures forall n :: n in d.vars && n != varname ==> n in r.0.vars && r.0.vars[n] == d.vars[n]
  {
    var d1 := if d.defaultsSet.None?
              then d.(defaultsSet := Some({}), everChanged := d.everChanged + {"_defaults_set"})
              else d;
    if varname in d1.defaultsSet.value then
      (d1, if start && Truthy(developer) then Some(DefaultedTwice) else None)
    else if start && developer == DevTrue && store + "." + varname in storeNames then
      (d1, Some(ShadowsStore))
    else if start || varname !in d1.everChanged then
      match value
      case Err(e) => (d1, Some(EvalFailed(e)))
      case Ok(v) =>
        (StoreDict(d1.vars[varname := v], Some(d1.defaultsSet.value + {varname}), d1.everChanged + {varname}), None)
    else
      (d1.(defaultsSet := Some(d1.defaultsSet.value + {varname}), everChanged := d1.everChanged + {varname}), None)
  }

  /**
   * A default applies once: after it succeeds, running it again outside
   * start-up changes nothing and raises nothing.
   */
  lemma DefaultOnce<V>(d: StoreDict<V>, store: string, varname: string, value: Result<V, string>,
                       again: Result<V, string>, start: bool, developer: Developer, storeNames: set<string>)
    requires ExecuteDefault(d, store, varname, value, start, developer, storeNames).1.None?
    ensures var d2 := ExecuteDefault(d, store, varname, value, start, developer, storeNames).0;
            ExecuteDefault(d2, store, varname, again, false, developer, storeNames) == (d2, None)
  {
  }

  /**
   * The two ways a first default fails. At start with `config.developer`
   * exactly True, a store named `store.varname` makes it an error ("auto"
   * never does); otherwise a raising expression, when the value would be
   * assigned, fails it. Either way no variable changes and the name is not
   * recorded as defaulted.
   */
  lemma DefaultFailures<V>(d: StoreDict<V>, store: string, varname: string, value: Result<V, string>,
                           start: bool, developer: Developer, storeNames: set<string>)
    requires d.defaultsSet.None? || varname !in d.defaultsSet.value
    ensures var r := ExecuteDefault(d, store, varname, value, start, developer, storeNames);
            var shadows := start && developer == DevTrue && store + "." + varname in storeNames;
            && (r.1 == Some(ShadowsStore) <==> shadows)
            && (shadows ==> r.0.vars == d.vars && varname !in r.0.defaultsSet.value)
            && (forall e :: r.1 == Some(EvalFailed(e)) ==> value == Err(e))
            && (!shadows && value.Err? && (start || (varname !in d.everChanged && varname != "_defaults_set")) ==>
                  r.1 == Some(EvalFailed(value.error)) && r.0.vars == d.vars && varname !in r.0.defaultsSet.value)
  {
  }

  /**
   * A default never overwrites a variable the game has already changed,
   * unless the game is starting; at start (or for an unchanged variable) it
   * assigns the value.
   */
  lemma DefaultRespectsChanges<V>(d: StoreDict<V>, store: string, varname: string, value: V,
                                  start: bool, developer: Developer, storeNames: set<string>)
    requires d.defaultsSet.None? || varname !in d.defaultsSet.value
    requires !(start && developer == DevTrue && store + "." + varname in storeNames)
    ensures var r := ExecuteDefault(d, store, varname, Ok(value), start, developer, storeNames);
            && r.1.None?
            && (!start && varname in d.everChanged ==> r.0.vars == d.vars)
            && (start || (varname !in d.everChanged && varname != "_defaults_set") ==> r.0.vars == d.vars[varname := value])
  {
  }
}
