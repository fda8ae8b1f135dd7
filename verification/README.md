# Ren'Py script statement graph, in Dafny

This project models the core of Ren'Py's script interpreter, `renpy/ast.py`. Parsed script statements (`Node` subclasses) are linked into a graph by their `next` fields. The model covers:

- **Load-time chaining.** `chain_block` and the per-statement `chain` overrides wire every statement to its successor. `replace_next` rewires them in place.
- **Static reachability.** This is the per-statement `get_reachable` and the breadth-first `get_reachable_nodes` walk that the linter and the translation tools use.
- **One step of execution.** This covers the control-flow statements: `if`, `while`, `menu`, `jump`, `call`, `return`, `translate`, the translated say line, the end of a translate block, and the plain fall-through statements. A step ends wherever `next_node` last pointed, together with the exception raised, if any.
- **Bookkeeping.** This covers:
  - the compact encoding of node names;
  - the margin removal `PyCode.dedent`;
  - the once-only "seen translation" counters;
  - the store updates of `define` and `default`.

Statements are modelled twice:
- At load time, as an ownership tree `Syntax.Stmt`. Each statement has an address `id`, a variant payload `Kind`, and a `next` link. Object identity (`is`) in the source is equality of addresses.
- At run time, as an arena `Reachable.Script`. It holds a map from address to `Node` with `Option` links, the label table, and the translator's table of translations.

`Load.LoadedScriptClosed` connects the two views. Chaining a parsed script gives an arena in which every link that reachability reports is a node of the arena.

Modules, one per file:
- `Wrappers`: `Option` and `Result`.
- `Syntax`: the statement variants.
- `Chaining`: `chain` and `replace_next`.
- `Reachable`: `get_reachable` and the worklist walk.
- `Load`: from the tree to the arena.
- `Execute`: one step.
- `SeenTranslations`: the seen-translation record.
- `Naming`: node names.
- `Dedent`: `PyCode.dedent` and the `PyCode` constructor.
- `Stores`: `define` and `default`.

The environment is passed in as parameters:
- the Python evaluator;
- the menu chooser;
- the say machinery;
- the translator's `lookup_translate`;
- the context's `lookup_return`;
- `hash64`;
- the values of `config.developer`, `config.narrator_menu` and `config.hash_seen`.

## Model

| member | source | states |
|---|---|---|
| Chaining.ChainBlock | renpy/ast.py:592-605 | Element j of a block is chained to element j+1 and the last one to the block's follower. An empty block stays empty. |
| Chaining.ChainNext | renpy/ast.py:429-438 | The `next` each `chain` override sets. Jump (2169-2170) and return (1899-1900) get None. A label (1198-1204) or translate (3120-3127) with a non-empty block gets the block's first statement. Every other statement gets the following statement, including while (2271-2273), init (1139-1142) and translate-language blocks (3492-3494). A translate records `after`. |
| Chaining.ChainBlocks | renpy/ast.py:2271-2273 | A while body is chained back to the while statement. Init (1139-1142) and translate-language blocks (3492-3494) end in None. Label, if (2339-2344), menu (1984-1991) and translate blocks end at the following statement. |
| Chaining.ChainEntries | renpy/ast.py:2339-2344 | Each `if` clause keeps its condition, and its block is chained to the statement after the `if`. |
| Chaining.ChainItems | renpy/ast.py:1984-1991 | Each menu item keeps its caption and its condition, and it has a block exactly when it had one. Only items with a block are chained, to the statement after the menu. |
| Chaining.ChainKeepsFields | renpy/ast.py:429-438 | Chaining changes only links and blocks. Each statement keeps its variant and every other field: the condition, clause conditions, menu captions, label name, init priority and translate identifier, language and alternate. A translate's `after` becomes the following statement (3120-3127). |
| Chaining.NoDanglingLinks | renpy/ast.py:592-605 | After chaining, every link in the tree is None, the follower given, or the address of a statement of the same tree. |
| Chaining.ChainKeepsIds | renpy/ast.py:592-605 | Chaining neither adds nor drops statements: the tree's addresses are the same before and after. |
| Chaining.BackLinksOnlyToWhile | renpy/ast.py:2271-2273 | Back-edges occur only where intended. In a chained tree with distinct addresses, only a while statement is linked to from inside its own tree. |
| Chaining.ReplaceInItems | renpy/ast.py:1993-1999 | In a menu, `new` is inserted in front of each item block whose first statement is `old`. Items without a block are untouched. |
| Chaining.ReplaceNext | renpy/ast.py:440-446 | `next` becomes `new` exactly when it was `old`, and a translate's `after` likewise (3130-3137). While (2276-2281), if (2346-2352), menu (1993-1999) and translate put `new` in front of blocks starting with `old`; other statements leave their blocks alone. No link to `old` remains, and the only link added is to `new`. |
| Chaining.ReplaceNextIdempotent | renpy/ast.py:440-446 | Replacing `old` by a different `new` a second time changes nothing. |
| Chaining.ReplaceNextKeepsFields | renpy/ast.py:440-446 | Rewiring keeps the variant and every field other than the blocks and `after`, including menu captions, conditions and which items have a block (1993-1999). A translate's `after` becomes `new` exactly when it was `old` (3130-3137). |
| Chaining.ReplaceNextUnrelated | renpy/ast.py:2346-2352 | A statement that neither links to `old` nor has a block starting with it is left unchanged. |
| Reachable.NonEmptyHeads | renpy/ast.py:2095-2112 | The reported menu targets are exactly the first statements of the non-empty item blocks. |
| Reachable.TranslateHeads | renpy/ast.py:3180-3191 | The translations reported are exactly the first statements of the non-empty blocks of the translate nodes recorded for the identifier. |
| Reachable.FirstLiteralTrue | renpy/ast.py:2379-2390 | Gives the index of the first clause whose condition text is exactly `True`: no earlier clause is, and that one is. Gives the clause count when none is. |
| Reachable.IfReachable | renpy/ast.py:2379-2390 | `If.get_reachable` lists the first statements of the clauses up to and including the first literal `True` clause. Only when there is no such clause does it also list `next`. |
| Reachable.GetReachable | renpy/ast.py:527-541 | The default is `[next]`, overridden by call (1872-1882), jump (2223-2235), menu (2095-2112), while (2306-2310), if, translate (3180-3191) and translated say (3334-3346). Everything reported is a static link of the node. `next` is reported unless a literal `True` condition diverts control. |
| Reachable.GetReachableOrder | renpy/ast.py:527-541 | Gives the exact list for each kind. For call (1872-1882) and jump (2223-2235), the static target, if the label exists, comes before `next`. For menu (2095-2112), the item heads come before `next`. For while (2306-2310), the body comes first, then `next` unless the condition is `True`. For a default-language translate (3180-3191) or translated line (3334-3346), `next` comes first, then every recorded translation's head. Other statements report only `next`. |
| Reachable.ReachableBranches | renpy/ast.py:2306-2310 | It reports the while body's first statement, every `if` clause up to the first literal `True` one (2379-2390), and every non-empty menu block (2095-2112). |
| Reachable.WhileTrueOnlyBody | renpy/ast.py:2306-2310 | `while True:` reports only its body, never what follows the loop. |
| Reachable.LanguageTranslateOnlyNext | renpy/ast.py:3180-3191 | A translate for a specific language reports only its `next`. |
| Reachable.NewEntries | renpy/ast.py:865-877 | The entry nodes the walk emits first: those not already seen, each once, in entry order. |
| Reachable.Admitted | renpy/ast.py:879-886 | A successor is queued exactly when it is unseen and the validator accepts the edge. |
| Reachable.Search | renpy/ast.py:865-888 | The worklist loop over any successor function terminates on cyclic graphs. It returns each node at most once. It returns the unseen entries first, in order, and every later node is reached by an accepted edge from an earlier result node. The order is breadth-first. Take the queue made of the entries followed by the admitted successors of each result node in turn (`Reachable.Worklist`). The result is that queue with repeats and already-seen nodes dropped. `seen` ends as its old contents plus the result. Every accepted edge out of the result leads into `seen`. |
| Reachable.BreadthFirstNotDepthFirst | renpy/ast.py:865-888 | Takes entry 0 with edges 0→1, 0→2 and 1→3. The promised order accepts the breadth-first visit 0, 1, 2, 3 and rejects the depth-first 0, 1, 3, 2. |
| Reachable.GetReachableNodes | renpy/ast.py:831-888 | `get_reachable_nodes` over a closed script gives the same guarantees, with `get_reachable` as the successor function: termination, no repeats, entry order, breadth-first order, validated discovery, updated `seen`, and closure. |
| Load.KindByAddress | renpy/ast.py:2248-2257 | The view of a node's own statement lists (a while's `block`, and likewise the `if` entries at 2313-2324, menu items at 1937-1962 and translate blocks at 3077-3113) by address. Every block keeps its addresses in order, the block shapes are kept, and a translate keeps its `after`. |
| Load.KindByAddressKeepsFields | renpy/ast.py:2248-2257 | The arena node keeps the statement's variant and every field other than its blocks. That covers conditions, clause conditions (2313-2324), menu captions, conditions and block presence (1937-1962), jump and call targets, return expressions, and translate identifiers, languages and alternates (3077-3113). |
| Load.LoadedScriptClosed | renpy/ast.py:592-605 | Chain a parsed script's top-level block into None and take the arena of the result, with label targets inside the script. Then every node has its parsed shape, and everything `get_reachable` reports is a node. |
| Execute.FirstTrue | renpy/ast.py:2354-2361 | Clauses are evaluated in order. The result is the first true one, none when all are false, or the exception of the first condition that raises, with all earlier conditions false. |
| Execute.ExecIf | renpy/ast.py:2354-2361 | When clause k is the first true one, control goes to its block's first statement. When all are false, control goes to `next`. When the first condition that is not false raises, the step fails with that error and `next` as the target. |
| Execute.ExecWhile | renpy/ast.py:2283-2289 | A true condition enters the body, a false one goes to `next`. A raising condition fails with `next` as the target. |
| Execute.MenuChoices | renpy/ast.py:2024-2040 | The offered choices leave out narrated captions. Every item with a block is offered with its own index, and any index points at an item with a block. |
| Execute.Narration | renpy/ast.py:2024-2051 | Narration holds exactly the captions of narrated items. Together with the choices, every item is accounted for once. |
| Execute.ScanHeads | renpy/ast.py:2038-2042 | The loop's `next_node(block[0])` calls end at the first empty block, which raises, and at no other item. The last target set is a block's first statement or the earlier target. |
| Execute.PyIndex | renpy/ast.py:2057-2058 | Python indexing of the items by the chooser's answer: indices from -len to len-1, negative ones counted from the end. |
| Execute.ExecMenu | renpy/ast.py:2001-2060 | When the menu's own arguments raise (2005-2006), the step fails with control at `next`, before any block head is scanned or the chooser is asked. Otherwise, an empty item block raises, with the target left by the scan (2038-2042). A chooser error fails with the same target. With no choice, control goes to `next`. A choice that indexes an item with a block goes to that block's first statement. Any other choice fails with `BadChoice` and the scanned target. Success requires arguments that evaluate, no empty block and an answer from the chooser. Only `next_node` changes. |
| Execute.ResolveLabel | renpy/ast.py:2177-2182 | A static target is used as is. An evaluated label starting with "." is prefixed by the enclosing global label. Evaluation errors propagate. |
| Execute.ExecJump | renpy/ast.py:2173-2187 | It succeeds exactly when the label resolves and exists. Then control goes to the label and the transfer is abnormal. On failure nothing changes. |
| Execute.ExecCall | renpy/ast.py:1819-1832 | Like a jump, and additionally the statement after the call is pushed as the return site. It fails with nothing changed when there is no following statement. |
| Execute.ExecReturn | renpy/ast.py:1903-1923 | A raising return expression fails first. Otherwise the step fails exactly in the init phase with an empty return stack in developer mode. Outside developer mode that case changes nothing. Otherwise the step pops the stack, if it is not empty, and continues where the return lookup says. Nothing else in the context changes. |
| Execute.InitPhaseReturn | renpy/ast.py:1914-1920 | With no return expression, an init-phase return with nothing to return to leaves everything unchanged and raises exactly in developer mode. |
| Execute.ExecTranslate | renpy/ast.py:3145-3156 | A language-specific translate raises with control at `next`. The default-language block goes to the looked-up translation and records both translate identifiers. |
| Execute.ExecTranslateSay | renpy/ast.py:3268-3310 | A default-language line whose translation is another node goes there. Otherwise the line is said and, whether or not saying raises, its identifier is marked seen and both identifiers are cleared. |
| Execute.ExecEndTranslate | renpy/ast.py:3362-3383 | It marks the current identifier seen, if there is one, clears both identifiers and continues at `next`. |
| Execute.Execute | renpy/ast.py:449-456 | The dispatch never changes the init phase. Only the translated say line and the end of a translate block touch the seen record. Only call and return touch the return stack. |
| Execute.ExecuteStaysReachable | renpy/ast.py:527-541 | Take any statement but a return, a translate, a translated line or a computed jump or call. When it completes, it continues at a node `get_reachable` reports, provided the text `True` evaluates true. |
| Execute.TranslateSayCountsOnce | renpy/ast.py:3294-3310 | Saying a translated line marks it seen, adds at most one to the counter and clears the identifiers. Saying it again leaves the record and the counters as they are. |
| Execute.EndAfterSayAddsNothing | renpy/ast.py:3308-3310 | After a translated line, the end of a translate block counts nothing: the line already did the end's work. |
| Execute.TranslateThenEndCounts | renpy/ast.py:3365-3383 | A default-language translate followed by its end counts the identifier exactly once and clears it. A second end adds nothing. |
| SeenTranslations.MarkSeen | renpy/ast.py:3294-3306 | The identifier ends up seen in raw or hashed form. When it was not seen in either form, exactly the key `config.hash_seen` selects is added. Otherwise the record is kept. Both counters grow by one exactly when it was not seen. |
| SeenTranslations.MarkSeenIdempotent | renpy/ast.py:3368-3380 | Marking twice equals marking once, even if `config.hash_seen` changes in between. |
| SeenTranslations.MarkAllCounts | renpy/ast.py:3294-3306 | Over a run of identifiers, both counters grow by the number of distinct identifiers not yet seen, and all of them end up seen. This assumes the hash does not merge identifiers. |
| SeenTranslations.MarkAllKeepsSeen | renpy/ast.py:3368-3380 | Marking never forgets an identifier already seen. |
| Naming.Fresh | renpy/ast.py:383-395 | A freshly constructed node reads back as unnamed. |
| Naming.NameRoundTrip | renpy/ast.py:333-362 | A truthy name reads back as written. That holds whether it went to `_name` or, as a (own file, int, int) triple with non-zero version, to the two integer slots. |
| Naming.ZeroVersionReadsUnnamed | renpy/ast.py:346-351 | A compact triple with version 0 reads back as None. |
| Naming.ClearKeepsCompact | renpy/ast.py:353-362 | Assigning None (or another false name) after a compact triple leaves the triple visible. |
| Naming.ForeignTripleKeptWhole | renpy/ast.py:356-362 | A triple naming another file is stored whole in `_name` and read back unchanged. |
| Naming.UnnamedNodesEqual | renpy/ast.py:366-372 | Two nodes that were never named compare equal. |
| Naming.CompactNamesEqual | renpy/ast.py:366-372 | Two compactly named nodes are equal exactly when file, version and serial agree. |
| Dedent.LeadingSpaces | renpy/ast.py:175-177 | A line's indent is its longest prefix of spaces (tabs are not indentation). |
| Dedent.Mismatch | renpy/ast.py:208-212 | The first position where two indents differ: they agree before it and differ at it. |
| Dedent.MarginStep | renpy/ast.py:192-212 | Each step of the margin loop keeps a common prefix of the margin so far and the new indent. |
| Dedent.MarginIsCommonPrefix | renpy/ast.py:190-212 | The final margin is a prefix of every indent. |
| Dedent.MarginIsShortest | renpy/ast.py:190-212 | The final margin is itself one of the indents, made of spaces, and no longer than any indent. |
| Dedent.DedentStrips | renpy/ast.py:214-220 | The offset is the margin's width. Every matched line loses exactly that many leading spaces, and the number of lines is kept. |
| Dedent.DedentIdempotent | renpy/ast.py:180-220 | Dedenting a dedented text changes nothing and reports offset 0. |
| Dedent.JoinLines | renpy/ast.py:214-215 | Splitting a text at newlines and joining the lines back gives the text; line-wise substitution keeps every newline. |
| Dedent.NewPyCodeAsWritten | renpy/ast.py:161-167 | As written, the constructor keeps the requested mode but tests the class default mode. So it never dedents: the source is kept verbatim with offset 0 whatever the mode. |
| Dedent.AsWrittenKeepsIndent | renpy/ast.py:161-167 | Takes the statement block "  pass" in exec mode. As written the constructor keeps it with offset 0; as intended it becomes "pass" with offset 2. |
| Dedent.NewPyCode | renpy/ast.py:142-172 | The corrected constructor keeps the mode. |
| Dedent.NewPyCodeDedents | renpy/ast.py:161-166 | Corrected, expressions are kept verbatim. Statement blocks become the dedented text, with no margin left, and the offset is the margin removed. |
| Stores.DefineSet | renpy/ast.py:2767-2798 | Evaluation errors come first. A plain `define x = e` sets the variable. Other forms read an existing variable, so a missing one is an error. The variable is created or replaced, and no other variable changes. |
| Stores.DefineAssignIdempotent | renpy/ast.py:2760-2765 | Re-running a plain define, as `redefine` does, leaves the same store. |
| Stores.DefineAugmented | renpy/ast.py:2788-2798 | `define x += e` stores `x + e`, and `|=` stores `x \| e`, each failing exactly as the operation does. |
| Stores.DefineItem | renpy/ast.py:2782-2798 | `define x[k] = e` stores the item without reading it first, and fails as the item assignment does. |
| Stores.DefineIndexFails | renpy/ast.py:2782-2783 | An index expression that raises fails the define with its error, whatever the operator. |
| Stores.DefineAugmentedItem | renpy/ast.py:2782-2798 | `define x[k] += e` reads the item `x[k]`, adds `e`, and stores the result as the item; `\|=` does the same with union. A failing read, combination or item assignment fails the define with its error. |
| Stores.ExecuteDefault | renpy/ast.py:2855-2898 | The defaults set exists afterwards. A variable already defaulted is skipped unchanged, and it is an error only at start in developer mode. A successful default records the variable, and no other variable changes. |
| Stores.DefaultFailures | renpy/ast.py:2884-2894 | A first default fails in two ways. At start with `config.developer` exactly True, it fails when a store named `store.varname` exists (2884-2891); this happens in that case and no other, so "auto" never causes it. Otherwise, when the value would be assigned and its expression raises, it fails with that error (2893-2894). Either way no variable changes and the name is not recorded as defaulted. |
| Stores.DefaultOnce | renpy/ast.py:2874-2881 | After a successful default, running it again outside start-up changes nothing and raises nothing. |
| Stores.DefaultRespectsChanges | renpy/ast.py:2893-2896 | Outside start-up, a variable the game already changed is not overwritten. At start, or for an unchanged variable, the value is assigned. |

## Left out

- Evaluation of Python expressions, `renpy.exports.say`/`menu`, `lookup_translate` and `lookup_return` are parameters of `Execute.Env`. Argument binding (`ArgumentInfo`, `apply_arguments`) is not modelled. The one exception is a menu's own arguments: whether evaluating them raises is the `menuArgsError` parameter, and the values are not passed on. The evaluator is pure, so side effects of a condition or label expression on the store are not modelled.
- The call stack behind `call`/`return`: `context().call`, `lookup_return` fallbacks, `pop_dynamic` and `_return`. `Execute.ExecCall` pushes the return site itself, and `Execute.ExecReturn` takes the target from `lookup_return` as a parameter. No pairing of calls and returns is claimed. The return site is the following node's address, not its name.
- Execute.ExecCall: a failed label lookup leaves the return stack unchanged. Whether `context().call` pushes before or after its own lookup is outside this model, as is the argument evaluation after the call.
- Label execution's `mark_seen`, argument binding and label callbacks; `statement_name` callbacks and `not_infinite_loop`.
- Jump and call targets that evaluate to non-strings, and label overrides inside `Script.lookup`: `evalLabel` yields strings only.
- Execute.ExecuteStaysReachable: translations reached by `translate` and translated say lines are not covered. Where `lookup_translate` leads depends on the translator's tables, which are outside this model.
- Execute.ExecMenu: the values of the menu's own arguments (renpy/ast.py:2005-2006) are not modelled; only whether evaluating them raises is. Also not modelled: the `nvl` keyword, `say_menu_text_filter`, `say_menu_with`, item arguments and the set of already chosen captions. Narration is computed (`Execute.Narration`) but not said.
- Display statements, Python blocks, screens, styles and testcases are `Plain`: they follow the `Node` defaults for chaining and reachability, and their execution is modelled as continuing at `next`.
- User statements (`UserStatement`) are not modelled. Their `chain` and `replace_next` (renpy/ast.py:2436-2454) also chain and rewire the code block and the subparse blocks. Their `get_reachable` (2614-2636) reports what the registered `reachable` callback names. The default is `next`, the code block's head and every non-empty subparse head (2575-2611). Those depend on creator-defined code, so no property of the model covers them.
- `scry`, `predict`, `restructure`, `get_children`, `diff_info` and pickling (`__getstate__`/`__setstate__`) are not modelled.
- Node names: bool versions (a bool is an `int` in Python's pattern match) and tuples longer than three are covered only as ordinary stored names; list-valued names are not distinguished from tuples.
- `Stores`: special namespaces (`config.special_namespaces`), `renpy.dump` records, and in-place aliasing of a mutated `base` value are not modelled. `_defaults_set` is kept beside the variables rather than inside the store dictionary.
- Reachability compares nodes by address, not by name. The source's `seen` set uses `__eq__`/`__hash__` on names, and these agree as long as names are distinct.
- While and `if` blocks are assumed non-empty (`Syntax.Shaped`); the source indexes `block[0]` without a guard and the parser never produces them empty.

## Findings

| source | as written | input that shows it | evidently intended | confidence | as-written member | corrected member |
|---|---|---|---|---|---|---|
| renpy/ast.py:161-167 | `PyCode.__init__` tests `self.mode != "eval"` before assigning `self.mode = mode`. The test reads the class default `"eval"`, so the source is never dedented and `col_offset` is always 0. | `PyCode("  pass", mode="exec")` keeps source `"  pass"` and offset 0. | Dedent code compiled as statements (exec, hide): `"pass"` with offset 2. | medium, not executed | Dedent.NewPyCodeAsWritten (shown by Dedent.AsWrittenKeepsIndent) | Dedent.NewPyCode (proved by Dedent.NewPyCodeDedents) |
