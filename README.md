# ligo core in Dafny

ligo is a live-coding language in which every named slot and every call is a
node in a push-based reactive graph. Assigning to a slot rebinds it to a new
upstream cell. A call node re-dispatches whenever an argument or the set of
overloads changes. An output call keeps one entry in the canvas's draw list.

This project models the engine's core:

- the slot dictionary (`DictCell` and its `SlotCell`);
- the generic-function registry with multiple dispatch (`FunctionMap`);
- the renderer and constructor registries and their keys (`RendererMap`, `Selector`, `ConstructorMap`);
- the compiler and dataflow operators in `MainFrame`.

It proves what these promise: subscription and delivery order, at most one
live upstream binding, get-or-create, overwrite maps, the dispatch filter,
`equals`/`hashCode` agreement, the left fold of operator chains, the
compound-assignment rewrite, the call node's publish rule and locals array,
the one-shot copy, the draw-entry lifecycle, and the decoders for string
literals, hex colours and font styles.

Modules, one per file:

- `Values` (values.dfy): runtime values, class tags and `isAssignableFrom`. It also holds Java `int` arithmetic: wrap-around, and `|` bit by bit.
- `Cells` (cells.dfy): subscriber lists shared by every cell: `ArrayList.remove` and the fan-out of an update.
- `Slots` (slots.dfy): classes `SlotCell` and `DictCell`. Subscribers are ids. Every push is recorded in a ghost delivery log.
- `Selectors` (selectors.dfy): `Selector`, `SpecificSelector` and `GenericSelector` with `equals` and `hashCode`.
- `FunctionRegistry` (functions.dfy): classes `GenericFunction` and `FunctionMap`, plus `resolve`.
- `Renderers` (renderers.dfy): class `RendererMap`.
- `Constructors` (constructors.dfy): class `ConstructorMap`.
- `Literals` (literals.dfy): `parseHexColor`, the `#` branch of `color`, `parseStyle` and the font-style fold, and string-literal decoding.
- `Compiler` (compiler.dfy):
  - the parse tree (an input datatype) and compiled expressions;
  - `createFunctionCall`, the add/mul fold loop and the access chain;
  - `visitAssign`: the target walk, the compound-assignment rewrite and the action;
  - `visitFunctionDefinition`.
- `CallNodes` (callnodes.dfy): the expression call node, the `copy` macro, and the output call with its `RendererAllocation`s.

How Java constructs are represented:

- Closures (subscribers, bindings, function bodies, renderers, constructors) are ids.
- What an upstream cell pushes while it is being subscribed to is an input of the subscribing method: the sequence of values, in order. A call node can push several times inside one `consume`, once for the generic function's table and once per argument.
- The result of a foreign function body is the value of a function parameter `apply`.
- `null` is `None`.
- Dispatch over a `Hashtable`, whose iteration order is unspecified, is a nondeterministic choice among the admissible entries.

The model follows this revision of the code, including behaviour that differs from what the design intends:

- `DictCell.consume` returns `null` and delivers nothing; it delivers no snapshot of the scope.
- `set` keeps the old stored value until the new upstream delivers.
- `copy` forwards whatever its operand pushes while it is being subscribed to, then unsubscribes.
- Every function definition becomes a constructor definition.

## Model

| member | source | states |
|---|---|---|
| Values.IsAssignableFrom | intellij/src/ligo/FunctionMap.java:74-76 | `declared.isAssignableFrom(actual)`: the declared class is the argument's class or one of its ancestors |
| Values.ObjectAcceptsAll | intellij/src/ligo/FunctionMap.java:74-76 | every runtime class is assignable to `Object` |
| Values.AssignableTransitive | intellij/src/ligo/FunctionMap.java:74-76 | assignability is transitive |
| Values.TypeOf | intellij/src/ligo/MainFrame.java:951 | `getClass()` of a value is a concrete class, never `Object` or `Number` |
| Values.Wrap32 | intellij/src/ligo/Selector.java:15-17 | Java `int` arithmetic: the result is a 32-bit value congruent to the exact one modulo 2^32 |
| Values.OrBitsOnes | intellij/src/ligo/MainFrame.java:122 | all bits set absorbs under `|`: `-1 | y == -1` |
| Values.OrBitsZero | intellij/src/ligo/MainFrame.java:122 | 0 is neutral for `|` |
| Values.OrBitsSym | intellij/src/ligo/MainFrame.java:122 | `|` is commutative |
| Values.OrBitsSmall | intellij/src/ligo/MainFrame.java:122 | on two-bit values `|` combines the bits |
| Cells.RemoveFirst | intellij/src/ligo/DictCell.java:27 | `ArrayList.remove(Object)` cuts out the first occurrence and keeps the rest in order, one element shorter; without an occurrence it changes nothing |
| Cells.RemoveFirstOnce | intellij/src/ligo/DictCell.java:27 | a subscriber that was in the list once is gone afterwards; every other subscriber keeps its multiplicity |
| Cells.RemoveFirstAppended | intellij/src/ligo/MainFrame.java:880-887 | subscribing a fresh id and removing it again restores the list |
| Cells.FanoutSkipsAbsent | intellij/src/ligo/DictCell.java:42-44 | a subscriber not in the list receives none of the pushes an update makes |
| Cells.FanoutAllSnoc | intellij/src/ligo/DictCell.java:36-39 | a further push extends the deliveries by one more fan-out to the whole list |
| Cells.FanoutAllOne | intellij/src/ligo/DictCell.java:36-39 | a single push delivers exactly one fan-out |
| Cells.FanoutAllSkipsAbsent | intellij/src/ligo/DictCell.java:36-44 | a subscriber not in the list receives none of the deliveries of any number of pushes |
| Cells.UnsubscribedGetsNothing | intellij/src/ligo/DictCell.java:27 | after the binding is removed, no later update reaches that subscriber |
| Slots.SlotCell.Consume | intellij/src/ligo/DictCell.java:21-28 | adds the subscriber; delivers the current value at once only when it is non-null |
| Slots.SlotCell.Unsubscribe | intellij/src/ligo/DictCell.java:27 | the returned binding removes that subscriber and nothing else |
| Slots.SlotCell.Update | intellij/src/ligo/DictCell.java:42-44 | the loop extends the delivery log by `Fanout`: the stored value to each subscriber, once each, in list order |
| Slots.SlotCell.Next | intellij/src/ligo/DictCell.java:36-39 | an upstream value is stored, then pushed to every subscriber |
| Slots.SlotCell.NextAll | intellij/src/ligo/DictCell.java:36-39 | the callback run once per pushed value, in order: the last value is stored and the log grows by one fan-out per value |
| Slots.SlotCell.Set | intellij/src/ligo/DictCell.java:30-40 | releases the previous upstream binding first; afterwards exactly the new binding is live; each value the new upstream pushes while being subscribed to is stored and fanned out in turn, so the slot ends with the last one (or its old value when none comes) and the log grows by `FanoutAll` of them |
| Slots.SlotCell.LiveUpstream | intellij/src/ligo/DictCell.java:30-40 | at most one upstream binding is live: the current one |
| Slots.SlotCell.GetValueCell | intellij/src/ligo/DictCell.java:46-48 | returns the upstream cell |
| Slots.DictCell.Consume | intellij/src/ligo/DictCell.java:9-12 | a scope delivers nothing and returns null |
| Slots.DictCell.GetSlot | intellij/src/ligo/DictCell.java:51-58 | get-or-create: an existing slot is returned with nothing changed; an absent one is created empty and added under that id only |
| Slots.DictCell.Get | intellij/src/ligo/DictCell.java:65-67 | returns the slot itself (get-or-create): an existing slot with nothing changed, or a new empty slot added under that id only |
| Slots.DictCell.GetValueCell | intellij/src/ligo/DictCell.java:69-71 | returns the upstream cell of the slot, null for a new slot; an absent id gets a new empty slot under that id only, and an existing one changes nothing |
| Slots.DictCell.Put | intellij/src/ligo/DictCell.java:60-63 | `getSlot(id).set(cell)`: slot `id` (an absent one reads as empty) ends exactly as `set` leaves it: new upstream and binding, old binding released, subscribers kept, the last pushed value stored and one fan-out per pushed value logged; every other slot is untouched |
| Slots.PutThenGetValueCell | intellij/src/ligo/DictCell.java:60-71 | after `put(id, c)`, `getValueCell(id)` returns `c` |
| Slots.GetSlotTwice | intellij/src/ligo/DictCell.java:51-58 | two lookups of one id return the same slot |
| Selectors.ArraysEqualsIsEquality | intellij/src/ligo/Selector.java:19-25 | `Arrays.equals` on class arrays is equality of the tuples |
| Selectors.Equals | intellij/src/ligo/Selector.java:19-28 | true exactly for a `Selector` with an equal name and elementwise-equal types; false for any other object |
| Selectors.EqualsReflexive | intellij/src/ligo/Selector.java:19-25 | `equals` is reflexive |
| Selectors.EqualsSymmetric | intellij/src/ligo/Selector.java:19-25 | `equals` is symmetric |
| Selectors.EqualsIsValueEquality | intellij/src/ligo/Selector.java:19-25 | equal selectors are the same (name, types) value |
| Selectors.ArraysEquals | intellij/src/ligo/Selector.java:22 | `Arrays.equals`: arrays of different lengths or with different first classes are unequal; `ArraysEqualsIsEquality` shows it is tuple equality |
| Selectors.StringHash | intellij/src/ligo/Selector.java:16 | `String.hashCode` as a Java `int`: 0 for the empty string, the character code for one character |
| Selectors.ArraysHash | intellij/src/ligo/Selector.java:16 | `Arrays.hashCode(Class[])` as a Java `int`: 1 for the empty array |
| Selectors.HashCode | intellij/src/ligo/Selector.java:15-17 | a Java `int` congruent modulo 2^32 to the name's hash times the types' hash; with no types it is the name's hash |
| Selectors.EqualSelectorsHashEqual | intellij/src/ligo/Selector.java:15-17 | equal selectors have equal hash codes, whatever the classes' identity hashes |
| Selectors.NullarySelectorHash | intellij/src/ligo/Selector.java:15-17 | the empty type array hashes to 1, so a nullary selector hashes as its name |
| Selectors.SpecificEquals | intellij/src/ligo/FunctionMap.java:26-35 | true exactly for a `SpecificSelector` with elementwise-equal types |
| Selectors.EqualSpecificSelectorsHashEqual | intellij/src/ligo/FunctionMap.java:21-24 | equal specific selectors hash equally |
| Selectors.GenericEquals | intellij/src/ligo/FunctionMap.java:129-138 | true exactly for a `GenericSelector` with the same name and arity |
| Selectors.GenericHashCode | intellij/src/ligo/FunctionMap.java:124-127 | a Java `int` congruent modulo 2^32 to the name's hash times the arity: 0 for arity 0, the name's hash for arity 1 |
| Selectors.GenericSelectorsHash | intellij/src/ligo/FunctionMap.java:124-127 | equal generic selectors hash equally; every nullary one hashes to 0 |
| FunctionRegistry.Invocation | intellij/src/ligo/FunctionMap.java:151-159 | a raw body gets the whole locals array; a typed overload passes `args[0..k-1]` and fails when fewer locals exist |
| FunctionRegistry.Admissible | intellij/src/ligo/FunctionMap.java:74-76 | an admissible overload has the arguments' arity, and an overload declared with exactly the arguments' classes is admissible |
| FunctionRegistry.Candidates | intellij/src/ligo/FunctionMap.java:72-83 | the overloads `resolve` may return are among the table's entries, and include the exact-type entry when there is one |
| FunctionRegistry.Resolve | intellij/src/ligo/FunctionMap.java:70-86 | null exactly when no overload has the arity and assignable types; otherwise some such overload, not necessarily the most specific (`AmbiguousDispatchAllowsEither` shows both `f(Object)` and `f(BigDecimal)` can be chosen) |
| FunctionRegistry.AmbiguousDispatchAllowsEither | intellij/src/ligo/FunctionMap.java:80-83 | with `f(Object)` and `f(BigDecimal)` both defined, either may be chosen for a decimal |
| FunctionRegistry.ObjectOverloadAcceptsAll | intellij/src/ligo/FunctionMap.java:74-76 | an all-`Object` overload admits every argument tuple of its arity |
| FunctionRegistry.GenericFunction.Update | intellij/src/ligo/FunctionMap.java:57-59 | every subscriber, in order, receives a copy of the whole table |
| FunctionRegistry.GenericFunction.Define | intellij/src/ligo/FunctionMap.java:51-55 | overwrites the entry of an equal type tuple, leaves all others, then pushes the new table; earlier copies stay as delivered |
| FunctionRegistry.GenericFunction.Consume | intellij/src/ligo/FunctionMap.java:61-68 | adds the subscriber and pushes it the current table at once |
| FunctionRegistry.GenericFunction.Unsubscribe | intellij/src/ligo/FunctionMap.java:67 | the binding removes that subscriber |
| FunctionRegistry.FunctionMap.GetGenericFunction | intellij/src/ligo/FunctionMap.java:165-172 | the same generic function for an equal (name, arity); a new empty one only when absent |
| FunctionRegistry.FunctionMap.Define | intellij/src/ligo/FunctionMap.java:141-144 | the generic function for (name, number of types) gets the overload under the type tuple; the target's subscribers keep their list and each receive the new table, in order; the only selector that can be added is the target's, and every other generic function is untouched |
| FunctionRegistry.FunctionMap.DefineTypes | intellij/src/ligo/FunctionMap.java:146-148 | as `define` with `localCount` the number of parameter types; the target's subscribers keep their list and each receive the new table, in order; the only selector that can be added is the target's, and every other generic function is untouched |
| FunctionRegistry.FunctionMap.Define0 | intellij/src/ligo/FunctionMap.java:150-152 | a nullary overload with no locals; the target's subscribers keep their list and each receive the new table, in order; the only selector that can be added is the target's, and every other generic function is untouched |
| FunctionRegistry.FunctionMap.Define1 | intellij/src/ligo/FunctionMap.java:154-156 | a unary overload, one local, passed `args[0]`; the target's subscribers keep their list and each receive the new table, in order; the only selector that can be added is the target's, and every other generic function is untouched |
| FunctionRegistry.FunctionMap.Define2 | intellij/src/ligo/FunctionMap.java:158-160 | a binary overload, two locals, passed `args[0], args[1]`; the target's subscribers keep their list and each receive the new table, in order; the only selector that can be added is the target's, and every other generic function is untouched |
| Renderers.RendererMap.Define | intellij/src/ligo/RendererMap.java:13-15 | overwrites the renderer of an equal (name, types) and leaves every other renderer |
| Renderers.RendererMap.Define1 | intellij/src/ligo/RendererMap.java:17-19 | a one-argument renderer passed `args[0]` |
| Renderers.RendererMap.Define3 | intellij/src/ligo/RendererMap.java:21-23 | a three-argument renderer passed `args[0..2]` |
| Renderers.RendererMap.Define4 | intellij/src/ligo/RendererMap.java:25-27 | a four-argument renderer passed `args[0..3]` |
| Renderers.RendererMap.Resolve | intellij/src/ligo/RendererMap.java:29-45 | null exactly when no renderer has the name, the arity and assignable types; otherwise some such renderer (illustrated by `FillRectDispatch`) |
| Constructors.ConstructorMap.Define | intellij/src/ligo/ConstructorMap.java:9-11 | the name now maps to the constructor; every other name keeps its constructor |
| Constructors.ConstructorMap.Resolve | intellij/src/ligo/ConstructorMap.java:13-15 | the last constructor defined under the name; null for a name never defined |
| Constructors.DefineResolveScenario | intellij/src/ligo/ConstructorMap.java:9-15 | redefining overwrites; defining one name leaves another undefined |
| Literals.ParseInt16 | intellij/src/ligo/MainFrame.java:160-162 | `Integer.parseInt(s, 16)` on one or two characters, for every input: it succeeds exactly on hex digits, optionally after one sign followed by a digit; the value is the digits' value (`HexNumber`), negated after `-`; anything else throws |
| Literals.ParseHexColor | intellij/src/ligo/MainFrame.java:157-166 | throws exactly for a one- or two-character string that is not hex digits (or a sign and a digit); one digit is scaled by 16, two are taken as they are, any other length gives -1 (illustrated by `ParseHexColorShortIsNotRepeated` and `ParseHexColorAcceptsSign`) |
| Literals.ParseHexColorOneDigit | intellij/src/ligo/MainFrame.java:157-160 | one hex digit gives its value times 16 |
| Literals.ParseHexColorTwoDigits | intellij/src/ligo/MainFrame.java:161-162 | two hex digits give their value, 0 to 255 |
| Literals.ParseHexColorOtherLength | intellij/src/ligo/MainFrame.java:165 | any other length gives -1 |
| Literals.ColorComponents | intellij/src/ligo/MainFrame.java:89-104 | a name not starting with `#` is looked up by name (the `#` forms are `ColorLongForm` and `ColorShortForm`, illustrated by `ColorExamples`) |
| Literals.ColorLongForm | intellij/src/ligo/MainFrame.java:92-95 | `#rrggbb` is split at 1-3, 3-5 and 5-7 |
| Literals.ColorShortForm | intellij/src/ligo/MainFrame.java:96-99 | `#rgb` is split at single characters, each scaled by 16 |
| Literals.Lower | intellij/src/ligo/MainFrame.java:169 | `toLowerCase` keeps the length and every non-capital, turns each capital into its small letter, and leaves no capital |
| Literals.LowerIdempotent | intellij/src/ligo/MainFrame.java:169 | lowercasing twice is lowercasing once |
| Literals.ParseStyle | intellij/src/ligo/MainFrame.java:168-179 | case-insensitive `b`/`bold` is BOLD, `i`/`italic` ITALIC, `p`/`plain` PLAIN, and exactly everything else -1 (illustrated by `ParseStyleExamples`) |
| Literals.SplitWithoutSpace | intellij/src/ligo/MainFrame.java:120 | a word without whitespace splits into itself |
| Literals.SplitPrepend | intellij/src/ligo/MainFrame.java:120 | a word without whitespace joins the first piece of what follows |
| Literals.TrimStart | intellij/src/ligo/MainFrame.java:121 | `trim`'s left half: a suffix of the input, starting above U+0020 unless empty, with only characters up to U+0020 removed |
| Literals.TrimEnd | intellij/src/ligo/MainFrame.java:121 | `trim`'s right half: a prefix of the input, ending above U+0020 unless empty, with only characters up to U+0020 removed |
| Literals.Trim | intellij/src/ligo/MainFrame.java:121 | `String.trim`: never longer, and both ends are above U+0020 unless the result is empty |
| Literals.Tokens | intellij/src/ligo/MainFrame.java:121 | every token is non-empty and trimmed (first and last character above U+0020), and there are no more tokens than pieces |
| Literals.TokensOne | intellij/src/ligo/MainFrame.java:121 | one piece yields its trimmed form, or no token when that is empty |
| Literals.TokensAppend | intellij/src/ligo/MainFrame.java:121 | the pieces are mapped in order: the tokens of two runs of pieces are the tokens of each, concatenated |
| Literals.JavaOrStyles | intellij/src/ligo/MainFrame.java:122 | `x | y` on style values: -1 absorbs, BOLD and ITALIC combine to 3 |
| Literals.StyleFold | intellij/src/ligo/MainFrame.java:122 | `reduce(PLAIN, |)` stays within -1..3 |
| Literals.StyleFoldSpec | intellij/src/ligo/MainFrame.java:120-122 | the fold is -1 when any word is not a style name, otherwise BOLD if a bold word occurs plus ITALIC if an italic word occurs |
| Literals.StyleFoldMinusOne | intellij/src/ligo/MainFrame.java:122 | once the fold holds -1 it keeps it |
| Literals.StyleStep | intellij/src/ligo/MainFrame.java:122 | one fold step on an accumulator other than -1 |
| Literals.FontStyle | intellij/src/ligo/MainFrame.java:119-122 | the style the `font` built-in computes is -1, PLAIN, BOLD, ITALIC or BOLD + ITALIC |
| Literals.FontStyleSpec | intellij/src/ligo/MainFrame.java:119-122 | the `font` style equals the fold-free description of its words (illustrated by `FontStyleEmpty` and `FontStyleBoldItalic`) |
| Literals.Replace | intellij/src/ligo/MainFrame.java:575 | `String.replace` with a replacement no longer than the target never lengthens the string |
| Literals.ReplaceWithoutLead | intellij/src/ligo/MainFrame.java:575 | a string without the target's first character is unchanged |
| Literals.ReplaceHead | intellij/src/ligo/MainFrame.java:575 | the target at the front is replaced and scanning resumes after it |
| Literals.ReplaceCons | intellij/src/ligo/MainFrame.java:575 | a character that cannot start the target passes through |
| Literals.Unescape | intellij/src/ligo/MainFrame.java:575 | decoding never lengthens the body |
| Literals.UnescapePlain | intellij/src/ligo/MainFrame.java:574-575 | a body without backslashes is its own value |
| Literals.StringLiteral | intellij/src/ligo/MainFrame.java:573-575 | the quotes are dropped and the body decoded; the value is never longer than the text between the quotes |
| Literals.StringLiteralPlain | intellij/src/ligo/MainFrame.java:574-575 | a token without backslashes decodes to the text between its quotes |
| Literals.UnescapeEscape | intellij/src/ligo/MainFrame.java:575 | decoding undoes the escaping of newline, return and tab in any backslash-free string |
| Literals.UnescapeOrderQuirk | intellij/src/ligo/MainFrame.java:575 | the replacements run in sequence: an escaped backslash followed by `n` decodes to a backslash and a newline (`UnescapeExamples` shows `\t` and `\\`) |
| Compiler.FoldChain | intellij/src/ligo/MainFrame.java:712-728 | the loop that rebinds `lhs` computes the left fold, each step through `createFunctionCall` (`copy` the macro, any other name a call node) |
| Compiler.LeftFold | intellij/src/ligo/MainFrame.java:711-728 | a single operand is itself; otherwise the result is the last operator applied (a call node, or the macro exactly when that operator is `copy`) with the last operand as its second argument |
| Compiler.UnfoldLeftFold | intellij/src/ligo/MainFrame.java:750-766 | operator i-1 joins operand i: operands and operators are read back in order from the nested calls |
| Compiler.LeftFoldThree | intellij/src/ligo/MainFrame.java:712-728 | `a op1 b op2 c` is `op2(op1(a, b), c)` |
| Compiler.MemberChainAppend | intellij/src/ligo/MainFrame.java:497-540 | one member step per access-chain identifier, composable piecewise |
| Compiler.NullaryCallConstructs | intellij/src/ligo/MainFrame.java:777-796 | a call without arguments instantiates a constructor |
| Compiler.Compile | intellij/src/ligo/MainFrame.java:466-798 | `parseExpression`: a call compiles to a constructor exactly without arguments, to the copy macro exactly with arguments and the name `copy`, otherwise to a call node of that name and arity; an identifier reads its slot in the scope; an empty access chain is the target itself |
| Compiler.OperatorName | intellij/src/ligo/MainFrame.java:293-308 | `+= -= *= /=` map to `+ - * /`; plain `=` to none |
| Compiler.RewriteValue | intellij/src/ligo/MainFrame.java:310-315 | a compound assignment assigns `op(copy(id), value)` (via `createFunctionCall`); a plain one assigns the value unchanged |
| Compiler.UncompoundRewrite | intellij/src/ligo/MainFrame.java:310-315 | the rewrite is invertible: operator and operand are read back from it |
| Compiler.CompoundIsCopySugar | intellij/src/ligo/MainFrame.java:310-315 | `x += v` compiles exactly as `x = copy(x) + v` |
| Compiler.WalkFromError | intellij/src/ligo/MainFrame.java:286-291 | an exception ends the target walk |
| Compiler.WalkFromCons | intellij/src/ligo/MainFrame.java:286-291 | the walk taken front to back: the first segment, then the rest |
| Compiler.WalkThroughObject | intellij/src/ligo/MainFrame.java:290 | a segment bound to an object literal leads into that scope |
| Compiler.WalkThroughAlias | intellij/src/ligo/MainFrame.java:290 | a segment bound to another variable is not a scope: the cast throws |
| Compiler.WalkRest | intellij/src/ligo/MainFrame.java:286-291 | once a prefix throws, the whole walk throws the same way |
| Compiler.Step | intellij/src/ligo/MainFrame.java:290 | one `(DictCell)target.getValueCell(id)`: an exception persists, a null scope throws NullPointerException, and reaching a scope requires starting in one |
| Compiler.WalkFrom | intellij/src/ligo/MainFrame.java:286-291 | the walk over a path reaches a scope (or null) only from a scope, and over a non-empty path only from a non-null one |
| Compiler.WalkTarget | intellij/src/ligo/MainFrame.java:284-291 | the loop reassigning `targetTmp` computes the walk: a scope, null, NullPointerException or ClassCastException |
| Compiler.CompileAssign | intellij/src/ligo/MainFrame.java:279-318 | the target is the last identifier, reached through the others (the scope itself for a plain identifier); the value is rewritten for compound operators; a failed walk is the exception |
| Compiler.RunAssign | intellij/src/ligo/MainFrame.java:320-325 | a null target throws; otherwise the target scope is left as `put` leaves it: the slot's new upstream, binding and released list, the last value the upstream pushes stored with one fan-out per pushed value, and every other slot untouched |
| Compiler.ParameterTypes | intellij/src/ligo/MainFrame.java:390-391 | the filter is empty exactly when no local is at the compared depth |
| Compiler.CompileDefinition | intellij/src/ligo/MainFrame.java:376-413 | the locals are the parameters, typed Object at depth 0; an overload is registered only when some local is at depth `depth + 1`, otherwise a constructor |
| Compiler.EveryDefinitionIsAConstructor | intellij/src/ligo/MainFrame.java:382-393 | at every depth the compiler reaches, every definition registers a constructor |
| CallNodes.MakeLocals | intellij/src/ligo/MainFrame.java:957-958 | `localCount` locals with the arguments first and null after them; a negative count or one below the argument count throws |
| CallNodes.CallNode.Update | intellij/src/ligo/MainFrame.java:948-965 | the outcome satisfies `Dispatched`: it waits exactly while an argument is null or no table has arrived; finds no overload exactly when none is admissible for the arguments' runtime classes (`TypesOf`); otherwise takes an admissible one, which throws exactly when its locals are too few (`Throws`) and else publishes the body's result on the arguments followed by nulls |
| CallNodes.CallNode.OnFunctions | intellij/src/ligo/MainFrame.java:929-932 | the table from the generic function is stored, then the node updates; the outcome is `Dispatched` on the arguments and that table |
| CallNodes.CallNode.OnArgument | intellij/src/ligo/MainFrame.java:935-940 | the argument value is written into the shared array (a null one keeps the node waiting), then the node updates; the outcome is `Dispatched` on the new arguments |
| CallNodes.CallNode.Subscribe | intellij/src/ligo/MainFrame.java:928-932 | the node gets or creates the generic function for (name, arity), is appended to its subscribers, is logged receiving its table at once and stores that table; only that selector can be added and no other generic function changes; the outcome is `Dispatched` |
| CallNodes.CallNode.Remove | intellij/src/ligo/MainFrame.java:942-946 | releases every argument binding, then removes the node's subscription from the generic function's subscriber list, leaving its table and log |
| CallNodes.RemovedNodeGetsNoTables | intellij/src/ligo/MainFrame.java:929-946 | after a node subscribed once is removed, it is off the subscriber list and a later `define` pushes no table to it |
| CallNodes.SharedArgumentsScenario | intellij/src/ligo/MainFrame.java:919 | one array per compiled call: a value delivered to one binding lets another dispatch |
| CallNodes.CopyCell.Consume | intellij/src/ligo/MainFrame.java:880-908 | forwards what the operand pushes while subscribing, removes that subscription before returning, and hands back a binding whose removal releases nothing |
| CallNodes.CopyOfSlot | intellij/src/ligo/MainFrame.java:870-908 | `copy(x)` delivers at most the slot's current non-null value, and the slot's subscribers are as before |
| CallNodes.Canvas.CreateGraphicsConsumer | intellij/src/ligo/MainFrame.java:437-458 | a new draw entry, appended to `graphicsConsumers` |
| CallNodes.OutputCall.Update | intellij/src/ligo/MainFrame.java:359-371 | the draw entry is allocated on the first update with every argument non-null and reused after; it draws with the resolved renderer |
| CallNodes.OutputCall.OnArgument | intellij/src/ligo/MainFrame.java:339-345 | the argument value is written, then the call updates: with every argument non-null the draw entry is allocated on first use, reused after, and draws with the resolved renderer; otherwise nothing changes |
| CallNodes.OutputCall.Remove | intellij/src/ligo/MainFrame.java:347-350 | releases the argument bindings and deletes the draw entry from the list; a call that never drew throws |

## Left out

- The Swing/AWT user interface and console are left out because they are I/O. This covers the frame, key handling, the document highlighter, `repaint`, and painting the draw list.
- ANTLR lexing and parsing are left out: the parse tree is an input datatype, and `WellFormed` states what the grammar guarantees about it.
- Decimal numbers are left out. `BigDecimal` literals are integers in the model, and the arithmetic built-ins (`+ - * /`, with `DECIMAL128` division) are foreign function bodies.
- Several foreign calls are left out: `measureString` (`FontMetrics`), the colour-name lookup through `Color.getColor` and reflection, the `Color`/`Font` constructors, and the drawing lambdas.
- Object literals (`visitObject`) are left out. They parse their statements again at every instantiation, into a fresh scope.
- Member access is compiled but not instantiated. In this revision a scope's `consume` delivers nothing, and `Map` values come only from foreign code.
- `createFunctionCell` (function-valued cells) is left out, because it is used only by overload definitions, which never occur (see `Compiler.EveryDefinitionIsAConstructor`).
- Commented-out earlier revisions are left out, along with the unused nested `FunctionMap.Selector` and `functionBindings`.
- `self.addBinding` is left out because it calls a method the shown `DictCell` does not have.
- `Main.java` is left out: it is only a launcher.
- Downstream effects of a delivery are not followed; each delivery is recorded in a ghost log. Cyclic graphs (a slot whose upstream reads itself) are therefore not modelled.
- `Compiler.WalkTarget` reads the slot table without creating missing intermediate slots. `getValueCell` would create an empty slot for a missing id, and the walk's outcome is the same either way.
- `Literals.Lower` lowercases ASCII letters only; locale-dependent and non-ASCII case mapping is left out.
- `Literals.IsHexDigit` accepts ASCII digits only, not other Unicode digits that `Character.digit` accepts.
- `Selectors.StringHash` hashes one Dafny character (a Unicode scalar value) per step, where Java hashes one UTF-16 code unit; the two agree only on text within the Basic Multilingual Plane.
- `Selectors.ArraysHash` takes the identity hash codes of `Class` objects as a parameter.
- `Literals.SplitWs` splits at every single whitespace character, not at runs of it. This yields extra empty pieces, which the trimming and filtering drop, so the tokens are the same.
- `CallNodes.CallNode.Update`'s `apply` results are unconstrained, because the bodies are foreign code. A typed overload that casts an argument to its declared class cannot fail, since dispatch has checked assignability.
- `CallNodes.CallNode.Update` and `Slots.SlotCell.Set` do not model a foreign body that throws. Two built-ins can: `/` divides with `DECIMAL128` and throws ArithmeticException on a zero divisor, and `color` throws from `new Color(-1, -1, -1)` for a `#` name of the wrong length. In Java such an exception escapes `update()`, the cell's `consume` and `SlotCell.set`, after `set` has released the old binding and stored the new upstream but before it records the new binding. The model's `apply` always returns a value, so that half-done state is not represented.
- `Compiler.Compile` builds a `Call` without the `CallSite` its instantiations share. Compilation is a pure function, so it allocates no `arguments` array. That the array is shared, one per compiled call, is stated as the requirement `b1.site == b2.site` of `CallNodes.SharedArgumentsScenario`.
- `CallNodes.CallNode.Remove` on a node that never subscribed releases only its argument bindings. In Java the generic-function binding exists from the node's construction.
