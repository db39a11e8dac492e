# Ahsa core in Dafny

This project models the core of the Ahsa interpreter. Ahsa is a small
imperative language with immutable values (`val`), mutable variables,
labelled loops and first-class functions. The model covers five parts:

- **Resolver environments.** Name-to-identifier maps. A function scope turns
  every enclosing variable and loop label into an inaccessible one. A block
  scope keeps them. The environment stack numbers fresh locations.
- **Runtime store.** A chain of frames, each with a value map and a
  variable map. Values are looked up along the parent chain. Variables are
  looked up in the current frame only.
- **Tree-walking interpreter.** Expressions, statements, statement lists,
  loops, conditionals and top-level execution. Compound functions run with
  their own frame and bind the self name and the parameters there.
- **Value universe and built-ins.** Null, booleans, numbers, functions,
  ids, boxes and arrays. The casts, `isTruthy` and `typeName`. The
  arity-checking adapters and the built-ins `id`, `box`, `boxGet`,
  `boxSet`, `array`, `arrayGet`, `arraySet` and `arrayLength`.
- **Printer.** Renders literals, values, expressions and statements as
  strings.

The mutable Java objects become one immutable `Heap` that is threaded
through evaluation:

- A store is an arena of frames, each naming its parent by index.
- Closures, boxes and arrays live in tables. Their addresses are their
  identities, so datatype equality of values is Java's reference equality
  for functions, ids, boxes and arrays.
- `Heaps.Valid` is the invariant every operation keeps:
  - parent links point down the arena;
  - closures capture existing frames;
  - every stored value refers only to existing cells;
  - array lengths are Java `int`s.
- Exceptions are the `Errors.Error` datatype, carried by `Result`.
- Loops and compound calls may run forever, so each loop iteration and each
  compound call consumes one unit of `fuel`. Running out is the model-only
  error `OutOfFuel`. `FuelLaws` proves that fuel only truncates: an outcome
  other than `OutOfFuel` is the same under any larger budget.

Modules, in dependency order:

- `Options`, `Locations`, `Values`, `Errors` and `Ast`: the data model.
- `Identifiers`, `Environments` and `EnvironmentStacks`: the resolver.
- `Stores`, `Boxes`, `Arrays` and `Heaps`: the runtime state.
- `Casts`, `AbstractFunctions` and `BuiltIns`: the value helpers and built-ins.
- `Interpreter`: the evaluator.
- `InterpreterLaws`, `CallLaws` and `FuelLaws`: properties of the evaluator.
- `Printer`: the printer.

## Model

| member | source | states |
|---|---|---|
| Stores.EmptyFrame | src/se/raek/ahsa/runtime/Store.java:15-19 | A new store has empty value and variable maps and the given parent. |
| Stores.LookupValue | src/se/raek/ahsa/runtime/Store.java:56-67 | The only way a value lookup fails is ValueNotFound for the location asked about. |
| Stores.LookupValueNearest | src/se/raek/ahsa/runtime/Store.java:56-67 | Lookup returns the binding of the nearest frame on the parent chain that binds the location. It fails only when no frame on the chain binds it. |
| Stores.LookupValueFailsIffUnbound | src/se/raek/ahsa/runtime/Store.java:56-67 | Value lookup fails if and only if no frame on the parent chain binds the location. |
| Stores.DefineValue | src/se/raek/ahsa/runtime/Store.java:69-76 | Definition fails with ValueAlreadyDefined exactly when the current frame already binds the location. On success only the current frame's value map changes, by that one binding. Every other frame, the variable map and the parent link stay the same. |
| Stores.DefineThenLookup | src/se/raek/ahsa/runtime/Store.java:69-76 | A lookup right after a definition, from the same frame, returns the defined value. |
| Stores.ChildShadowsParent | src/se/raek/ahsa/runtime/Store.java:69-76 | Definition checks only the current frame. A child may rebind a location its parent binds. The child then sees the new value, and lookups from the parent are unchanged. |
| Stores.LookupUnaffectedAbove | src/se/raek/ahsa/runtime/Store.java:56-67 | Writing one frame changes no lookup that starts in an older frame. |
| Stores.LookupVariable | src/se/raek/ahsa/runtime/Store.java:78-85 | Variable lookup succeeds exactly when the current frame binds the variable, and returns that binding. Otherwise it fails with VariableNotFound. |
| Stores.ParentVariableInvisible | src/se/raek/ahsa/runtime/Store.java:78-85 | A variable bound only in the parent frame is not found from the child. |
| Stores.AssignVariable | src/se/raek/ahsa/runtime/Store.java:87-90 | Assignment never fails. It inserts or overwrites one binding in the current frame's variable map and changes nothing else. |
| Stores.AssignTwice | src/se/raek/ahsa/runtime/Store.java:87-90 | After two assignments a lookup sees the second value. |
| Stores.AssignKeepsValueLookups | src/se/raek/ahsa/runtime/Store.java:87-90 | The namespaces are independent: assigning a variable changes no value lookup, from any frame. |
| Stores.DefineKeepsVariableLookups | src/se/raek/ahsa/runtime/Store.java:69-76 | The namespaces are independent: defining a value changes no variable lookup, in any frame. |
| Environments.Derive | src/se/raek/ahsa/parser/Environment.java:23-56 | A derived environment binds exactly the parent's names. With no parent it is empty. |
| Environments.BlockCopiesParent | src/se/raek/ahsa/parser/Environment.java:23-56 | A block scope is an exact copy of its parent. |
| Environments.FunctionScopeResolution | src/se/raek/ahsa/parser/Environment.java:32-47 | In a function scope, a parent's variable becomes an inaccessible variable and a parent's loop becomes an inaccessible loop, with the same location. Every other binding is unchanged. |
| Environments.FunctionScopeHidesMutable | src/se/raek/ahsa/parser/Environment.java:32-47 | No name in a function scope resolves to an accessible variable or loop label. |
| Environments.ImmutableBindingsPassThrough | src/se/raek/ahsa/parser/Environment.java:49-52 | Value, unbound and already-inaccessible bindings pass unchanged into either kind of scope. |
| Environments.FunctionScopeIdempotent | src/se/raek/ahsa/parser/Environment.java:23-56 | Nesting a second function scope hides nothing further. |
| Environments.DeriveKeepsLocations | src/se/raek/ahsa/parser/Environment.java:23-56 | Deriving a scope never changes the location a binding carries. |
| Environments.Resolve | src/se/raek/ahsa/parser/Environment.java:63-69 | A name that is not installed resolves to Unbound. An installed name resolves to its binding. |
| Environments.ResolveUninstalled | src/se/raek/ahsa/parser/Environment.java:63-69 | Every name resolves to Unbound in an environment that has no parent. |
| Environments.InstallValue | src/se/raek/ahsa/parser/Environment.java:71-75 | The name then resolves to a Value binding of the returned location, which is numbered by the counter. Every other name resolves as before, so a child's install shadows the parent without touching it. |
| Environments.InstallVariable | src/se/raek/ahsa/parser/Environment.java:77-81 | The same as InstallValue, for a Variable binding. |
| Environments.InstallLoop | src/se/raek/ahsa/parser/Environment.java:83-89 | Both the name and the reserved no-label key resolve to the same new Loop binding. Every other name is unchanged. |
| EnvironmentStacks.New | src/se/raek/ahsa/parser/EnvironmentStack.java:10-13 | A new stack holds exactly one empty environment. |
| EnvironmentStacks.GetCurrent | src/se/raek/ahsa/parser/EnvironmentStack.java:15-17 | There is no current environment exactly when the stack is empty. |
| EnvironmentStacks.EnterScope | src/se/raek/ahsa/parser/EnvironmentStack.java:19-22 | Pushes one environment derived from the current one with the given scope type. The enclosing environments and the counter are untouched. |
| EnvironmentStacks.ExitScope | src/se/raek/ahsa/parser/EnvironmentStack.java:24-26 | Pops the innermost environment. Popping an empty stack fails with NoSuchElement. |
| EnvironmentStacks.InstallValue | src/se/raek/ahsa/parser/Environment.java:71-75 | Installs in the innermost environment only: the name resolves to the new location, every other name there resolves as before, and the enclosing environments are untouched. The location is numbered by the counter, which advances. On an empty stack there is no current environment and the install fails with NullPointer. |
| EnvironmentStacks.InstallVariable | src/se/raek/ahsa/parser/Environment.java:77-81 | The same as InstallValue, for a variable location, including the failure on an empty stack and the unchanged other names. |
| EnvironmentStacks.InstallLoop | src/se/raek/ahsa/parser/Environment.java:83-89 | The same, for a loop label that also answers to the no-label key. Every name other than those two resolves as before. |
| EnvironmentStacks.NewIsFresh | src/se/raek/ahsa/ast/ValueLocation.java:10-16 | On a new stack, every bound location was numbered before the counter. |
| EnvironmentStacks.EnterScopeKeepsFresh | src/se/raek/ahsa/ast/ValueLocation.java:10-16 | Entering a scope keeps every bound location numbered below the counter. |
| EnvironmentStacks.ExitScopeKeepsFresh | src/se/raek/ahsa/ast/ValueLocation.java:10-16 | Leaving a scope keeps every bound location numbered below the counter. |
| EnvironmentStacks.InstallValueKeepsFresh | src/se/raek/ahsa/ast/ValueLocation.java:10-16 | Installing keeps every bound location numbered below the counter. |
| EnvironmentStacks.InstalledValueIsNew | src/se/raek/ahsa/ast/ValueLocation.java:10-16 | The location installValue returns differs from every location bound anywhere on the stack, even one installed under the same name. |
| EnvironmentStacks.InstalledVariableIsNew | src/se/raek/ahsa/ast/VariableLocation.java:10-16 | The location installVariable returns differs from every location on the stack, accessible or not. |
| EnvironmentStacks.InstallVariableKeepsFresh | src/se/raek/ahsa/ast/VariableLocation.java:10-16 | Installing a variable keeps every bound location numbered below the counter. |
| EnvironmentStacks.InstallLoopKeepsFresh | src/se/raek/ahsa/ast/LoopLabel.java:12-17 | Installing a loop keeps every bound location numbered below the counter, although it binds two names. |
| EnvironmentStacks.InstalledLoopIsNew | src/se/raek/ahsa/ast/LoopLabel.java:12-17 | The label installLoop returns differs from every label on the stack, accessible or not, so a break never names an older loop. |
| EnvironmentStacks.EnterThenExit | src/se/raek/ahsa/parser/EnvironmentStack.java:19-26 | Entering and then leaving a scope restores the stack. |
| EnvironmentStacks.InstallInsideScopeIsLocal | src/se/raek/ahsa/parser/EnvironmentStack.java:19-26 | A name installed inside a scope is gone once the scope is left. The current environment is again the one from before the scope was entered. |
| Identifiers.LocationId | src/se/raek/ahsa/parser/Identifier.java:46-50 | Exactly the Unbound identifier carries no location. |
| ControlActions.ShouldExit | src/se/raek/ahsa/Interpreter.java:139-151 | A signal stops a statement list exactly when it carries a loop label or is a return. |
| ControlActions.GetLoopLabel | src/se/raek/ahsa/Interpreter.java:153-164 | A label is found exactly for a break, and it is that break's label. |
| Values.MakeNull | src/se/raek/ahsa/runtime/Value.java:55-59 | makeNull always yields the null value. |
| Values.MakeBoolean | src/se/raek/ahsa/runtime/Value.java:61-67 | makeBoolean yields the boolean value with the given truth value, so equal booleans are the same value. |
| Values.ValueEquals | src/se/raek/ahsa/runtime/Value.java:89-289 | The source's equals, variant by variant, holds exactly when the model values are equal: numbers by value, the interned null and booleans by identity, and functions, ids, boxes and arrays by the identity of their payload. |
| Values.DifferentVariantsUnequal | src/se/raek/ahsa/runtime/Value.java:147-153 | Values of different variants are never equal. |
| Boxes.New | src/se/raek/ahsa/interpreter/Box.java:14-21 | A new box dereferences to its initial value. |
| Boxes.Assign | src/se/raek/ahsa/interpreter/Box.java:19-25 | After assign(v), deref yields v. |
| Boxes.AssignDerefIsNoOp | src/se/raek/ahsa/interpreter/Box.java:19-25 | Assigning a box the value deref returns changes nothing. |
| Boxes.DerefDeterminesBox | src/se/raek/ahsa/interpreter/Box.java:19-21 | Two boxes that dereference alike are the same box value: deref observes all of a box. |
| Boxes.AssignOverwrites | src/se/raek/ahsa/interpreter/Box.java:23-25 | Only the last assignment is observable. |
| Arrays.New | src/se/raek/ahsa/runtime/Array.java:12-19 | A new array has the requested length and every slot is null. |
| Arrays.AssignSubscriptOwnValueIsNoOp | src/se/raek/ahsa/runtime/Array.java:21-27 | Writing back the value subscript returns changes nothing. |
| Arrays.ObservationsDetermineArray | src/se/raek/ahsa/runtime/Array.java:21-31 | Two arrays with the same getLength that agree on subscript at every index are the same. |
| Arrays.AssignSubscript | src/se/raek/ahsa/runtime/Array.java:25-27 | After assignSubscript(i, v), slot i holds v. The length and every other slot are unchanged. |
| Casts.TypeName | src/se/raek/ahsa/Interpreter.java:69-90 | Every variant except an array has a type name. |
| Casts.TypeNameDeterminesVariant | src/se/raek/ahsa/Interpreter.java:69-90 | Two values with the same type name are of the same variant. |
| Casts.Truthy | src/se/raek/ahsa/Interpreter.java:125-137 | A value is falsy exactly when it is null or false. Zero, negative numbers and every reference are truthy. |
| Casts.CastToNumber | src/se/raek/ahsa/Interpreter.java:92-101 | Succeeds exactly on numbers and yields the payload. Any other value fails with a cast error naming "number" and the value. |
| Casts.CastToFunction | src/se/raek/ahsa/Interpreter.java:103-112 | Succeeds exactly on functions. Any other value fails with a cast error naming "function". |
| Casts.CastToBox | src/se/raek/ahsa/Interpreter.java:114-123 | Succeeds exactly on boxes. Any other value fails with a cast error naming "box". |
| Casts.CastToArray | src/se/raek/ahsa/interpreter/BuiltInFunctions.java:56-61 | Succeeds exactly on arrays. Any other value fails with a cast error naming "array". |
| Casts.CastToInt | test/se/raek/ahsa/interpreter/InterpreterTest.java:542-555 | Succeeds exactly on a number with no fractional part inside the 32-bit int range, and yields that integer. A fractional or out-of-range number is an illegal argument. A non-number is a cast error. |
| Casts.CastToIntRoundTrip | test/se/raek/ahsa/interpreter/InterpreterTest.java:542-545 | Every 32-bit int survives the trip to a number value and back. |
| AbstractFunctions.CheckArity | src/se/raek/ahsa/interpreter/AbstractFunctions.java:13-17 | The adapter passes exactly when the argument count equals the arity. Otherwise it raises an arity error naming both counts. |
| BuiltIns.Arity | src/se/raek/ahsa/interpreter/BuiltInFunctions.java:20-76 | Arities range over 0 to 3: only id takes none and only arraySet takes three. |
| BuiltIns.ApplyBuiltIn | src/se/raek/ahsa/interpreter/BuiltInFunctions.java:20-76 | A wrong argument count fails with the arity error before any argument is looked at. Success keeps the heap valid, frees nothing, changes no frame and no closure, and yields a value referring only to existing cells. |
| BuiltIns.IdsAreFresh | src/se/raek/ahsa/interpreter/BuiltInFunctions.java:20-25 | id() yields an id unequal to every value already in existence, and a second call yields yet another. |
| BuiltIns.BoxThenGet | src/se/raek/ahsa/interpreter/BuiltInFunctions.java:27-39 | boxGet(box(v)) is v, and the new box differs from every existing value. |
| BuiltIns.BoxSetThenGet | src/se/raek/ahsa/interpreter/BuiltInFunctions.java:41-47 | boxSet returns null. A later boxGet on the same box yields the new value, and every other box is unchanged. |
| BuiltIns.BoxOpsRejectNonBoxes | src/se/raek/ahsa/interpreter/BuiltInFunctions.java:34-47 | boxGet and boxSet on a non-box fail with a cast error naming "box". |
| BuiltIns.NewArrayIsNullFilled | src/se/raek/ahsa/interpreter/BuiltInFunctions.java:49-54 | array(n) yields a new array, distinct from every existing value, with arrayLength n and every slot null. |
| BuiltIns.NewArrayRejectsBadLength | src/se/raek/ahsa/interpreter/BuiltInFunctions.java:49-54 | A negative length is a negative-size error. A fractional or out-of-range length is an illegal argument. |
| BuiltIns.ArraySetThenGet | src/se/raek/ahsa/interpreter/BuiltInFunctions.java:56-69 | arraySet returns null. A later arrayGet at that index yields the stored value. Other slots and the length are unchanged. |
| BuiltIns.ArrayIndexChecked | src/se/raek/ahsa/interpreter/BuiltInFunctions.java:56-69 | Reading or writing outside 0 to length-1 is an index error naming the index and the length. |
| Heaps.Initial | src/se/raek/ahsa/runtime/Store.java:15-19 | A program starts in a valid state with one empty top-level frame. |
| Heaps.PushFrame | src/se/raek/ahsa/runtime/Store.java:15-19 | A new store is a new empty frame whose parent is the given store. Every older frame is untouched and the invariant holds. |
| Heaps.DefineValue | src/se/raek/ahsa/runtime/Store.java:69-76 | Same failure condition as the store operation. On success the invariant holds and only the current frame changes. |
| Heaps.AssignVariable | src/se/raek/ahsa/runtime/Store.java:87-90 | Assignment keeps the invariant and changes only the current frame. |
| Heaps.PushClosure | src/se/raek/ahsa/Interpreter.java:255-258 | A new closure gets the next free address. Existing closures and every other table are unchanged. |
| Heaps.PushBox | src/se/raek/ahsa/interpreter/Box.java:14-17 | A new box gets the next free address, so it is distinct from every earlier box. |
| Heaps.SetBox | src/se/raek/ahsa/interpreter/Box.java:23-25 | Assigning a box keeps the invariant and changes only that box. |
| Heaps.PushArray | src/se/raek/ahsa/runtime/Array.java:12-19 | A new array gets the next free address and is null-filled. |
| Heaps.SetSlot | src/se/raek/ahsa/runtime/Array.java:25-27 | Assigning a slot keeps the invariant and changes only that array. |
| Heaps.DrawId | src/se/raek/ahsa/interpreter/Id.java:9-13 | new Id() draws the counter and advances it, changing nothing else. |
| Heaps.LookupValueOk | src/se/raek/ahsa/runtime/Store.java:56-67 | A value found by lookup refers only to existing cells. |
| Heaps.LookupVariableOk | src/se/raek/ahsa/runtime/Store.java:78-85 | A variable found by lookup refers only to existing cells. |
| Interpreter.Arith | src/se/raek/ahsa/Interpreter.java:188-207 | On exact reals, subtraction undoes addition and addition undoes subtraction. With a non-zero divisor, division undoes multiplication and multiplication undoes division. Java doubles round, so these are laws of the model's numbers only. |
| Interpreter.Compare | src/se/raek/ahsa/Interpreter.java:222-242 | On equal operands only the non-strict comparisons hold. A true greater comparison rules out the operands being in increasing order, and a true less comparison rules out decreasing order. |
| Interpreter.LiteralValue | src/se/raek/ahsa/Interpreter.java:176-178 | A constant denotes the value of its literal, variant for variant. |
| Interpreter.EvalExpr | src/se/raek/ahsa/Interpreter.java:176-258 | Expression evaluation keeps the invariant, frees nothing and writes no existing frame. The value refers only to existing cells. |
| Interpreter.EvalArgs | src/se/raek/ahsa/Interpreter.java:244-253 | Yields one value per argument expression, under the same guarantees as EvalExpr. |
| Interpreter.Apply | src/se/raek/ahsa/Interpreter.java:244-253 | Applying a function writes no existing frame and keeps the invariant. |
| Interpreter.BindSelf | src/se/raek/ahsa/interpreter/CompoundFunction.java:28-30 | Without a self name nothing happens. Otherwise only the new frame changes, and the only possible failure is redefinition of the self name. |
| Interpreter.BindPairs | src/se/raek/ahsa/interpreter/CompoundFunction.java:31-35 | Parameters are defined pairwise in the new frame only. The only possible failure is a redefinition. |
| Interpreter.EnterCall | src/se/raek/ahsa/interpreter/CompoundFunction.java:26-38 | A count mismatch fails. On success the new frame is the next one and its parent is the captured frame. No older frame or closure changes. |
| Interpreter.ApplyCompound | src/se/raek/ahsa/interpreter/CompoundFunction.java:26-51 | A call writes no frame that existed before it, including the captured one, and keeps the invariant. |
| Interpreter.ExecStmt | src/se/raek/ahsa/Interpreter.java:260-304 | A statement keeps the invariant and changes no existing frame other than the current one. A returned value refers only to existing cells. |
| Interpreter.ExecStmts | src/se/raek/ahsa/Interpreter.java:166-174 | The same guarantees as ExecStmt, for a statement list. |
| Interpreter.RunLoop | src/se/raek/ahsa/Interpreter.java:286-296 | The same guarantees as ExecStmt, for every iteration of a loop. |
| Interpreter.ExecuteTopLevel | src/se/raek/ahsa/Interpreter.java:43-57 | A successful program keeps the invariant and changes only the top-level frame among existing frames. |
| InterpreterLaws.ExecStmtsAppend | src/se/raek/ahsa/Interpreter.java:166-174 | Running a + b runs a. It continues with b, in the state a left, exactly when a fell through. Otherwise a's signal or failure is the result. |
| InterpreterLaws.BreakSkipsTheRest | src/se/raek/ahsa/Interpreter.java:166-174 | Statements after a break never run. The list yields the break with the state unchanged. |
| InterpreterLaws.LoopAbsorbsOwnBreak | src/se/raek/ahsa/Interpreter.java:286-296 | A loop never yields a break of its own label. |
| InterpreterLaws.LoopPass | src/se/raek/ahsa/Interpreter.java:286-296 | One-step unfolding of the loop case. A break of this loop ends it with Next. A break of another loop, or a return, propagates unchanged. Falling through runs the body again from the state the pass left. |
| InterpreterLaws.ConditionalRunsOneBranch | src/se/raek/ahsa/Interpreter.java:277-284 | One-step unfolding of the conditional case. The condition is evaluated once. Its failure propagates. Otherwise exactly one branch runs in the resulting state, the else branch exactly when the value is null or false. |
| InterpreterLaws.ZeroIsTruthy | src/se/raek/ahsa/Interpreter.java:125-137 | A condition of 0 selects the then branch. |
| InterpreterLaws.UnequalNegatesEqual | src/se/raek/ahsa/Interpreter.java:209-220 | != has the same failures and effects as ==, and yields the negated boolean. |
| InterpreterLaws.EqualityIsTotal | src/se/raek/ahsa/Interpreter.java:209-220 | Once both operands evaluate, == succeeds and answers whether they are the same value. |
| InterpreterLaws.ClosuresHaveIdentity | src/se/raek/ahsa/Interpreter.java:255-258 | Two evaluations of the same function abstraction give unequal functions. |
| InterpreterLaws.OperandsBeforeCasts | src/se/raek/ahsa/Interpreter.java:188-192 | Arithmetic and relational operators evaluate both operands before casting. A failing right operand takes precedence over a non-number left one. Otherwise the left cast error is reported. |
| InterpreterLaws.RightCastAfterLeft | src/se/raek/ahsa/Interpreter.java:188-192 | With a numeric left operand, a non-number right operand is a cast error naming "number". |
| InterpreterLaws.CalleeCheckedBeforeArguments | src/se/raek/ahsa/Interpreter.java:244-253 | A non-function callee fails with a cast error naming "function" before any argument is evaluated. |
| InterpreterLaws.RelationalDuality | src/se/raek/ahsa/Interpreter.java:222-242 | On exact reals, > mirrors <, >= negates <, and <= negates >. Java's NaN breaks the negations. |
| InterpreterLaws.ArithmeticInverses | src/se/raek/ahsa/Interpreter.java:188-207 | On exact reals, subtraction undoes addition, and division by a non-zero number undoes multiplication. Java's rounding breaks both. |
| InterpreterLaws.DefinitionThenLookup | src/se/raek/ahsa/Interpreter.java:265-269 | After a value definition, a lookup in the same frame yields the defined value. |
| InterpreterLaws.NoRedefinition | src/se/raek/ahsa/Interpreter.java:265-269 | Defining the same value twice in one frame fails with ValueAlreadyDefined. |
| InterpreterLaws.ReassignmentThenLookup | src/se/raek/ahsa/Interpreter.java:271-275 | Assigning a variable twice succeeds, and a lookup sees the second value. |
| InterpreterLaws.TopLevelOutcomes | src/se/raek/ahsa/Interpreter.java:43-57 | One-step unfolding of top-level execution. A program succeeds exactly when its statements fall through. A break or return reaching the top level is a fatal error carrying the label or the value. |
| CallLaws.LookupInExtension | src/se/raek/ahsa/runtime/Store.java:56-67 | Appending frames changes no lookup from an existing frame. |
| CallLaws.BindPairsBinds | src/se/raek/ahsa/interpreter/CompoundFunction.java:31-35 | Distinct parameters are each bound to the argument at the same position. Earlier bindings are kept and nothing else is bound. |
| CallLaws.EnterCallBinds | src/se/raek/ahsa/interpreter/CompoundFunction.java:26-35 | With matching arity, a call's body starts in a new frame. Its parent is the captured frame. It holds exactly the self binding and the parameters bound to the arguments. Older frames are untouched. |
| CallLaws.ArityMismatch | src/se/raek/ahsa/interpreter/CompoundFunction.java:36-38 | A count mismatch fails with an arity error naming the formal and actual counts, before the body runs. |
| CallLaws.ParameterIsArgument | src/se/raek/ahsa/interpreter/CompoundFunction.java:31-35 | A body that returns parameter i makes the call yield argument i. |
| CallLaws.SelfIsTheFunction | src/se/raek/ahsa/interpreter/CompoundFunction.java:28-30 | Inside a named function, its own name denotes the function itself. |
| CallLaws.FreeNamesResolveInCapturedFrame | src/se/raek/ahsa/interpreter/CompoundFunction.java:26-27 | Scope is lexical: a name that is neither a parameter nor the self name resolves through the captured frame, whatever frame the call is made from. |
| CallLaws.FallingOffYieldsNull | src/se/raek/ahsa/interpreter/CompoundFunction.java:39-43 | For every closure and argument list the call's frame accepts: if the body, run in that frame, ends with Next, the call yields null with the heap the body left. |
| CallLaws.ReturnYieldsItsValue | src/se/raek/ahsa/interpreter/CompoundFunction.java:39-49 | For every such call: if the body ends with Return(v), the call yields v with the heap the body left. |
| CallLaws.BreakOutOfFunctionIsFatal | src/se/raek/ahsa/interpreter/CompoundFunction.java:39-46 | For every such call: if the body ends with Break(l), whichever loop l names, the call fails with the fatal error carrying l. |
| CallLaws.BodyFailureIsCallFailure | src/se/raek/ahsa/interpreter/CompoundFunction.java:39 | For every such call: an error raised by the body is the call's error. |
| CallLaws.LocalsAreFreshPerCall | src/se/raek/ahsa/interpreter/CompoundFunction.java:26-27 | A body that defines a local can be called twice in a row. The second call does not see the first call's binding. |
| CallLaws.LocalsAreFreshOnce | src/se/raek/ahsa/interpreter/CompoundFunction.java:26-27 | A body that defines a local succeeds, yields null and leaves the closure table entry intact. |
| FuelLaws.EvalExprFuel | src/se/raek/ahsa/Interpreter.java:176-258 | An expression evaluation that did not run out of fuel has the same outcome under any larger budget. |
| FuelLaws.BinaryFuel | src/se/raek/ahsa/Interpreter.java:188-242 | Both operands of a binary operator keep their settled outcomes under a larger budget. |
| FuelLaws.EvalArgsFuel | src/se/raek/ahsa/Interpreter.java:244-253 | Argument evaluation keeps a settled outcome under any larger budget. |
| FuelLaws.ApplyFuel | src/se/raek/ahsa/Interpreter.java:244-253 | Function application keeps a settled outcome under any larger budget. |
| FuelLaws.ApplyCompoundFuel | src/se/raek/ahsa/interpreter/CompoundFunction.java:26-51 | A compound call keeps a settled outcome under any larger budget. |
| FuelLaws.ExecStmtFuel | src/se/raek/ahsa/Interpreter.java:260-304 | A statement keeps a settled outcome under any larger budget. |
| FuelLaws.ExecStmtsFuel | src/se/raek/ahsa/Interpreter.java:166-174 | A statement list keeps a settled outcome under any larger budget. |
| FuelLaws.RunLoopFuel | src/se/raek/ahsa/Interpreter.java:286-296 | A loop keeps a settled outcome under any larger budget. |
| FuelLaws.ProgramOutcomeIndependentOfFuel | src/se/raek/ahsa/Interpreter.java:43-57 | A program's settled outcome does not depend on the budget. |
| Printer.NatRoundTrip | src/se/raek/ahsa/interpreter/Printer.java:92-95 | Reading printed decimal digits back gives the number printed. |
| Printer.NatToStringInjective | src/se/raek/ahsa/interpreter/Printer.java:102-115 | Distinct cell numbers print as distinct digit strings. |
| Printer.IntegralDecimal | src/se/raek/ahsa/interpreter/Printer.java:92-95 | An integral number below 10^7 in magnitude prints as an optional minus sign, digits and ".0". The sign appears exactly for negatives. From 10^7 on, the host switches to scientific notation, which is outside this function's domain. |
| Printer.IntegralDecimalRoundTrip | src/se/raek/ahsa/interpreter/Printer.java:92-95 | For every integer below 10^7 in magnitude, reading that rendering back gives the integer printed. |
| Printer.PrintedNumberReadsBack | src/se/raek/ahsa/interpreter/Printer.java:92-95 | Under the hypothesis that the host renders an integer below 10^7 in magnitude as IntegralDecimal does, the number value prints as text that reads back as the same number. The hypothesis is not proved. |
| Printer.LiteralToString | src/se/raek/ahsa/interpreter/Printer.java:82-95 | Null and the booleans print as lower-case keywords of at least four letters; ConstantPrintsAsItsValue relates the rendering to the value the literal denotes. |
| Printer.ValueToString | src/se/raek/ahsa/interpreter/Printer.java:82-115 | Functions, ids, boxes and arrays print as tags of the form "#<…>", and null and the booleans never start with '#'. TagsDistinguishVariants and ReferencesPrintInjectively state the injectivity this gives. |
| Printer.ArithmeticSymbol | src/se/raek/ahsa/interpreter/Printer.java:132-156 | The arithmetic symbols are non-empty and contain no parenthesis. |
| Printer.EqualitySymbol | src/se/raek/ahsa/interpreter/Printer.java:158-175 | The equality symbols are non-empty and contain no parenthesis. |
| Printer.RelationalSymbol | src/se/raek/ahsa/interpreter/Printer.java:177-202 | The relational symbols are non-empty and contain no parenthesis. |
| Printer.ExprToString | src/se/raek/ahsa/interpreter/Printer.java:117-213 | A binary operation prints wrapped in one pair of parentheses. ParenthesesBalance gives the full bracket count. |
| Printer.StmtToString | src/se/raek/ahsa/interpreter/Printer.java:215-266 | Every statement prints as non-empty text. Throwaway expressions, definitions, assignments and returns end with ';', and a conditional ends with '}'. |
| Printer.StmtsToString | src/se/raek/ahsa/interpreter/Printer.java:76-80 | A statement list prints at least one character per statement, so it prints as empty text exactly when it is empty. StmtsToStringAppend relates it to concatenation. |
| Printer.ConstantPrintsAsItsValue | src/se/raek/ahsa/interpreter/Printer.java:117-120 | A constant prints exactly as the value it evaluates to. |
| Printer.TagsDistinguishVariants | src/se/raek/ahsa/interpreter/Printer.java:82-115 | Apart from numbers, values of different variants never print alike. |
| Printer.ReferencesPrintInjectively | src/se/raek/ahsa/interpreter/Printer.java:102-115 | Ids, boxes and arrays print alike exactly when they are the same value. |
| Printer.FunctionsPrintAlike | src/se/raek/ahsa/interpreter/Printer.java:97-100 | Every function prints as the same opaque tag "#<fn>". |
| Printer.StmtsToStringAppend | src/se/raek/ahsa/interpreter/Printer.java:45-50 | Printing a statement list distributes over concatenation. |
| Printer.ParenthesesBalance | src/se/raek/ahsa/interpreter/Printer.java:132-202 | Binary operations are fully parenthesised: a rendering opens as many parentheses as it closes, one pair per operator. |

## Left out

- The command-line entry point `Main.java` and the parser `Parser.java` are not part of this model. The parser is generated lexer and grammar code.
- The `print` built-in writes to standard output and is not modelled. The `PrintWriter` plumbing of the printer is replaced by functions that return strings.
- Numbers are Dafny `real`s, not IEEE-754 doubles. NaN, signed zeros, infinities and rounding are not modelled. `Double.compare` equality becomes equality of reals.
- Interpreter.Arith: division by zero has no real result. The model yields 0.0 there and states no property about it. Its inverse laws hold for exact reals only: with Java doubles, (1.0 + 1e20) - 1e20 is 0.0, not 1.0.
- InterpreterLaws.ArithmeticInverses: a law of the model's exact reals that Java doubles do not satisfy. (1.0 + 1e20) - 1e20 is 0.0 because of rounding, and (1e308 * 10) / 10 is Infinity because of overflow.
- InterpreterLaws.RelationalDuality: a law of the model's exact reals that Java doubles do not satisfy. For the NaN that `0.0 / 0.0` produces, `NaN >= 0` and `NaN < 0` are both false, so `>=` does not negate `<`, and `<=` does not negate `>`.
- Printer.PrintedNumberReadsBack: Java's `Double.toString` is host code, so every printer function takes the rendering of a number as a parameter. Only its output for integers below 10^7 in magnitude is modelled, as `IntegralDecimal`.
- Casts.TypeName: the source's `typeName` has no array case, so the model gives an array no type name. A cast error therefore carries the offending value, not its type name.
- Casts.CastToInt and Casts.CastToArray are not defined in `Interpreter.java`, which the built-ins import them from. They are modelled from the built-ins' use of them and the interpreter tests: an integral number inside the 32-bit int range, otherwise an illegal argument.
- `hashCode` methods have no counterpart: equality is datatype equality.
- The atomic counters of the location, id, box and array classes become plain counters.
  - The resolver numbers all locations from one counter.
  - Ids come from the heap's id counter.
  - Boxes and arrays are identified by their table addresses.
  - What the source relies on, distinct identities, is kept.
- The matcher interfaces and `AbstractMatcher` defaults of `Identifier`, `ControlAction`, `Value`, `Expression` and `Statement` become Dafny `match`, with a wildcard case where the source falls back to `otherwise`.
- The null-rejecting constructors have no counterpart, because Dafny values are never null.
- Structural `equals` of expressions, statements, identifiers and control actions is Dafny's datatype equality. Datatypes are equal exactly when they have the same constructor and equal arguments.
- Some of the tree and resolver classes are an older revision than the code that uses them. The model follows the newer users:
  - `Identifier.java` has only the unbound, value, variable and inaccessible-variable cases. `Identifiers.Loop` and `Identifiers.InaccessibleLoop` are modelled from their use in `Environment.java`, in the function-scope derivation and in `installLoop`.
  - `Statement.java` has no loop, break or return statement. `Ast.Loop`, `Ast.Break` and `Ast.Return` are modelled from `Interpreter.java` and `Printer.java`.
  - `FunctionAbstraction` in `Expression.java` has no self name, and its `equals` compares only the parameters and the body. The `self` field of `Ast.FunctionAbstraction` is modelled from `Interpreter.java` and `CompoundFunction.java`. Its datatype equality also compares `self`.
  - For these variants and for `self` there is no source `equals` to follow, so their equality is the datatype's.
- Interned singletons (`Next`, `Unbound`, null and the booleans) are nullary or equal constructors.
- The older duplicates `Evaluator.java`, `BinaryOperator.java`, the top-level `Printer.java`, and the `runtime` versions of `CompoundFunction`, `BuiltInFunctions` and `ControlAction` are not modelled. The files above supersede them.
- Interpreter.ExecStmt, Interpreter.RunLoop and Interpreter.ApplyCompound: non-termination is not modelled directly. Each loop iteration and compound call consumes fuel, and running out is the model-only error OutOfFuel. FuelLaws shows fuel only truncates: any other outcome is the same under every larger budget.
- Interpreter.EvalExpr: a constant holds a literal, as in the printer's version of the AST, rather than an arbitrary runtime value.
- Heaps.PushArray: the source draws an array's number before `new Value[length]` can throw, so a rejected negative length still uses up a number and the next array prints one higher than in the model. The model numbers an array by its table address and keeps only what the source relies on, distinct identities.
- Heaps.PushArray: an array's length is a Java `int`. The model keeps lengths at most 2^31 - 1 as part of the heap invariant, which the built-in's cast guarantees.
