# Unused Objective-C method analyzer, modelled in Dafny

This project models the usage-tracking core of `MethodAnalyzer`, a Clang
plugin that reports Objective-C methods that are declared in the user's
own source and never called. The plugin keeps a process-wide registry
`interfaceMap`. It maps each class name to two maps keyed by selector:
the last declaration seen, and a used flag. Visiting a method declaration
walks the class's superclass chain (`addMethod`). Visiting a message send
walks the receiver's chain (`addExpr`). Two suppression tests run before a
declaration is recorded: a protocol requires the method, or the method
overrides one inherited from framework code. The report lists every pair
whose flag is still false.

Modules, one per component:

- `SourceClassifier`: the path tests. A file is the user's own when it
  contains neither `/Applications/Xcode.app/` nor `/Pods/`. `Find` is
  `std::string::find`, proved to return the first occurrence.
- `StringOrder`: `std::string` `operator<`, the order in which `std::map`
  iterates. It is proved to be a strict total order, and every non-empty
  key set is proved to have a first element.
- `ObjCModel`: the Clang facts the core consumes, as plain data. Each
  class has a superclass, a defining file, referenced protocols, and a rank
  that witnesses acyclicity. `lookupMethod` on classes and protocols is
  given as sets of (name, signature) pairs. The module also defines the
  superclass chain, its user-owned prefix, and the first non-user ancestor.
- `UsageModel`: the registry as a value. `Record` is one loop step of
  either walk on one class entry. `DeclWalk` and `CallWalk` follow the two
  loops. `Updated` is an independent set-based description of the same
  effect, and `DeclWalkIsUpdate` and `CallWalkIsUpdate` prove the two agree.
  The module also holds the event functions `AfterDecl`, `AfterStmt` and
  `Run`, and the lemmas about what the walks change.
- `MethodAnalyzer`: the executable layer. Class `UsageRegistry` holds
  `interfaceMap` as a field. Its methods update the field in place with the
  source's `while` loops, and each is proved equal to the function above it.
  `IsProtocolMethod` and `IsSystemMethod` are read-only loops.
  `DiagnosticationResult` walks the registry in key order.
- `Scenarios`: concrete worlds. They show:
  - a declared, never-called method registered unused;
  - a call through a subclass marking the declaring class used;
  - protocol and framework suppression;
  - a subclass redeclaration slipping past the protocol test;
  - the last of two declarations winning;
  - an interface redeclaration making a called method look unused;
  - a first interface visit resetting nothing;
  - the report on the registry object giving exactly one warning.

Behaviour of the code that the model keeps as written:

- The toolchain test matches `/Applications/Xcode.app/` anywhere in a path,
  not only as a root (`SystemPathIsNotUserSource`).
- A message whose `getMethodDecl()` is NULL is not skipped; the code
  dereferences it. `StmtOk` therefore requires the callee whenever the
  `VisitStmt` filter passes.
- `isSystemMethod` never tests for NULL while walking past user classes.
  `DeclOk` therefore requires a non-user ancestor whenever that walk runs.
- Used flags are not always monotone. Visiting a user-source interface
  declaration whose name is already registered replaces its entry with an
  empty one (MethodAnalyzer.cpp:48-51). This is modelled as written.
  `ResetBreaksMonotonicity` shows that such a reset removes every pair of the
  entry. `RunMonotone` shows that it is the only way flags fall: over any
  traversal in which no visit resets an entry registered at that point
  (`NoReset`), no pair disappears and no true flag becomes false. A class's
  first interface visit resets nothing (`ResetDependsOnRegistry`).
  `InterfaceRedeclarationForgetsCall` shows the consequence for the report.
- Registry keys are selector strings only, so an instance method and a
  class method with the same selector share one entry.
- The protocol test reads only the declaring class's own
  `all_referenced_protocols()` (MethodAnalyzer.cpp:101). A subclass that
  redeclares a method its superclass's protocol requires passes the filter,
  and the walk up from the subclass then registers the conforming
  superclass's pair as unused. `SubclassRedeclarationRegistersProtocolMethod`
  shows this; `ProtocolRequirementIsNotTracked` covers only a declaration in
  the conforming class itself.

## Model

| member | source | states |
|---|---|---|
| SourceClassifier.FindFrom | MethodAnalyzer.cpp:198-206 | `find` from a start position returns the first occurrence at or after it, or None (npos) when there is none |
| SourceClassifier.Find | MethodAnalyzer.cpp:198-206 | `find` returns None exactly when the substring does not occur, and otherwise its first occurrence |
| SourceClassifier.IsPodFile | MethodAnalyzer.cpp:198-201 | true iff the path contains `/Pods/` |
| SourceClassifier.IsSystemSource | MethodAnalyzer.cpp:203-206 | true iff the path contains `/Applications/Xcode.app/` |
| SourceClassifier.IsUserSourceUsefulFile | MethodAnalyzer.cpp:182-186 | a path is the user's own iff it contains neither marker |
| SourceClassifier.SystemPathIsNotUserSource | MethodAnalyzer.cpp:203-206 | a path with the Xcode marker anywhere, after any prefix, is rejected |
| SourceClassifier.PodsPathIsNotUserSource | MethodAnalyzer.cpp:198-201 | a path with a `/Pods/` component anywhere is rejected |
| SourceClassifier.ShortPathIsUserSource | MethodAnalyzer.cpp:182-186 | a path shorter than both markers is accepted |
| StringOrder.LessIrreflexive | MethodAnalyzer.cpp:83-85 | no key precedes itself in map order |
| StringOrder.LessTransitive | MethodAnalyzer.cpp:83-85 | map key order is transitive |
| StringOrder.LessTotal | MethodAnalyzer.cpp:83-85 | any two distinct keys are ordered one way or the other |
| StringOrder.LeastExists | MethodAnalyzer.cpp:83-85 | every non-empty key set has a first key, where map iteration begins |
| ObjCModel.Ancestors | MethodAnalyzer.cpp:121-135 | the chain starts at the class, each next element is the previous one's `getSuperClass()`, and it ends at a root |
| ObjCModel.OwnedPrefix | MethodAnalyzer.cpp:141-142 | every class the call walk visits is in the user's own source |
| ObjCModel.SystemAncestor | MethodAnalyzer.cpp:110-113 | the class the `isSystemMethod` walk stops at is known and not the user's own |
| ObjCModel.ChainSplit | MethodAnalyzer.cpp:110-113 | the owned prefix is a prefix of the chain, and the element right after it, when there is one, is the system ancestor |
| UsageModel.ModelOf | MethodAnalyzer.cpp:126 | `interfaceMap[name]`: the stored entry, or an empty one when the name is absent; its use by the walks is specified by `DeclWalkIsUpdate` and `CallWalkIsUpdate` |
| UsageModel.Record | MethodAnalyzer.cpp:123-134 | one loop step on one class entry, the `isExist` branches of both walks; specified by `RecordIdempotent`, `RecordCommute`, `RecordConsistent` and, per pair, by `AddMethodEffect` and `AddExprEffect` |
| UsageModel.DeclWalk | MethodAnalyzer.cpp:120-137 | the `addMethod` loop from the current class up to the root; `DeclWalkIsUpdate` proves it equal to the step on exactly the ancestors whose lookup succeeds |
| UsageModel.CallWalk | MethodAnalyzer.cpp:139-157 | the `addExpr` loop, which stops at the first class outside the user's source; `CallWalkIsUpdate` proves it equal to the step on exactly the owned-prefix classes whose lookup succeeds |
| ObjCModel.Program.Owned | MethodAnalyzer.cpp:170-174 | `isUserSourceDecl` on a class: the class is known and its file passes `IsUserSourceUsefulFile`; `OwnedPrefix` and `SystemAncestor` state what the walks make of it |
| UsageModel.DeclOk | MethodAnalyzer.cpp:109-113 | the declarations on which the unchecked walk of `isSystemMethod` does not reach NULL: a method declaration that passes the tests before `isSystemMethod` has a non-user ancestor, which is what `IsSystemMethod` requires |
| UsageModel.StmtOk | MethodAnalyzer.cpp:140-143 | the statements on which `addExpr` does not dereference a NULL `getMethodDecl()`: one passing the `VisitStmt` filter has a callee |
| UsageModel.Tracked | MethodAnalyzer.cpp:55-59 | the filter in front of `addMethod`: user file, a class interface, a user-source class, not protocol-required, not a framework override; `VisitMethodDecl` states both outcomes |
| UsageModel.AfterDecl | MethodAnalyzer.cpp:41-65 | `VisitDecl` on the registry; `VisitInterfaceDecl` states the interface reset and `VisitMethodDecl` the filtered `addMethod` call |
| UsageModel.TrackedMessage | MethodAnalyzer.cpp:69-73 | the filter of `VisitStmt`: a user-source message whose receiver interface is non-NULL and the user's own; `VisitMessageEffect` states both outcomes |
| UsageModel.AfterStmt | MethodAnalyzer.cpp:67-79 | `VisitStmt` on the registry; `VisitMessageEffect`, `VisitMessageMarksUsed` and `VisitStmtMonotone` state its effect |
| UsageModel.VisitInterfaceDecl | MethodAnalyzer.cpp:44-51 | a user-source interface whose name is registered gets an empty entry and every other entry is unchanged; otherwise the registry is unchanged |
| UsageModel.RecordIdempotent | MethodAnalyzer.cpp:127-133 | repeating one walk step on an entry changes nothing further |
| UsageModel.RecordCommute | MethodAnalyzer.cpp:120-157 | a declaration step and a call step on one entry give the same entry in either order |
| UsageModel.UpdatedKeepsConsistent | MethodAnalyzer.cpp:14-21 | both walks keep the two maps of every entry on the same selectors |
| UsageModel.DeclWalkIsUpdate | MethodAnalyzer.cpp:120-137 | the `addMethod` loop applies the declaration step exactly to the ancestors whose lookup succeeds |
| UsageModel.CallWalkIsUpdate | MethodAnalyzer.cpp:139-157 | the `addExpr` loop applies the call step exactly to the owned-prefix classes whose lookup succeeds |
| UsageModel.AddMethodEffect | MethodAnalyzer.cpp:120-137 | on a recorded pair the declaration is overwritten and the flag kept, or set to false for a new pair; every other pair is unchanged |
| UsageModel.AddExprEffect | MethodAnalyzer.cpp:139-157 | every owned ancestor up to the first foreign class whose lookup succeeds gets flag true; an existing pair keeps its declaration; every other pair is unchanged |
| UsageModel.AddMethodFrame | MethodAnalyzer.cpp:120-137 | entries are created only for recorded classes; every other class's entry is unchanged |
| UsageModel.AddExprFrame | MethodAnalyzer.cpp:139-157 | entries are created only for recorded classes; every other class's entry is unchanged |
| UsageModel.AddMethodMonotone | MethodAnalyzer.cpp:127-133 | `addMethod` removes no pair and turns no true flag false |
| UsageModel.AddExprMonotone | MethodAnalyzer.cpp:147-153 | `addExpr` removes no pair and turns no true flag false |
| UsageModel.DeclarationAndCallCommute | MethodAnalyzer.cpp:120-157 | recording a declaration and then a call gives the same registry as the opposite order |
| UsageModel.VisitMethodDecl | MethodAnalyzer.cpp:53-62 | a declaration failing the filter (file, NULL class, foreign class, protocol, system override) changes nothing; one passing it registers its class's pair whenever lookup on that class succeeds |
| UsageModel.VisitMessageEffect | MethodAnalyzer.cpp:67-79 | a statement failing the filter changes nothing; one passing it sets the flag true where the walk records, keeps an existing declaration or stores the callee, and leaves every other pair unchanged |
| UsageModel.VisitMessageMarksUsed | MethodAnalyzer.cpp:67-79 | a user-source message to a user-source receiver marks each owned ancestor whose lookup succeeds as used |
| UsageModel.VisitDeclMonotone | MethodAnalyzer.cpp:41-65 | every declaration visit that does not reset an already registered entry only raises flags |
| UsageModel.ResetBreaksMonotonicity | MethodAnalyzer.cpp:48-51 | resetting a registered entry that holds a pair removes that pair, so flag monotonicity fails exactly at a reset |
| UsageModel.VisitStmtMonotone | MethodAnalyzer.cpp:67-79 | every statement visit only raises flags |
| UsageModel.VisitOrderIrrelevant | MethodAnalyzer.cpp:41-79 | a declaration visit other than a user-source interface commutes with a statement visit; interfaces are excluded because the statement may register the name |
| UsageModel.RunMonotone | MethodAnalyzer.cpp:41-79 | over any traversal in which no visit resets an entry registered at that point, a true flag stays true and no pair disappears |
| UsageModel.UnusedFlagIsReported | MethodAnalyzer.cpp:88-90 | in a consistent registry the NULL test of the report never skips a false flag |
| UsageModel.OrderedHasNoDuplicates | MethodAnalyzer.cpp:83-93 | a report in map order names each (class, selector) at most once |
| MethodAnalyzer.IsProtocolMethod | MethodAnalyzer.cpp:99-107 | true iff some referenced protocol's lookup succeeds |
| MethodAnalyzer.IsSystemMethod | MethodAnalyzer.cpp:109-118 | equals lookup on the first non-user ancestor, and requires that one to exist |
| MethodAnalyzer.UnusedSelectors | MethodAnalyzer.cpp:85-95 | exactly the unused selectors of one entry with a stored declaration, in key order |
| MethodAnalyzer.ReportStep | MethodAnalyzer.cpp:83-96 | appending the first pending class's unused selectors preserves the order, soundness and coverage of the report |
| MethodAnalyzer.UsageRegistry.constructor | MethodAnalyzer.cpp:24 | the registry starts empty |
| MethodAnalyzer.UsageRegistry.AddMethod | MethodAnalyzer.cpp:120-137 | the new registry is `DeclWalk` of the old one, equivalently `Updated` on the recording ancestors, and stays consistent |
| MethodAnalyzer.UsageRegistry.AddExpr | MethodAnalyzer.cpp:139-157 | the new registry is `CallWalk` of the old one, equivalently `Updated` on the owned recording ancestors, and stays consistent |
| MethodAnalyzer.UsageRegistry.VisitDecl | MethodAnalyzer.cpp:41-65 | the new registry is `AfterDecl` of the old one: an interface redeclaration resets a registered entry, and a method declaration passing the filter is recorded |
| MethodAnalyzer.UsageRegistry.VisitStmt | MethodAnalyzer.cpp:67-79 | the new registry is `AfterStmt` of the old one |
| MethodAnalyzer.UsageRegistry.DiagnosticationResult | MethodAnalyzer.cpp:81-97 | every warning is an unused pair with a stored declaration, every such pair is reported, and the list is in class-then-selector order |
| Scenarios.DeclaredNeverCalledIsUnused | MethodAnalyzer.cpp:53-62 | a declared, never-called method of a user class is registered unused |
| Scenarios.CallThroughSubclassMarksDeclaringClass | MethodAnalyzer.cpp:139-157 | a call through a subclass that inherits the method marks the declaring superclass used |
| Scenarios.ProtocolRequirementIsNotTracked | MethodAnalyzer.cpp:99-107 | a protocol-required method declared in the conforming class itself leaves the registry empty |
| Scenarios.SubclassRedeclarationRegistersProtocolMethod | MethodAnalyzer.cpp:99-107 | a subclass redeclaring a method its superclass's protocol requires passes the protocol test, and the walk registers the superclass's pair as unused |
| Scenarios.SystemOverrideIsNotTracked | MethodAnalyzer.cpp:109-118 | a method also found on NSObject leaves the registry empty |
| Scenarios.LastDeclarationWins | MethodAnalyzer.cpp:127-133 | two declarations of one selector leave one unused entry holding the later declaration |
| Scenarios.ResetDependsOnRegistry | MethodAnalyzer.cpp:44-51 | an interface visit followed by a method of that class resets nothing, while the same interface visit after a call that registered the class does |
| Scenarios.InterfaceRedeclarationForgetsCall | MethodAnalyzer.cpp:48-51 | revisiting a registered interface after a call forgets the call, so a later declaration registers the method unused; visiting the interface first does not |
| Scenarios.ReportAfterTwoDeclarations | MethodAnalyzer.cpp:81-97 | on the registry object, two declarations and no call give exactly one warning, anchored at the later declaration |

## Left out

- Clang's AST traversal (`RecursiveASTVisitor`, `isa<>` dispatch, `TraverseDecl`) is foreign library code. Declarations and statements are explicit inputs (`Decl`, `Stmt`), and a traversal is a sequence of them (`Run`).
- Filename resolution through `SourceManager` is a foreign call. Every declaration, statement and class carries its file path as data.
- The semantics of `lookupMethod`, `all_referenced_protocols`, `getSuperClass`, `getClassInterface`, `getReceiverInterface` and `getMethodDecl` belong to Clang. They are inputs in `Program` and in the event records.
- Diagnostic ID creation, the message text and `DiagnosticsEngine::Report` are output formatting. The report is returned as a sequence of (class, selector, declaration) warnings.
- The plugin wiring (`MyASTConsumer`, `MyASTAction`, `ParseArgs`, registry registration) is driver glue, and `setContext` stores state nothing reads.
- The commented-out `.h`/`.m` checks are dead code.
- In the report, `methodDeclMap[selector]` default-inserts a NULL entry for a missing key. The report is modelled read-only. The insertion is never observable, and `UnusedFlagIsReported` shows it cannot happen in a consistent registry.
- Strings are sequences of Unicode code points, not bytes. For UTF-8 names, byte order and code point order agree, so the report order is unaffected.
- Class ranks are a modelling device. They stand in for the acyclicity Clang guarantees for superclass chains.
- UsageModel.DeclOk: a precondition of the declaration visit rather than modelled behaviour. `isSystemMethod` walks past user classes without a NULL test (MethodAnalyzer.cpp:111-113), so a user class with no non-user ancestor would dereference NULL; the model does not describe what happens then.
- UsageModel.StmtOk: a precondition of the statement visit rather than modelled behaviour. `addExpr` uses `getMethodDecl()` without a NULL test (MethodAnalyzer.cpp:140-143), so a message without a resolved callee would dereference NULL; the model does not describe what happens then.
