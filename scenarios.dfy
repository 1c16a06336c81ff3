/**
 * Concrete runs of the collector on a three-class world: NSObject (in
 * the Xcode toolchain), A : NSObject conforming to protocol P, and
 * B : A, both in the user's own source. lookupMethod is given as Clang
 * would answer it, B inheriting A's `foo`.
 */
module Scenarios {
  import opened Wrappers
  import opened SourceClassifier
  import opened ObjCModel
  import opened UsageModel
  import opened MethodAnalyzer

  const FOO: MethodSig := MethodSig("foo", true)
  const BAR: MethodSig := MethodSig("bar", true)
  const BAZ: MethodSig := MethodSig("baz", true)
  const QUX: MethodSig := MethodSig("qux", true)

  const WORLD: Program := Program(
    map[
      "NSObject" := ClassInfo(None, SYSTEM_MARKER + "NSObject.h", [], 0),
      "A" := ClassInfo(Some("NSObject"), "A.m", ["P"], 1),
      "B" := ClassInfo(Some("A"), "B.m", [], 2)],
    {("A", FOO), ("B", FOO), ("A", BAR), ("A", BAZ), ("NSObject", BAZ), ("A", QUX)},
    {("P", BAR)})

  lemma WorldFacts()
    ensures WORLD.WellFormed()
    ensures WORLD.Owned("A") && WORLD.Owned("B") && !WORLD.Owned("NSObject")
    ensures SystemAncestor(WORLD, Some("A")) == Some("NSObject")
    ensures OwnedPrefix(WORLD, Some("B")) == ["B", "A"]
  {
    ShortPathIsUserSource("A.m");
    ShortPathIsUserSource("B.m");
    SystemPathIsNotUserSource("", "NSObject.h");
    assert "" + SYSTEM_MARKER + "NSObject.h" == WORLD.classes["NSObject"].file;
    assert OwnedPrefix(WORLD, Some("NSObject")) == [];
    assert OwnedPrefix(WORLD, Some("A")) == ["A"];
  }

  /** A method of A declared once and never called is registered unused. */
  lemma DeclaredNeverCalledIsUnused()
    ensures WORLD.WellFormed()
    ensures var d := MethodDecl("A.m", ObjCMethod(1, FOO, Some("A")));
      DeclOk(WORLD, d) && IsUnusedEntry(AfterDecl(WORLD, map[], d), "A", "foo")
  {
    WorldFacts();
    var m := ObjCMethod(1, FOO, Some("A"));
    assert !RequiredByProtocol(WORLD, "A", FOO);
    VisitMethodDecl(WORLD, map[], "A.m", m);
  }

  /** A call through subclass B marks the declaring class A as used. */
  lemma CallThroughSubclassMarksDeclaringClass()
    ensures WORLD.WellFormed()
    ensures var d := MethodDecl("A.m", ObjCMethod(1, FOO, Some("A")));
      var st := MessageExpr("B.m", Some("B"), Some(ObjCMethod(1, FOO, Some("A"))));
      DeclOk(WORLD, d) && StmtOk(WORLD, st)
      && !IsUnusedEntry(AfterStmt(WORLD, AfterDecl(WORLD, map[], d), st), "A", "foo")
  {
    WorldFacts();
    var m := ObjCMethod(1, FOO, Some("A"));
    var d := MethodDecl("A.m", m);
    var st := MessageExpr("B.m", Some("B"), Some(m));
    assert !RequiredByProtocol(WORLD, "A", FOO);
    VisitMessageMarksUsed(WORLD, AfterDecl(WORLD, map[], d), st, "A");
  }

  /** A method of P declared in A, the class that conforms to P, leaves the registry untouched. */
  lemma ProtocolRequirementIsNotTracked()
    ensures WORLD.WellFormed()
    ensures var d := MethodDecl("A.m", ObjCMethod(2, BAR, Some("A")));
      DeclOk(WORLD, d) && AfterDecl(WORLD, map[], d) == map[]
  {
    WorldFacts();
    assert "P" in WORLD.classes["A"].protocols && WORLD.ProtocolLookup("P", BAR);
  }

  /** WORLD with B redeclaring `bar`, the method A's protocol P requires. */
  const REDECLARING_WORLD: Program := Program(
    WORLD.classes,
    {("A", FOO), ("B", FOO), ("A", BAR), ("B", BAR), ("A", BAZ), ("NSObject", BAZ), ("A", QUX)},
    {("P", BAR)})

  lemma RedeclaringWorldFacts()
    ensures REDECLARING_WORLD.WellFormed()
    ensures SystemAncestor(REDECLARING_WORLD, Some("B")) == Some("NSObject")
    ensures Ancestors(REDECLARING_WORLD, Some("B")) == ["B", "A", "NSObject"]
  {
    WorldFacts();
    var w := REDECLARING_WORLD;
    assert w.Owned("A") && w.Owned("B") && !w.Owned("NSObject");
    assert SystemAncestor(w, Some("A")) == Some("NSObject");
    assert Ancestors(w, Some("NSObject")) == ["NSObject"];
    assert Ancestors(w, Some("A")) == ["A", "NSObject"];
  }

  /**
   * The protocol test reads only the declaring class's own protocols. B's
   * redeclaration of `bar` passes the filter, and the walk up from B then
   * registers A's `bar` as unused although A conforms to P.
   */
  lemma SubclassRedeclarationRegistersProtocolMethod()
    ensures REDECLARING_WORLD.WellFormed()
    ensures var d := MethodDecl("B.m", ObjCMethod(7, BAR, Some("B")));
      DeclOk(REDECLARING_WORLD, d) && IsUnusedEntry(AfterDecl(REDECLARING_WORLD, map[], d), "A", "bar")
  {
    RedeclaringWorldFacts();
    var w := REDECLARING_WORLD;
    var m := ObjCMethod(7, BAR, Some("B"));
    assert !RequiredByProtocol(w, "B", BAR);
    DeclWalkIsUpdate(w, map[], Some("B"), m);
    assert DeclTargets(w, Some("B"), BAR) == {"B", "A"};
  }

  /** A method that NSObject also has is a framework override and is not tracked. */
  lemma SystemOverrideIsNotTracked()
    ensures WORLD.WellFormed()
    ensures var d := MethodDecl("A.m", ObjCMethod(3, BAZ, Some("A")));
      DeclOk(WORLD, d) && AfterDecl(WORLD, map[], d) == map[]
  {
    WorldFacts();
    assert !RequiredByProtocol(WORLD, "A", BAZ);
  }

  /** Two declarations of one selector: one unused entry, anchored at the later declaration. */
  lemma LastDeclarationWins()
    ensures WORLD.WellFormed()
    ensures var d5, d6 := MethodDecl("A.m", ObjCMethod(5, QUX, Some("A"))), MethodDecl("A2.m", ObjCMethod(6, QUX, Some("A")));
      && DeclOk(WORLD, d5) && DeclOk(WORLD, d6)
      && var r := AfterDecl(WORLD, AfterDecl(WORLD, map[], d5), d6);
         r == map["A" := InterfaceModel(map["qux" := 6], map["qux" := false])]
  {
    WorldFacts();
    ShortPathIsUserSource("A2.m");
    assert !RequiredByProtocol(WORLD, "A", QUX);
    var m5, m6 := ObjCMethod(5, QUX, Some("A")), ObjCMethod(6, QUX, Some("A"));
    var r1 := AfterDecl(WORLD, map[], MethodDecl("A.m", m5));
    DeclWalkIsUpdate(WORLD, map[], Some("A"), m5);
    assert Ancestors(WORLD, Some("A")) == ["A", "NSObject"];
    assert DeclTargets(WORLD, Some("A"), QUX) == {"A"};
    assert r1 == map["A" := InterfaceModel(map["qux" := 5], map["qux" := false])];
    DeclWalkIsUpdate(WORLD, r1, Some("A"), m6);
    var r2 := AfterDecl(WORLD, r1, MethodDecl("A2.m", m6));
    assert r2 == Updated(r1, {"A"}, "qux", Declared(6));
    assert Record(r1["A"], "qux", Declared(6)) == InterfaceModel(map["qux" := 6], map["qux" := false]);
    assert r2.Keys == {"A"};
  }

  /**
   * As written, revisiting A's interface declaration after a call wipes A's
   * entry, so a later declaration of the called method registers it as
   * unused; visiting the interface first does not.
   */
  lemma InterfaceRedeclarationForgetsCall()
    ensures WORLD.WellFormed()
    ensures var m := ObjCMethod(1, FOO, Some("A"));
      var call, iface, decl := MessageExpr("A.m", Some("A"), Some(m)), InterfaceDecl("A.h", "A"), MethodDecl("A.m", m);
      && StmtOk(WORLD, call) && DeclOk(WORLD, iface) && DeclOk(WORLD, decl)
      && var called := AfterStmt(WORLD, map[], call);
         && FlagOf(called, "A", "foo") == Some(true)
         && IsUnusedEntry(AfterDecl(WORLD, AfterDecl(WORLD, called, iface), decl), "A", "foo")
         && FlagOf(AfterStmt(WORLD, AfterDecl(WORLD, map[], iface), call), "A", "foo") == Some(true)
  {
    WorldFacts();
    ShortPathIsUserSource("A.h");
    var m := ObjCMethod(1, FOO, Some("A"));
    var call := MessageExpr("A.m", Some("A"), Some(m));
    assert OwnedPrefix(WORLD, Some("A")) == ["A"];
    VisitMessageMarksUsed(WORLD, map[], call, "A");
    var called := AfterStmt(WORLD, map[], call);
    var wiped := AfterDecl(WORLD, called, InterfaceDecl("A.h", "A"));
    assert wiped == called["A" := EMPTY_MODEL];
    assert FlagOf(wiped, "A", "foo").None?;
    assert !RequiredByProtocol(WORLD, "A", FOO);
    VisitMethodDecl(WORLD, wiped, "A.m", m);
    assert AfterDecl(WORLD, map[], InterfaceDecl("A.h", "A")) == map[];
  }

  /**
   * Whether a traversal resets an entry depends on the registry: a class's
   * first interface visit resets nothing, while the same visit after a
   * call that registered the class does.
   */
  lemma ResetDependsOnRegistry()
    ensures WORLD.WellFormed()
    ensures var m := ObjCMethod(1, FOO, Some("A"));
      var iface, decl, call := InterfaceDecl("A.h", "A"), MethodDecl("A.m", m), MessageExpr("A.m", Some("A"), Some(m));
      && DeclOk(WORLD, iface) && DeclOk(WORLD, decl) && StmtOk(WORLD, call)
      && NoReset(WORLD, map[], [DeclNode(iface), DeclNode(decl)])
      && !NoReset(WORLD, map[], [StmtNode(call), DeclNode(iface)])
  {
    WorldFacts();
    ShortPathIsUserSource("A.h");
    var m := ObjCMethod(1, FOO, Some("A"));
    var iface, decl, call := InterfaceDecl("A.h", "A"), MethodDecl("A.m", m), MessageExpr("A.m", Some("A"), Some(m));
    assert !RequiredByProtocol(WORLD, "A", FOO);
    assert AfterDecl(WORLD, map[], iface) == map[];
    assert OwnedPrefix(WORLD, Some("A")) == ["A"];
    VisitMessageMarksUsed(WORLD, map[], call, "A");
    assert "A" in AfterStmt(WORLD, map[], call);
    assert [StmtNode(call), DeclNode(iface)][1..] == [DeclNode(iface)];
  }

  /**
   * End to end on the registry object: two declarations of A's `qux` and no
   * call give exactly one warning, anchored at the later declaration.
   */
  method ReportAfterTwoDeclarations() returns (warnings: seq<Warning>)
    ensures warnings == [Warning("A", "qux", 6)]
  {
    WorldFacts();
    LastDeclarationWins();
    var registry := new UsageRegistry();
    registry.VisitDecl(WORLD, MethodDecl("A.m", ObjCMethod(5, QUX, Some("A"))));
    registry.VisitDecl(WORLD, MethodDecl("A2.m", ObjCMethod(6, QUX, Some("A"))));
    warnings := registry.DiagnosticationResult();
    var only := Warning("A", "qux", 6);
    assert IsUnusedEntry(registry.interfaces, "A", "qux");
    forall i | 0 <= i < |warnings|
      ensures warnings[i] == only
    {
      assert Reports(registry.interfaces, warnings[i]);
    }
    if |warnings| > 1 {
      OrderedHasNoDuplicates(warnings, 0, 1);
    }
  }
}
