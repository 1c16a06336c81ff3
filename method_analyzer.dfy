/**
 * The analyzer's executable part: the process-wide registry as an object
 * whose methods update it in place, the two read-only suppression loops,
 * and the report that walks the registry in std::map order.
 */
module MethodAnalyzer {
  import opened Wrappers
  import opened StringOrder
  import opened SourceClassifier
  import opened ObjCModel
  import opened UsageModel

  /** isProtocolMethod: does any protocol the class refers to declare the signature? */
  method IsProtocolMethod(p: Program, cls: ClassName, m: ObjCMethod) returns (r: bool)
    requires cls in p.classes
    ensures r <==> RequiredByProtocol(p, cls, m.sig)
  {
    var protocols := p.classes[cls].protocols;
    for i := 0 to |protocols|
      invariant forall j :: 0 <= j < i ==> !p.ProtocolLookup(protocols[j], m.sig)
    {
      if p.ProtocolLookup(protocols[i], m.sig) {
        return true;
      }
    }
    return false;
  }

  /**
   * isSystemMethod: skip the user's own classes up the chain and ask the
   * first other one. The source never tests for NULL on the way, so a chain
   * made only of user classes is excluded by the precondition.
   */
  method IsSystemMethod(p: Program, m: ObjCMethod) returns (r: bool)
    requires p.WellFormed() && m.classInterface.Some? && m.classInterface.value in p.classes
    requires SystemAncestor(p, m.classInterface).Some?
    ensures r <==> p.Lookup(SystemAncestor(p, m.classInterface).value, m.sig)
  {
    var decl := m.classInterface;
    while p.Owned(decl.value)
      invariant decl.Some? && decl.value in p.classes
      invariant SystemAncestor(p, decl) == SystemAncestor(p, m.classInterface)
      decreases Rank(p, decl)
    {
      decl := p.classes[decl.value].superClass;
    }
    r := p.Lookup(decl.value, m.sig);
  }

  /** The inner loop of DiagnosticationResult: one class's unused selectors, in key order. */
  method UnusedSelectors(c: ClassName, model: InterfaceModel) returns (ws: seq<Warning>)
    ensures forall i :: 0 <= i < |ws| ==>
      ws[i].cls == c && IsUnusedIn(model, ws[i].selector) && model.methodDecls[ws[i].selector] == ws[i].decl
    ensures forall s :: IsUnusedIn(model, s) ==> exists i :: 0 <= i < |ws| && ws[i].selector == s
    ensures forall i, j :: 0 <= i < j < |ws| ==> Less(ws[i].selector, ws[j].selector)
  {
    ws := [];
    var pending := model.methodIsUsed.Keys;
    while pending != {}
      invariant pending <= model.methodIsUsed.Keys
      invariant forall i :: 0 <= i < |ws| ==>
        ws[i].cls == c && IsUnusedIn(model, ws[i].selector) && model.methodDecls[ws[i].selector] == ws[i].decl
      invariant forall i, x :: 0 <= i < |ws| && x in pending ==> Less(ws[i].selector, x)
      invariant forall s :: s !in pending && IsUnusedIn(model, s) ==> exists i :: 0 <= i < |ws| && ws[i].selector == s
      invariant forall i, j :: 0 <= i < j < |ws| ==> Less(ws[i].selector, ws[j].selector)
      decreases pending
    {
      LeastExists(pending);
      var selector :| selector in pending && IsLeast(selector, pending);
      ghost var before := ws;
      var isUsed := model.methodIsUsed[selector];
      if !isUsed {
        // methodDeclMap[selector] yields NULL for a missing key
        var methodDecl := if selector in model.methodDecls then Some(model.methodDecls[selector]) else None;
        if methodDecl.Some? {
          ws := ws + [Warning(c, selector, methodDecl.value)];
        }
      }
      pending := pending - {selector};
      forall s | s !in pending && IsUnusedIn(model, s)
        ensures exists i :: 0 <= i < |ws| && ws[i].selector == s
      {
        if s == selector {
          assert ws[|ws| - 1].selector == s;
        } else {
          var i :| 0 <= i < |before| && before[i].selector == s;
          assert ws[i].selector == s;
        }
      }
    }
  }

  /** What the outer report loop keeps: warnings so far precede every class still pending. */
  ghost predicate ReportSoFar(reg: Interfaces, ws: seq<Warning>, pending: set<ClassName>)
  {
    && (forall i :: 0 <= i < |ws| ==> Reports(reg, ws[i]))
    && (forall i, x :: 0 <= i < |ws| && x in pending ==> Less(ws[i].cls, x))
    && (forall c, s :: c !in pending && IsUnusedEntry(reg, c, s) ==>
          exists i :: 0 <= i < |ws| && ws[i].cls == c && ws[i].selector == s)
    && Ordered(ws)
  }

  /** Appending the least pending class's unused selectors keeps the outer loop's invariant. */
  lemma ReportStep(reg: Interfaces, ws: seq<Warning>, found: seq<Warning>, c: ClassName, pending: set<ClassName>)
    requires ReportSoFar(reg, ws, pending) && c in reg && IsLeast(c, pending)
    requires forall i :: 0 <= i < |found| ==>
      found[i].cls == c && IsUnusedIn(reg[c], found[i].selector) && reg[c].methodDecls[found[i].selector] == found[i].decl
    requires forall s :: IsUnusedIn(reg[c], s) ==> exists i :: 0 <= i < |found| && found[i].selector == s
    requires forall i, j :: 0 <= i < j < |found| ==> Less(found[i].selector, found[j].selector)
    ensures ReportSoFar(reg, ws + found, pending - {c})
  {
    var all := ws + found;
    forall i, j | 0 <= i < j < |all|
      ensures Before(all[i], all[j])
    {
      if i < |ws| && j < |ws| {
        assert Before(ws[i], ws[j]);
      } else if i < |ws| {
        assert Less(ws[i].cls, c);
      }
    }
    forall c', s | c' !in pending - {c} && IsUnusedEntry(reg, c', s)
      ensures exists i :: 0 <= i < |all| && all[i].cls == c' && all[i].selector == s
    {
      if c' == c {
        var k :| 0 <= k < |found| && found[k].selector == s;
        assert all[|ws| + k].cls == c' && all[|ws| + k].selector == s;
      } else {
        var i :| 0 <= i < |ws| && ws[i].cls == c' && ws[i].selector == s;
        assert all[i] == ws[i];
      }
    }
  }

  /** interfaceMap together with the visitor methods that update it. */
  class UsageRegistry {
    var interfaces: Interfaces

    ghost predicate Valid()
      reads this
    {
      Consistent(interfaces)
    }

    constructor ()
      ensures Valid() && interfaces == map[]
    {
      interfaces := map[];
    }

    /**
     * addMethod: walk from the class to the root; where lookup succeeds,
     * store the declaration and insert flag false for a new selector.
     */
    method AddMethod(p: Program, cls: ClassName, m: ObjCMethod)
      requires Valid() && p.WellFormed() && cls in p.classes
      modifies this
      ensures Valid()
      ensures interfaces == DeclWalk(p, old(interfaces), Some(cls), m)
      ensures interfaces == Updated(old(interfaces), DeclTargets(p, Some(cls), m.sig), m.sig.selector, Declared(m.id))
    {
      var decl: Option<ClassName> := Some(cls);
      while decl.Some?
        invariant InProgram(p, decl)
        invariant DeclWalk(p, interfaces, decl, m) == DeclWalk(p, old(interfaces), Some(cls), m)
        decreases Rank(p, decl)
      {
        var c := decl.value;
        if p.Lookup(c, m.sig) {
          var selector := m.sig.selector;
          var model := ModelOf(interfaces, c);
          var isExist := selector in model.methodIsUsed;
          if !isExist {
            model := InterfaceModel(model.methodDecls[selector := m.id], model.methodIsUsed[selector := false]);
          } else {
            model := model.(methodDecls := model.methodDecls[selector := m.id]);
          }
          interfaces := interfaces[c := model];
        }
        decl := p.classes[c].superClass;
      }
      DeclWalkIsUpdate(p, old(interfaces), Some(cls), m);
      UpdatedKeepsConsistent(old(interfaces), DeclTargets(p, Some(cls), m.sig), m.sig.selector, Declared(m.id));
    }

    /**
     * addExpr: walk from the receiver while classes are the user's own;
     * where lookup succeeds, set the flag true, storing the callee for a
     * new selector.
     */
    method AddExpr(p: Program, cls: ClassName, callee: ObjCMethod)
      requires Valid() && p.WellFormed() && cls in p.classes
      modifies this
      ensures Valid()
      ensures interfaces == CallWalk(p, old(interfaces), Some(cls), callee)
      ensures interfaces == Updated(old(interfaces), CallTargets(p, Some(cls), callee.sig), callee.sig.selector, Called(callee.id))
    {
      var decl: Option<ClassName> := Some(cls);
      while decl.Some? && p.Owned(decl.value)
        invariant InProgram(p, decl)
        invariant CallWalk(p, interfaces, decl, callee) == CallWalk(p, old(interfaces), Some(cls), callee)
        decreases Rank(p, decl)
      {
        var c := decl.value;
        if p.Lookup(c, callee.sig) {
          var selector := callee.sig.selector;
          var model := ModelOf(interfaces, c);
          var isExist := selector in model.methodIsUsed;
          if !isExist {
            model := InterfaceModel(model.methodDecls[selector := callee.id], model.methodIsUsed[selector := true]);
          } else {
            model := model.(methodIsUsed := model.methodIsUsed[selector := true]);
          }
          interfaces := interfaces[c := model];
        }
        decl := p.classes[c].superClass;
      }
      CallWalkIsUpdate(p, old(interfaces), Some(cls), callee);
      UpdatedKeepsConsistent(old(interfaces), CallTargets(p, Some(cls), callee.sig), callee.sig.selector, Called(callee.id));
    }

    /**
     * VisitDecl: an interface declaration already in the registry resets its
     * entry; a method declaration is recorded unless its class is missing or
     * foreign, a protocol requires it, or it overrides a framework method.
     */
    method VisitDecl(p: Program, d: Decl)
      requires Valid() && p.WellFormed() && DeclOk(p, d)
      modifies this
      ensures Valid()
      ensures interfaces == AfterDecl(p, old(interfaces), d)
    {
      AfterDeclConsistent(p, interfaces, d);
      if IsUserSourceUsefulFile(d.file) {
        match d
        case InterfaceDecl(_, name) =>
          if name in interfaces {
            interfaces := interfaces[name := EMPTY_MODEL];
          }
        case MethodDecl(_, m) =>
          if m.classInterface.Some? && p.Owned(m.classInterface.value) {
            var isProtocol := IsProtocolMethod(p, m.classInterface.value, m);
            if !isProtocol {
              var isSystem := IsSystemMethod(p, m);
              if !isSystem {
                AddMethod(p, m.classInterface.value, m);
              }
            }
          }
        case OtherDecl(_) =>
      }
    }

    /** VisitStmt: a message in user source to a user-source receiver is recorded. */
    method VisitStmt(p: Program, st: Stmt)
      requires Valid() && p.WellFormed() && StmtOk(p, st)
      modifies this
      ensures Valid()
      ensures interfaces == AfterStmt(p, old(interfaces), st)
    {
      AfterStmtConsistent(p, interfaces, st);
      if IsUserSourceUsefulFile(st.file) {
        match st
        case MessageExpr(_, receiver, callee) =>
          if receiver.Some? && p.Owned(receiver.value) {
            AddExpr(p, receiver.value, callee.value);
          }
        case OtherStmt(_) =>
      }
    }

    /**
     * DiagnosticationResult: every (class, selector) whose flag is false and
     * whose stored declaration is not NULL, exactly once each, in std::map
     * order of class and then selector.
     */
    method DiagnosticationResult() returns (warnings: seq<Warning>)
      ensures forall i :: 0 <= i < |warnings| ==> Reports(interfaces, warnings[i])
      ensures forall c, s :: IsUnusedEntry(interfaces, c, s) ==>
        exists i :: 0 <= i < |warnings| && warnings[i].cls == c && warnings[i].selector == s
      ensures Ordered(warnings)
    {
      warnings := [];
      var pending := interfaces.Keys;
      while pending != {}
        invariant pending <= interfaces.Keys
        invariant ReportSoFar(interfaces, warnings, pending)
        decreases pending
      {
        LeastExists(pending);
        var c :| c in pending && IsLeast(c, pending);
        var found := UnusedSelectors(c, interfaces[c]);
        ReportStep(interfaces, warnings, found, c, pending);
        warnings := warnings + found;
        pending := pending - {c};
      }
    }
  }
}
