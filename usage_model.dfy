/**
 * The usage registry as a value, and the effect of each visitor event on
 * it stated as functions. The loops of addMethod and addExpr are mirrored
 * by DeclWalk and CallWalk; Updated is an independent, set-based
 * description of the same effect, and the lemmas below connect the two and
 * derive what each walk may and may not change.
 */
module UsageModel {
  import opened Wrappers
  import opened StringOrder
  import opened SourceClassifier
  import opened ObjCModel

  /** One class's entry: selector -> last declaration seen, selector -> used flag. */
  datatype InterfaceModel = InterfaceModel(methodDecls: map<Selector, DeclId>, methodIsUsed: map<Selector, bool>)

  /** interfaceMap: class name -> its entry. */
  type Interfaces = map<ClassName, InterfaceModel>

  const EMPTY_MODEL: InterfaceModel := InterfaceModel(map[], map[])

  /** interfaceMap[name]: the entry, default-constructed when absent. */
  function ModelOf(reg: Interfaces, c: ClassName): InterfaceModel
  {
    if c in reg then reg[c] else EMPTY_MODEL
  }

  /** The stored declaration of (c, s), None when there is none. */
  function DeclOf(reg: Interfaces, c: ClassName, s: Selector): Option<DeclId>
  {
    var m := ModelOf(reg, c);
    if s in m.methodDecls then Some(m.methodDecls[s]) else None
  }

  /** The used flag of (c, s), None when the pair is not registered. */
  function FlagOf(reg: Interfaces, c: ClassName, s: Selector): Option<bool>
  {
    var m := ModelOf(reg, c);
    if s in m.methodIsUsed then Some(m.methodIsUsed[s]) else None
  }

  /** Both maps of every entry have the same selectors. */
  ghost predicate Consistent(reg: Interfaces)
  {
    forall c :: c in reg ==> reg[c].methodDecls.Keys == reg[c].methodIsUsed.Keys
  }

  /** Whether a walk step records a declaration or a call, with the declaration it stores. */
  datatype Sighting = Declared(decl: DeclId) | Called(decl: DeclId)

  /** One step of either walk on one class's entry. */
  function Record(m: InterfaceModel, sel: Selector, s: Sighting): InterfaceModel
  {
    var isExist := sel in m.methodIsUsed;
    match s
    case Declared(d) =>
      if !isExist then InterfaceModel(m.methodDecls[sel := d], m.methodIsUsed[sel := false])
      else InterfaceModel(m.methodDecls[sel := d], m.methodIsUsed)
    case Called(d) =>
      if !isExist then InterfaceModel(m.methodDecls[sel := d], m.methodIsUsed[sel := true])
      else InterfaceModel(m.methodDecls, m.methodIsUsed[sel := true])
  }

  /** Reference description: apply the step once to every class in targets, leave the rest. */
  ghost function Updated(reg: Interfaces, targets: set<ClassName>, sel: Selector, s: Sighting): Interfaces
  {
    map c | c in reg.Keys + targets :: if c in targets then Record(ModelOf(reg, c), sel, s) else reg[c]
  }

  /** The classes addMethod records into: every ancestor whose lookup succeeds. */
  ghost function DeclTargets(p: Program, cur: Option<ClassName>, sig: MethodSig): set<ClassName>
    requires p.WellFormed() && InProgram(p, cur)
  {
    set c | c in Ancestors(p, cur) && p.Lookup(c, sig)
  }

  /** The classes addExpr records into: every owned-prefix class whose lookup succeeds. */
  ghost function CallTargets(p: Program, cur: Option<ClassName>, sig: MethodSig): set<ClassName>
    requires p.WellFormed() && InProgram(p, cur)
  {
    set c | c in OwnedPrefix(p, cur) && p.Lookup(c, sig)
  }

  /** The addMethod loop from cursor cur: up to the root, no ownership test. */
  ghost function DeclWalk(p: Program, reg: Interfaces, cur: Option<ClassName>, m: ObjCMethod): Interfaces
    requires p.WellFormed() && InProgram(p, cur)
    decreases Rank(p, cur)
  {
    match cur
    case None => reg
    case Some(c) =>
      var next := if p.Lookup(c, m.sig) then reg[c := Record(ModelOf(reg, c), m.sig.selector, Declared(m.id))] else reg;
      DeclWalk(p, next, p.classes[c].superClass, m)
  }

  /** The addExpr loop from cursor cur: stops at the first class not in the user's own source. */
  ghost function CallWalk(p: Program, reg: Interfaces, cur: Option<ClassName>, callee: ObjCMethod): Interfaces
    requires p.WellFormed() && InProgram(p, cur)
    decreases Rank(p, cur)
  {
    match cur
    case None => reg
    case Some(c) =>
      if !p.Owned(c) then reg
      else
        var next := if p.Lookup(c, callee.sig) then reg[c := Record(ModelOf(reg, c), callee.sig.selector, Called(callee.id))] else reg;
        CallWalk(p, next, p.classes[c].superClass, callee)
  }

  // ---------------------------------------------------------------------------
  // Step-level facts

  lemma RecordIdempotent(m: InterfaceModel, sel: Selector, s: Sighting)
    ensures Record(Record(m, sel, s), sel, s) == Record(m, sel, s)
  {
  }

  /** A declaration step and a call step on one entry give the same entry in either order. */
  lemma RecordCommute(m: InterfaceModel, sel1: Selector, d1: DeclId, sel2: Selector, d2: DeclId)
    ensures Record(Record(m, sel1, Declared(d1)), sel2, Called(d2)) == Record(Record(m, sel2, Called(d2)), sel1, Declared(d1))
  {
  }

  lemma RecordConsistent(m: InterfaceModel, sel: Selector, s: Sighting)
    requires m.methodDecls.Keys == m.methodIsUsed.Keys
    ensures var r := Record(m, sel, s); r.methodDecls.Keys == r.methodIsUsed.Keys
  {
  }

  lemma UpdatedNothing(reg: Interfaces, sel: Selector, s: Sighting)
    ensures Updated(reg, {}, sel, s) == reg
  {
  }

  /** Stepping one class and then updating a target set equals one update of the union. */
  lemma UpdatedAbsorb(reg: Interfaces, c: ClassName, targets: set<ClassName>, sel: Selector, s: Sighting)
    ensures Updated(reg[c := Record(ModelOf(reg, c), sel, s)], targets, sel, s) == Updated(reg, targets + {c}, sel, s)
  {
    var stepped := reg[c := Record(ModelOf(reg, c), sel, s)];
    var lhs := Updated(stepped, targets, sel, s);
    var rhs := Updated(reg, targets + {c}, sel, s);
    assert lhs.Keys == rhs.Keys;
    forall k | k in lhs
      ensures lhs[k] == rhs[k]
    {
      if k == c {
        RecordIdempotent(ModelOf(reg, c), sel, s);
      }
    }
  }

  lemma UpdatedKeepsConsistent(reg: Interfaces, targets: set<ClassName>, sel: Selector, s: Sighting)
    requires Consistent(reg)
    ensures Consistent(Updated(reg, targets, sel, s))
  {
    var r := Updated(reg, targets, sel, s);
    forall c | c in r
      ensures r[c].methodDecls.Keys == r[c].methodIsUsed.Keys
    {
      if c in targets {
        RecordConsistent(ModelOf(reg, c), sel, s);
      }
    }
  }

  // ---------------------------------------------------------------------------
  // The walks agree with the reference description

  lemma {:induction false} DeclWalkIsUpdate(p: Program, reg: Interfaces, cur: Option<ClassName>, m: ObjCMethod)
    requires p.WellFormed() && InProgram(p, cur)
    ensures DeclWalk(p, reg, cur, m) == Updated(reg, DeclTargets(p, cur, m.sig), m.sig.selector, Declared(m.id))
    decreases Rank(p, cur)
  {
    var sel, s := m.sig.selector, Declared(m.id);
    match cur
    case None =>
      assert DeclTargets(p, cur, m.sig) == {};
      UpdatedNothing(reg, sel, s);
    case Some(c) =>
      var sup := p.classes[c].superClass;
      var rest := DeclTargets(p, sup, m.sig);
      assert Ancestors(p, cur) == [c] + Ancestors(p, sup);
      if p.Lookup(c, m.sig) {
        DeclWalkIsUpdate(p, reg[c := Record(ModelOf(reg, c), sel, s)], sup, m);
        assert DeclTargets(p, cur, m.sig) == rest + {c};
        UpdatedAbsorb(reg, c, rest, sel, s);
      } else {
        DeclWalkIsUpdate(p, reg, sup, m);
        assert DeclTargets(p, cur, m.sig) == rest;
      }
  }

  lemma {:induction false} CallWalkIsUpdate(p: Program, reg: Interfaces, cur: Option<ClassName>, callee: ObjCMethod)
    requires p.WellFormed() && InProgram(p, cur)
    ensures CallWalk(p, reg, cur, callee) == Updated(reg, CallTargets(p, cur, callee.sig), callee.sig.selector, Called(callee.id))
    decreases Rank(p, cur)
  {
    var sel, s := callee.sig.selector, Called(callee.id);
    match cur
    case None =>
      assert CallTargets(p, cur, callee.sig) == {};
      UpdatedNothing(reg, sel, s);
    case Some(c) =>
      if !p.Owned(c) {
        assert CallTargets(p, cur, callee.sig) == {};
        UpdatedNothing(reg, sel, s);
      } else {
        var sup := p.classes[c].superClass;
        var rest := CallTargets(p, sup, callee.sig);
        assert OwnedPrefix(p, cur) == [c] + OwnedPrefix(p, sup);
        if p.Lookup(c, callee.sig) {
          CallWalkIsUpdate(p, reg[c := Record(ModelOf(reg, c), sel, s)], sup, callee);
          assert CallTargets(p, cur, callee.sig) == rest + {c};
          UpdatedAbsorb(reg, c, rest, sel, s);
        } else {
          CallWalkIsUpdate(p, reg, sup, callee);
          assert CallTargets(p, cur, callee.sig) == rest;
        }
      }
  }

  // ---------------------------------------------------------------------------
  // What addMethod and addExpr change

  /**
   * addMethod on (c, s): where the walk records, the declaration is
   * overwritten (last write wins) and the flag kept, or false for a new
   * pair; every other pair keeps its declaration and flag.
   */
  lemma AddMethodEffect(p: Program, reg: Interfaces, cls: ClassName, m: ObjCMethod, c: ClassName, s: Selector)
    requires p.WellFormed() && cls in p.classes
    ensures var r := DeclWalk(p, reg, Some(cls), m);
      var hit := c in Ancestors(p, Some(cls)) && p.Lookup(c, m.sig) && s == m.sig.selector;
      && (hit ==> DeclOf(r, c, s) == Some(m.id))
      && (hit ==> FlagOf(r, c, s) == if FlagOf(reg, c, s).Some? then FlagOf(reg, c, s) else Some(false))
      && (!hit ==> DeclOf(r, c, s) == DeclOf(reg, c, s) && FlagOf(r, c, s) == FlagOf(reg, c, s))
  {
    DeclWalkIsUpdate(p, reg, Some(cls), m);
  }

  /**
   * addExpr on (c, s): every owned class of the chain, from the receiver up
   * to the first class that is not the user's own, whose lookup succeeds
   * gets flag true; the declaration of a pair already present survives,
   * a new pair stores the callee; every other pair is untouched.
   */
  lemma AddExprEffect(p: Program, reg: Interfaces, cls: ClassName, callee: ObjCMethod, c: ClassName, s: Selector)
    requires p.WellFormed() && cls in p.classes
    ensures var r := CallWalk(p, reg, Some(cls), callee);
      var hit := c in OwnedPrefix(p, Some(cls)) && p.Lookup(c, callee.sig) && s == callee.sig.selector;
      && (hit ==> FlagOf(r, c, s) == Some(true))
      && (hit ==> DeclOf(r, c, s) == if FlagOf(reg, c, s).Some? then DeclOf(reg, c, s) else Some(callee.id))
      && (!hit ==> DeclOf(r, c, s) == DeclOf(reg, c, s) && FlagOf(r, c, s) == FlagOf(reg, c, s))
  {
    CallWalkIsUpdate(p, reg, Some(cls), callee);
  }

  /** addMethod creates or changes only the entries of classes it records into. */
  lemma AddMethodFrame(p: Program, reg: Interfaces, cls: ClassName, m: ObjCMethod, c: ClassName)
    requires p.WellFormed() && cls in p.classes
    ensures var r := DeclWalk(p, reg, Some(cls), m);
      && (c in r <==> c in reg || c in DeclTargets(p, Some(cls), m.sig))
      && (c !in DeclTargets(p, Some(cls), m.sig) && c in reg ==> r[c] == reg[c])
  {
    DeclWalkIsUpdate(p, reg, Some(cls), m);
  }

  /** addExpr creates or changes only the entries of classes it records into. */
  lemma AddExprFrame(p: Program, reg: Interfaces, cls: ClassName, callee: ObjCMethod, c: ClassName)
    requires p.WellFormed() && cls in p.classes
    ensures var r := CallWalk(p, reg, Some(cls), callee);
      && (c in r <==> c in reg || c in CallTargets(p, Some(cls), callee.sig))
      && (c !in CallTargets(p, Some(cls), callee.sig) && c in reg ==> r[c] == reg[c])
  {
    CallWalkIsUpdate(p, reg, Some(cls), callee);
  }

  /** No registered pair disappears and no true flag becomes false. */
  ghost predicate FlagsOnlyRise(before: Interfaces, after: Interfaces)
  {
    forall c, s :: FlagOf(before, c, s).Some? ==>
      FlagOf(after, c, s).Some? && (FlagOf(before, c, s) == Some(true) ==> FlagOf(after, c, s) == Some(true))
  }

  lemma FlagsOnlyRiseTransitive(a: Interfaces, b: Interfaces, c: Interfaces)
    requires FlagsOnlyRise(a, b) && FlagsOnlyRise(b, c)
    ensures FlagsOnlyRise(a, c)
  {
  }

  lemma AddMethodMonotone(p: Program, reg: Interfaces, cls: ClassName, m: ObjCMethod)
    requires p.WellFormed() && cls in p.classes
    ensures FlagsOnlyRise(reg, DeclWalk(p, reg, Some(cls), m))
  {
    forall c, s {
      AddMethodEffect(p, reg, cls, m, c, s);
    }
  }

  lemma AddExprMonotone(p: Program, reg: Interfaces, cls: ClassName, callee: ObjCMethod)
    requires p.WellFormed() && cls in p.classes
    ensures FlagsOnlyRise(reg, CallWalk(p, reg, Some(cls), callee))
  {
    forall c, s {
      AddExprEffect(p, reg, cls, callee, c, s);
    }
  }

  /** Recording a declaration and recording a call commute: the visiting order does not matter. */
  lemma {:induction false} DeclarationAndCallCommute(p: Program, reg: Interfaces, cls1: ClassName, m: ObjCMethod, cls2: ClassName, callee: ObjCMethod)
    requires p.WellFormed() && cls1 in p.classes && cls2 in p.classes
    ensures CallWalk(p, DeclWalk(p, reg, Some(cls1), m), Some(cls2), callee)
         == DeclWalk(p, CallWalk(p, reg, Some(cls2), callee), Some(cls1), m)
  {
    var t1, sel1, d1 := DeclTargets(p, Some(cls1), m.sig), m.sig.selector, m.id;
    var t2, sel2, d2 := CallTargets(p, Some(cls2), callee.sig), callee.sig.selector, callee.id;
    var afterDecl := DeclWalk(p, reg, Some(cls1), m);
    var afterCall := CallWalk(p, reg, Some(cls2), callee);
    DeclWalkIsUpdate(p, reg, Some(cls1), m);
    CallWalkIsUpdate(p, reg, Some(cls2), callee);
    DeclWalkIsUpdate(p, afterCall, Some(cls1), m);
    CallWalkIsUpdate(p, afterDecl, Some(cls2), callee);
    var lhs := Updated(Updated(reg, t1, sel1, Declared(d1)), t2, sel2, Called(d2));
    var rhs := Updated(Updated(reg, t2, sel2, Called(d2)), t1, sel1, Declared(d1));
    assert lhs.Keys == rhs.Keys;
    forall k | k in lhs
      ensures lhs[k] == rhs[k]
    {
      if k in t1 && k in t2 {
        RecordCommute(ModelOf(reg, k), sel1, d1, sel2, d2);
      }
    }
  }

  // ---------------------------------------------------------------------------
  // Visiting declarations and statements

  /** The call site may be inside the walk: isSystemMethod needs a non-user ancestor, or it dereferences NULL. */
  ghost predicate DeclOk(p: Program, d: Decl)
    requires p.WellFormed()
  {
    (d.MethodDecl? && IsUserSourceUsefulFile(d.file) && d.decl.classInterface.Some?
      && p.Owned(d.decl.classInterface.value) && !RequiredByProtocol(p, d.decl.classInterface.value, d.decl.sig))
    ==> SystemAncestor(p, d.decl.classInterface).Some?
  }

  /** The filter of VisitStmt: a user-source message whose receiver interface is the user's own. */
  ghost predicate TrackedMessage(p: Program, st: Stmt)
  {
    st.MessageExpr? && IsUserSourceUsefulFile(st.file) && st.receiver.Some? && p.Owned(st.receiver.value)
  }

  /** addExpr dereferences getMethodDecl() whenever the filter of VisitStmt passes. */
  ghost predicate StmtOk(p: Program, st: Stmt)
  {
    TrackedMessage(p, st) ==> st.callee.Some?
  }

  /** The filter a method declaration passes before addMethod. */
  ghost predicate Tracked(p: Program, file: string, m: ObjCMethod)
    requires p.WellFormed() && DeclOk(p, MethodDecl(file, m))
  {
    && IsUserSourceUsefulFile(file)
    && m.classInterface.Some?
    && p.Owned(m.classInterface.value)
    && !RequiredByProtocol(p, m.classInterface.value, m.sig)
    && !OverridesSystem(p, m.classInterface.value, m.sig)
  }

  /** VisitDecl's effect on the registry. */
  ghost function AfterDecl(p: Program, reg: Interfaces, d: Decl): Interfaces
    requires p.WellFormed() && DeclOk(p, d)
  {
    match d
    case InterfaceDecl(file, name) =>
      if IsUserSourceUsefulFile(file) && name in reg then reg[name := EMPTY_MODEL] else reg
    case MethodDecl(file, m) =>
      if Tracked(p, file, m) then DeclWalk(p, reg, m.classInterface, m) else reg
    case OtherDecl(_) => reg
  }

  /** VisitStmt's effect on the registry. */
  ghost function AfterStmt(p: Program, reg: Interfaces, st: Stmt): Interfaces
    requires p.WellFormed() && StmtOk(p, st)
  {
    if TrackedMessage(p, st) then CallWalk(p, reg, st.receiver, st.callee.value) else reg
  }

  /** A visit of a user-source interface declaration, whatever the registry holds. */
  predicate IsUserInterfaceDecl(d: Decl)
  {
    d.InterfaceDecl? && IsUserSourceUsefulFile(d.file)
  }

  /** A visit that resets an entry: a user-source interface whose name is already registered. */
  predicate ResetsEntry(reg: Interfaces, d: Decl)
  {
    IsUserInterfaceDecl(d) && d.name in reg
  }

  /**
   * A method declaration changes the registry only when it passes the
   * filter; a tracked one registers its own class's pair whenever lookup
   * on that class succeeds, with flag false unless the pair was known.
   */
  lemma VisitMethodDecl(p: Program, reg: Interfaces, file: string, m: ObjCMethod)
    requires p.WellFormed() && DeclOk(p, MethodDecl(file, m))
    ensures !Tracked(p, file, m) ==> AfterDecl(p, reg, MethodDecl(file, m)) == reg
    ensures Tracked(p, file, m) && p.Lookup(m.classInterface.value, m.sig) ==>
      var r, c, s := AfterDecl(p, reg, MethodDecl(file, m)), m.classInterface.value, m.sig.selector;
      DeclOf(r, c, s) == Some(m.id) && FlagOf(r, c, s) == (if FlagOf(reg, c, s).Some? then FlagOf(reg, c, s) else Some(false))
  {
    if Tracked(p, file, m) {
      AddMethodEffect(p, reg, m.classInterface.value, m, m.classInterface.value, m.sig.selector);
    }
  }

  /**
   * A user-source interface declaration whose name is registered replaces
   * that entry with an empty one and leaves every other entry as it was;
   * any other interface visit leaves the registry unchanged.
   */
  lemma VisitInterfaceDecl(p: Program, reg: Interfaces, file: string, name: ClassName)
    requires p.WellFormed()
    ensures var r := AfterDecl(p, reg, InterfaceDecl(file, name));
      && ((IsUserSourceUsefulFile(file) && name in reg) ==>
            r.Keys == reg.Keys && r[name] == EMPTY_MODEL && forall c :: c in reg && c != name ==> r[c] == reg[c])
      && ((!IsUserSourceUsefulFile(file) || name !in reg) ==> r == reg)
  {
  }

  /** A message to a user-source receiver marks every owned ancestor whose lookup succeeds as used. */
  lemma VisitMessageMarksUsed(p: Program, reg: Interfaces, st: Stmt, c: ClassName)
    requires p.WellFormed() && StmtOk(p, st)
    requires TrackedMessage(p, st)
    requires c in OwnedPrefix(p, st.receiver) && p.Lookup(c, st.callee.value.sig)
    ensures FlagOf(AfterStmt(p, reg, st), c, st.callee.value.sig.selector) == Some(true)
  {
    AddExprEffect(p, reg, st.receiver.value, st.callee.value, c, st.callee.value.sig.selector);
  }

  /**
   * A statement failing the filter of VisitStmt changes nothing. One passing
   * it sets the flag of (c, s) true and keeps or stores its declaration where
   * the walk records, and leaves every other pair as it was.
   */
  lemma VisitMessageEffect(p: Program, reg: Interfaces, st: Stmt, c: ClassName, s: Selector)
    requires p.WellFormed() && StmtOk(p, st)
    ensures !TrackedMessage(p, st) ==> AfterStmt(p, reg, st) == reg
    ensures TrackedMessage(p, st) ==>
      var r, callee := AfterStmt(p, reg, st), st.callee.value;
      var hit := c in OwnedPrefix(p, st.receiver) && p.Lookup(c, callee.sig) && s == callee.sig.selector;
      && (hit ==> FlagOf(r, c, s) == Some(true))
      && (hit ==> DeclOf(r, c, s) == if FlagOf(reg, c, s).Some? then DeclOf(reg, c, s) else Some(callee.id))
      && (!hit ==> DeclOf(r, c, s) == DeclOf(reg, c, s) && FlagOf(r, c, s) == FlagOf(reg, c, s))
  {
    if TrackedMessage(p, st) {
      AddExprEffect(p, reg, st.receiver.value, st.callee.value, c, s);
    }
  }

  /** Every declaration visit that does not reset an entry only raises flags. */
  lemma VisitDeclMonotone(p: Program, reg: Interfaces, d: Decl)
    requires p.WellFormed() && DeclOk(p, d) && !ResetsEntry(reg, d)
    ensures FlagsOnlyRise(reg, AfterDecl(p, reg, d))
  {
    if d.MethodDecl? && Tracked(p, d.file, d.decl) {
      AddMethodMonotone(p, reg, d.decl.classInterface.value, d.decl);
    } else if d.InterfaceDecl? {
      VisitInterfaceDecl(p, reg, d.file, d.name);
    }
  }

  /** A reset of an entry holding any pair removes that pair: monotonicity breaks exactly there. */
  lemma ResetBreaksMonotonicity(p: Program, reg: Interfaces, d: Decl, s: Selector)
    requires p.WellFormed() && ResetsEntry(reg, d) && s in reg[d.name].methodIsUsed
    ensures !FlagsOnlyRise(reg, AfterDecl(p, reg, d))
  {
    VisitInterfaceDecl(p, reg, d.file, d.name);
    assert FlagOf(reg, d.name, s).Some?;
    assert FlagOf(AfterDecl(p, reg, d), d.name, s).None?;
  }

  lemma VisitStmtMonotone(p: Program, reg: Interfaces, st: Stmt)
    requires p.WellFormed() && StmtOk(p, st)
    ensures FlagsOnlyRise(reg, AfterStmt(p, reg, st))
  {
    if TrackedMessage(p, st) {
      AddExprMonotone(p, reg, st.receiver.value, st.callee.value);
    }
  }

  /**
   * A declaration other than a user-source interface and a statement may be
   * visited in either order. An interface is excluded even when its name is
   * not registered yet, since the statement may register it.
   */
  lemma VisitOrderIrrelevant(p: Program, reg: Interfaces, d: Decl, st: Stmt)
    requires p.WellFormed() && DeclOk(p, d) && StmtOk(p, st) && !IsUserInterfaceDecl(d)
    ensures AfterStmt(p, AfterDecl(p, reg, d), st) == AfterDecl(p, AfterStmt(p, reg, st), d)
  {
    if d.MethodDecl? && Tracked(p, d.file, d.decl)
      && TrackedMessage(p, st)
    {
      DeclarationAndCallCommute(p, reg, d.decl.classInterface.value, d.decl, st.receiver.value, st.callee.value);
    }
  }

  lemma AfterDeclConsistent(p: Program, reg: Interfaces, d: Decl)
    requires p.WellFormed() && DeclOk(p, d) && Consistent(reg)
    ensures Consistent(AfterDecl(p, reg, d))
  {
    if d.MethodDecl? && Tracked(p, d.file, d.decl) {
      DeclWalkIsUpdate(p, reg, d.decl.classInterface, d.decl);
      UpdatedKeepsConsistent(reg, DeclTargets(p, d.decl.classInterface, d.decl.sig), d.decl.sig.selector, Declared(d.decl.id));
    }
  }

  lemma AfterStmtConsistent(p: Program, reg: Interfaces, st: Stmt)
    requires p.WellFormed() && StmtOk(p, st) && Consistent(reg)
    ensures Consistent(AfterStmt(p, reg, st))
  {
    if TrackedMessage(p, st) {
      CallWalkIsUpdate(p, reg, st.receiver, st.callee.value);
      UpdatedKeepsConsistent(reg, CallTargets(p, st.receiver, st.callee.value.sig), st.callee.value.sig.selector, Called(st.callee.value.id));
    }
  }

  // ---------------------------------------------------------------------------
  // A traversal as a sequence of visits

  datatype Node = DeclNode(d: Decl) | StmtNode(st: Stmt)

  ghost predicate NodeOk(p: Program, n: Node)
    requires p.WellFormed()
  {
    match n
    case DeclNode(d) => DeclOk(p, d)
    case StmtNode(st) => StmtOk(p, st)
  }

  ghost function Visit(p: Program, reg: Interfaces, n: Node): Interfaces
    requires p.WellFormed() && NodeOk(p, n)
  {
    match n
    case DeclNode(d) => AfterDecl(p, reg, d)
    case StmtNode(st) => AfterStmt(p, reg, st)
  }

  ghost function Run(p: Program, reg: Interfaces, nodes: seq<Node>): Interfaces
    requires p.WellFormed() && forall i :: 0 <= i < |nodes| ==> NodeOk(p, nodes[i])
    decreases |nodes|
  {
    if nodes == [] then reg else Run(p, Visit(p, reg, nodes[0]), nodes[1..])
  }

  /** No visit of the traversal, started on reg, resets an entry registered at that point. */
  ghost predicate NoReset(p: Program, reg: Interfaces, nodes: seq<Node>)
    requires p.WellFormed() && forall i :: 0 <= i < |nodes| ==> NodeOk(p, nodes[i])
    decreases |nodes|
  {
    nodes == [] ||
    (!(nodes[0].DeclNode? && ResetsEntry(reg, nodes[0].d)) && NoReset(p, Visit(p, reg, nodes[0]), nodes[1..]))
  }

  /** Over any traversal in which no registered entry is reset, no pair disappears and no true flag falls. */
  lemma {:induction false} RunMonotone(p: Program, reg: Interfaces, nodes: seq<Node>)
    requires p.WellFormed() && forall i :: 0 <= i < |nodes| ==> NodeOk(p, nodes[i])
    requires NoReset(p, reg, nodes)
    ensures FlagsOnlyRise(reg, Run(p, reg, nodes))
    decreases |nodes|
  {
    if nodes != [] {
      var next := Visit(p, reg, nodes[0]);
      match nodes[0] {
        case DeclNode(d) => VisitDeclMonotone(p, reg, d);
        case StmtNode(st) => VisitStmtMonotone(p, reg, st);
      }
      RunMonotone(p, next, nodes[1..]);
      FlagsOnlyRiseTransitive(reg, next, Run(p, reg, nodes));
    }
  }

  // ---------------------------------------------------------------------------
  // The report

  /** A warning: the class, the selector, and the declaration it is anchored at. */
  datatype Warning = Warning(cls: ClassName, selector: Selector, decl: DeclId)

  /** A selector whose flag is false and whose stored declaration is not NULL. */
  predicate IsUnusedIn(m: InterfaceModel, s: Selector)
  {
    s in m.methodIsUsed && !m.methodIsUsed[s] && s in m.methodDecls
  }

  predicate IsUnusedEntry(reg: Interfaces, c: ClassName, s: Selector)
  {
    c in reg && IsUnusedIn(reg[c], s)
  }

  /** w is a warning the report may emit for reg. */
  predicate Reports(reg: Interfaces, w: Warning)
  {
    IsUnusedEntry(reg, w.cls, w.selector) && reg[w.cls].methodDecls[w.selector] == w.decl
  }

  /** std::map order on (class, selector). */
  predicate Before(a: Warning, b: Warning)
  {
    Less(a.cls, b.cls) || (a.cls == b.cls && Less(a.selector, b.selector))
  }

  predicate Ordered(ws: seq<Warning>)
  {
    forall i, j :: 0 <= i < j < |ws| ==> Before(ws[i], ws[j])
  }

  /** Under the registry invariant the NULL test of the report never skips an unused flag. */
  lemma UnusedFlagIsReported(reg: Interfaces, c: ClassName, s: Selector)
    requires Consistent(reg)
    requires FlagOf(reg, c, s) == Some(false)
    ensures IsUnusedEntry(reg, c, s)
  {
  }

  /** An ordered report names each (class, selector) at most once. */
  lemma {:induction false} OrderedHasNoDuplicates(ws: seq<Warning>, i: int, j: int)
    requires Ordered(ws) && 0 <= i < j < |ws|
    ensures (ws[i].cls, ws[i].selector) != (ws[j].cls, ws[j].selector)
  {
    assert Before(ws[i], ws[j]);
    LessIrreflexive(ws[i].cls);
    LessIrreflexive(ws[i].selector);
  }
}
