/**
 * The slice of the Objective-C semantic model the analyzer consults, as
 * plain data: each class's superclass, defining file and referenced
 * protocols, and the outcome of lookupMethod on classes and protocols.
 * Clang computes all of these; here they are inputs.
 */
module ObjCModel {
  import opened Wrappers
  import opened SourceClassifier

  type ClassName = string
  type ProtocolName = string
  type Selector = string
  /** An opaque identity for one ObjCMethodDecl node. */
  type DeclId = nat

  /** What lookupMethod is asked: a selector and whether it names an instance method. */
  datatype MethodSig = MethodSig(selector: Selector, isInstance: bool)

  /** An ObjCMethodDecl: its identity, signature and getClassInterface() (None for NULL). */
  datatype ObjCMethod = ObjCMethod(id: DeclId, sig: MethodSig, classInterface: Option<ClassName>)

  /**
   * An ObjCInterfaceDecl: getSuperClass() (None for NULL), the file it is
   * declared in, all_referenced_protocols(), and a rank that strictly
   * decreases towards the root, witnessing that the superclass chain ends.
   */
  datatype ClassInfo = ClassInfo(superClass: Option<ClassName>, file: string, protocols: seq<ProtocolName>, rank: nat)

  datatype Program = Program(
    classes: map<ClassName, ClassInfo>,
    /** the (class, signature) pairs for which ObjCInterfaceDecl::lookupMethod succeeds */
    classLookup: set<(ClassName, MethodSig)>,
    /** the (protocol, signature) pairs for which ObjCProtocolDecl::lookupMethod succeeds */
    protocolLookup: set<(ProtocolName, MethodSig)>)
  {
    /** Every superclass is a known class of smaller rank: the hierarchy is acyclic. */
    ghost predicate WellFormed()
    {
      forall c :: c in classes && classes[c].superClass.Some? ==>
        classes[c].superClass.value in classes && classes[classes[c].superClass.value].rank < classes[c].rank
    }

    /** isUserSourceDecl on a class: its declaration is in the user's own source. */
    predicate Owned(c: ClassName)
    {
      c in classes && IsUserSourceUsefulFile(classes[c].file)
    }

    predicate Lookup(c: ClassName, sig: MethodSig)
    {
      (c, sig) in classLookup
    }

    predicate ProtocolLookup(q: ProtocolName, sig: MethodSig)
    {
      (q, sig) in protocolLookup
    }
  }

  /** The declaration nodes the visitor distinguishes, each with the file it is in. */
  datatype Decl =
    | InterfaceDecl(file: string, name: ClassName)
    | MethodDecl(file: string, decl: ObjCMethod)
    | OtherDecl(file: string)

  /** The statement nodes: a message send with getReceiverInterface() and getMethodDecl(). */
  datatype Stmt =
    | MessageExpr(file: string, receiver: Option<ClassName>, callee: Option<ObjCMethod>)
    | OtherStmt(file: string)

  /** A cursor on the superclass chain is NULL or a known class. */
  predicate InProgram(p: Program, cur: Option<ClassName>)
  {
    cur.Some? ==> cur.value in p.classes
  }

  function Rank(p: Program, cur: Option<ClassName>): nat
  {
    match cur
    case None => 0
    case Some(c) => if c in p.classes then p.classes[c].rank + 1 else 0
  }

  /** The superclass chain from cur up to the root, cur included. */
  function Ancestors(p: Program, cur: Option<ClassName>): (chain: seq<ClassName>)
    requires p.WellFormed() && InProgram(p, cur)
    ensures cur.None? <==> chain == []
    ensures cur.Some? ==> chain[0] == cur.value
    ensures forall i :: 0 <= i < |chain| ==> chain[i] in p.classes
    ensures forall i :: 0 <= i < |chain| - 1 ==> p.classes[chain[i]].superClass == Some(chain[i + 1])
    ensures |chain| > 0 ==> p.classes[chain[|chain| - 1]].superClass.None?
    decreases Rank(p, cur)
  {
    match cur
    case None => []
    case Some(c) => [c] + Ancestors(p, p.classes[c].superClass)
  }

  /** The chain from cur up to, and not including, the first class that is not the user's own. */
  function OwnedPrefix(p: Program, cur: Option<ClassName>): (prefix: seq<ClassName>)
    requires p.WellFormed() && InProgram(p, cur)
    ensures forall i :: 0 <= i < |prefix| ==> p.Owned(prefix[i])
    decreases Rank(p, cur)
  {
    match cur
    case None => []
    case Some(c) => if p.Owned(c) then [c] + OwnedPrefix(p, p.classes[c].superClass) else []
  }

  /** The first ancestor (cur included) not in the user's own source; None when the chain runs out first. */
  function SystemAncestor(p: Program, cur: Option<ClassName>): (r: Option<ClassName>)
    requires p.WellFormed() && InProgram(p, cur)
    ensures r.Some? ==> r.value in p.classes && !p.Owned(r.value)
    decreases Rank(p, cur)
  {
    match cur
    case None => None
    case Some(c) => if !p.Owned(c) then Some(c) else SystemAncestor(p, p.classes[c].superClass)
  }

  /**
   * The chain splits into the owned prefix and the rest; the rest, when
   * non-empty, starts at the system ancestor.
   */
  lemma {:induction false} ChainSplit(p: Program, cur: Option<ClassName>)
    requires p.WellFormed() && InProgram(p, cur)
    ensures OwnedPrefix(p, cur) <= Ancestors(p, cur)
    ensures var pre, chain := OwnedPrefix(p, cur), Ancestors(p, cur);
      |pre| < |chain| ==> !p.Owned(chain[|pre|]) && SystemAncestor(p, cur) == Some(chain[|pre|])
    ensures |OwnedPrefix(p, cur)| == |Ancestors(p, cur)| ==> SystemAncestor(p, cur).None?
    decreases Rank(p, cur)
  {
    match cur
    case None =>
    case Some(c) =>
      if p.Owned(c) {
        var sup := p.classes[c].superClass;
        ChainSplit(p, sup);
        assert OwnedPrefix(p, cur) == [c] + OwnedPrefix(p, sup);
        assert Ancestors(p, cur) == [c] + Ancestors(p, sup);
      }
  }

  /** Some protocol the class refers to declares the signature. */
  ghost predicate RequiredByProtocol(p: Program, c: ClassName, sig: MethodSig)
    requires c in p.classes
  {
    exists q :: q in p.classes[c].protocols && p.ProtocolLookup(q, sig)
  }

  /** The first non-user ancestor declares the signature: the method overrides framework code. */
  ghost predicate OverridesSystem(p: Program, c: ClassName, sig: MethodSig)
    requires p.WellFormed() && c in p.classes && SystemAncestor(p, Some(c)).Some?
  {
    p.Lookup(SystemAncestor(p, Some(c)).value, sig)
  }
}
