/**
  The code that a client stub runs to obtain, use and give back its binding handle.

  The compiler writes that code statement by statement.  Here the output is a list of statements
  of a small language, and an interpreter says what running them does; the theorems are about
  every run of what the compiler writes.
*/
module ClientBinding {

  // ----- what the compiler is given -----

  datatype PointeeKind = VoidK | PointerK | OtherK

  /** A parameter, as far as binding goes: its name, attributes, and what its type points to. */
  datatype Param = Param(name: nat, context: bool, isIn: bool, isOut: bool, pointee: PointeeKind)

  datatype HandleType = HandleT | PointerTo(target: HandleType) | OtherT(handleAttr: bool) | RepAsHandleT

  /** A type with the [handle] attribute, by value. */
  predicate Customized(t: HandleType) {
    t.OtherT? && t.handleAttr
  }

  /** `first` is the type of the first parameter, if there is one. */
  datatype Operation = Operation(params: seq<Param>, first: HandleType, hasInContext: bool)

  datatype ImplicitHandle = NoImplicit | ImplicitHandleT | ImplicitUser

  datatype Interface = Interface(implicit: ImplicitHandle, callout: bool)

  datatype HandleKind = ParmUser | ImplUser | ParmHandle | RepAs | Context | ImplHandle | Auto

  /** How the operation is bound.  An explicit handle comes first, then a
      context handle, then what the interface says. */
  function KindOf(op: Operation, iface: Interface): HandleKind {
    if op.params != [] && Customized(op.first) then ParmUser
    else if op.params != [] && op.first.PointerTo? && Customized(op.first.target) then ParmUser
    else if op.params != [] && op.first.RepAsHandleT? then RepAs
    else if op.params != [] && op.first.HandleT? then ParmHandle
    else if op.params != [] && op.first.PointerTo? && op.first.target.RepAsHandleT? then RepAs
    else if op.params != [] && op.first.PointerTo? && op.first.target.HandleT? then ParmHandle
    else if op.params != [] && op.hasInContext then Context
    else match iface.implicit
      case ImplicitHandleT => ImplHandle
      case ImplicitUser => ImplUser
      case NoImplicit => Auto
  }

  /** The type of the first parameter, or what it points to. */
  ghost predicate Leads(op: Operation, t: HandleType) {
    op.params != [] && (op.first == t || op.first == PointerTo(t))
  }

  /** The order of precedence: a first parameter of a [handle] type, of handle_t with [represent_as], or of plain
      handle_t, each by value or behind one pointer; then a context handle; then the interface's handle. */
  lemma KindRules(op: Operation, iface: Interface)
    ensures Leads(op, OtherT(true)) ==> KindOf(op, iface) == ParmUser
    ensures Leads(op, RepAsHandleT) ==> KindOf(op, iface) == RepAs
    ensures Leads(op, HandleT) ==> KindOf(op, iface) == ParmHandle
    ensures !Leads(op, OtherT(true)) && !Leads(op, RepAsHandleT) && !Leads(op, HandleT) ==>
      KindOf(op, iface) ==
        if op.params != [] && op.hasInContext then Context
        else if iface.implicit == ImplicitHandleT then ImplHandle
        else if iface.implicit == ImplicitUser then ImplUser
        else Auto
  {
  }

  // ----- the declarations at the head of the stub -----

  datatype Decl =
    | StatusVar      // error_status_t IDL_st2;
    | AssocVar       // volatile handle_t IDL_assoc_handle;
    | AssocPtrVar    // volatile handle_t *IDL_assoc_handle_p;
    | TimeoutVar     // idl_boolean IDL_timeout_was_set_low=idl_false;

  /** CSPELL_decl_assoc_handle_vars */
  function HandleVars(kind: HandleKind): set<Decl> {
    (if kind == ImplHandle || kind == Context || kind == Auto then {StatusVar} else {})
    + (if kind == RepAs then {AssocPtrVar} else {AssocVar})
  }

  /** The variables that the statements written for a kind of handle mention. */
  function UsedVars(kind: HandleKind): set<Decl> {
    match kind
    case ParmHandle => {}
    case RepAs => {AssocPtrVar}
    case ParmUser => {AssocVar}
    case ImplUser => {AssocVar}
    case Auto => {AssocVar, StatusVar, TimeoutVar}
    case _ => {AssocVar, StatusVar}
  }

  /** The handle information block.  One block serves all operations, one after another. */
  class HandleInfo {
    var kind: HandleKind
    var derefAssoc: bool
    var derefGeneric: bool
    var declared: set<Decl>

    constructor (kind: HandleKind) {
      this.kind, derefAssoc, derefGeneric, declared := kind, false, false, {};
    }

    /** CSPELL_decl_assoc_handle_vars: it goes by the kind stored so far. */
    method DeclareHandleVars()
      modifies this`declared
      ensures declared == old(declared) + HandleVars(kind)
    {
      declared := declared + HandleVars(kind);
    }

    /** BE_setup_client_handle */
    method SetupClientHandle(op: Operation, iface: Interface)
      modifies this
      ensures kind == KindOf(op, iface)
      ensures derefAssoc <==> kind == RepAs || (kind == ParmHandle && op.first.PointerTo?)
      ensures derefGeneric <==> kind == ParmUser && !Customized(op.first)
      // the variables that will be used are declared, unless the block last served [represent_as]
      ensures UsedVars(kind) <= declared <==> kind == ImplUser ==> old(kind) != RepAs
      // no others are, unless the block last served some other kind of handle
      ensures kind != ImplUser ==> declared == UsedVars(kind)
      ensures kind == ImplUser ==>
        && TimeoutVar !in declared
        && (AssocVar in declared <==> old(kind) != RepAs) && (AssocPtrVar in declared <==> old(kind) == RepAs)
        && (StatusVar in declared <==> old(kind) == ImplHandle || old(kind) == Context || old(kind) == Auto)
    {
      derefAssoc, derefGeneric, declared := false, false, {};
      if op.params != [] {
        var t := op.first;
        if Customized(t) || (t.PointerTo? && Customized(t.target)) {
          kind := ParmUser;
          DeclareHandleVars();
          derefGeneric := !Customized(t);
          return;
        }
        if t.RepAsHandleT? || (t.PointerTo? && t.target.RepAsHandleT?) {
          kind := RepAs;
          derefAssoc := true;
          DeclareHandleVars();
          return;
        }
        if t.HandleT? || (t.PointerTo? && t.target.HandleT?) {
          kind := ParmHandle;
          derefAssoc := t.PointerTo?;
          return;
        }
        if op.hasInContext {
          kind := Context;
          DeclareHandleVars();
          return;
        }
      }
      if iface.implicit != NoImplicit {
        if iface.implicit == ImplicitHandleT {
          kind := ImplHandle;
          DeclareHandleVars();
          return;
        }
        DeclareHandleVars();
        kind := ImplUser;
        return;
      }
      kind := Auto;
      DeclareHandleVars();
      declared := declared + {TimeoutVar};
    }
  }

  // ----- the language of the stub -----

  /** Where a binding handle is copied from. */
  datatype Source = Implicit | ContextOf(param: nat)

  datatype Stmt =
    | AssocNull                          // IDL_assoc_handle = NULL;
    | IfContext(p: Param, star: bool)    // if ( *p != NULL ) {
    | EndIf                              // }
    | HandleCopy(source: Source)         // rpc_binding_handle_copy(..., &IDL_assoc_handle, &status);
    | TestStatus                         // if (status != ok) goto IDL_closedown;
    | GotoMakeAssoc                      // goto IDL_make_assoc;
    | MakeAssoc                          // IDL_make_assoc:
    | RaiseIfNull                        // if(IDL_assoc_handle == NULL) { RAISE(rpc_x_ss_in_null_context); }
    | Bind                               // IDL_assoc_handle = type_bind(user_handle);
    | FromLocal                          // type_from_local(&rep, &IDL_assoc_handle_p);
    | Callout                            // the user's [binding_callout] routine
    | CallStart                          // rpc_call_start(handle, ...);
    | FreeAssoc                          // rpc_binding_free(&IDL_assoc_handle, ...);
    | FreeAssocIfNotNull                 // if(IDL_assoc_handle!=NULL) rpc_binding_free(...);
    | Unbind                             // type_unbind(user_handle, IDL_assoc_handle);
    | FreeInst                           // type_free_inst(IDL_assoc_handle_p);

  /** Values of IDL_assoc_handle.  It has none until it is assigned. */
  datatype Handle = Indeterminate | Null | Parameter | CopyOf(source: Source) | FromBind | FromRep

  datatype Event =
    | Copied(source: Source)
    | Bound | Converted
    | CalledOut(h: Handle)
    | Started(h: Handle)
    | Freed(h: Handle)
    | Unbound(h: Handle) | Released(h: Handle)

  datatype State = State(assoc: Handle, ok: bool, log: seq<Event>)

  /** How a called routine ends: normally, with a bad status, or with an exception. */
  datatype Fate = Succeeds | Fails | Raises

  /** What the run brings: which context handles are null, and how the routines fare.  The user's bind and
      conversion routines return no status: they succeed or raise. */
  datatype World = World(isNull: nat -> bool, copy: Fate, bindOk: bool, callout: Fate, start: Fate)

  datatype Outcome =
    | Running(st: State)       // fell through to the statements that follow
    | ClosedDown(st: State)    // goto IDL_closedown
    | Raised(st: State)        // rpc_x_ss_in_null_context, or what a routine raised
    | Wild(st: State)          // a handle was looked for one level of indirection off

  /** The level at which a context parameter holds its handle. */
  predicate NeedsStar(p: Param) {
    p.pointee == PointerK
  }

  function SkipBlock(code: seq<Stmt>): seq<Stmt>
    ensures |SkipBlock(code)| <= |code|
  {
    if code == [] then []
    else if code[0] == EndIf then code[1..]
    else SkipBlock(code[1..])
  }

  function SkipToMakeAssoc(code: seq<Stmt>): seq<Stmt>
    ensures |SkipToMakeAssoc(code)| <= |code|
  {
    if code == [] then []
    else if code[0] == MakeAssoc then code[1..]
    else SkipToMakeAssoc(code[1..])
  }

  function Log(st: State, e: Event): State {
    st.(log := st.log + [e])
  }

  /** Run the statements in order; both jumps go forward. */
  function Run(code: seq<Stmt>, st: State, w: World): Outcome
    decreases |code|
  {
    if code == [] then Running(st)
    else
      var rest := code[1..];
      match code[0]
      case AssocNull => Run(rest, st.(assoc := Null), w)
      case IfContext(p, star) =>
        if star != NeedsStar(p) then Wild(st)
        else if w.isNull(p.name) then Run(SkipBlock(rest), st, w)
        else Run(rest, st, w)
      case EndIf => Run(rest, st, w)
      case MakeAssoc => Run(rest, st, w)
      case HandleCopy(s) =>
        (match w.copy
         case Succeeds => Run(rest, Log(st.(assoc := CopyOf(s), ok := true), Copied(s)), w)
         case Fails => Run(rest, st.(ok := false), w)
         case Raises => Raised(st))
      case TestStatus => if st.ok then Run(rest, st, w) else ClosedDown(st)
      case GotoMakeAssoc => Run(SkipToMakeAssoc(rest), st, w)
      case RaiseIfNull => if st.assoc == Null then Raised(st) else Run(rest, st, w)
      case Bind => if w.bindOk then Run(rest, Log(st.(assoc := FromBind), Bound), w) else Raised(st)
      case FromLocal => if w.bindOk then Run(rest, Log(st.(assoc := FromRep), Converted), w) else Raised(st)
      case Callout =>
        var st' := Log(st.(ok := w.callout == Succeeds), CalledOut(st.assoc));
        if w.callout == Raises then Raised(st') else Run(rest, st', w)
      case CallStart =>
        var st' := Log(st.(ok := w.start == Succeeds), Started(st.assoc));
        if w.start == Raises then Raised(st') else Run(rest, st', w)
      case FreeAssoc => Run(rest, Log(st.(assoc := Null), Freed(st.assoc)), w)
      case FreeAssocIfNotNull =>
        if st.assoc == Null then Run(rest, st, w)
        else Run(rest, Log(st.(assoc := Null), Freed(st.assoc)), w)
      case Unbind => Run(rest, Log(st, Unbound(st.assoc)), w)
      case FreeInst => Run(rest, Log(st, Released(st.assoc)), w)
  }

  // ----- what the compiler writes -----

  predicate IsInOnly(p: Param) {
    p.context && p.isIn && !p.isOut
  }

  predicate IsInOut(p: Param) {
    p.context && p.isIn && p.isOut
  }

  function InBlock(p: Param): seq<Stmt> {
    [IfContext(p, p.pointee == PointerK), HandleCopy(ContextOf(p.name)), TestStatus, EndIf]
  }

  function InOutBlock(p: Param): seq<Stmt> {
    [IfContext(p, p.pointee != VoidK), HandleCopy(ContextOf(p.name)), TestStatus, GotoMakeAssoc, EndIf]
  }

  function InOutBlocks(params: seq<Param>): seq<Stmt> {
    if params == [] then []
    else (if IsInOut(params[0]) then InOutBlock(params[0]) else []) + InOutBlocks(params[1..])
  }

  /** The first [in]-only context handle. */
  function FirstInOnly(params: seq<Param>): (k: nat)
    ensures k <= |params| && (k < |params| ==> IsInOnly(params[k]))
    ensures forall j :: 0 <= j < k ==> !IsInOnly(params[j])
  {
    if params == [] || IsInOnly(params[0]) then 0 else 1 + FirstInOnly(params[1..])
  }

  function ContextCode(params: seq<Param>): seq<Stmt> {
    var k := FirstInOnly(params);
    [AssocNull] + (if k < |params| then InBlock(params[k]) else InOutBlocks(params) + [MakeAssoc]) + [RaiseIfNull]
  }

  function Prologue(kind: HandleKind, params: seq<Param>, callout: bool): seq<Stmt> {
    (match kind
     case ImplHandle => [HandleCopy(Implicit), TestStatus]
     case ParmUser => [Bind]
     case ImplUser => [Bind]
     case Context => ContextCode(params)
     case RepAs => [FromLocal]
     case _ => [])
    + (if callout then [Callout, TestStatus] else [])
    + [CallStart, TestStatus]
  }

  /** What follows the end of the call, in the handler that every run of the stub goes through. */
  function Epilogue(kind: HandleKind): seq<Stmt> {
    match kind
    case ImplHandle => [FreeAssoc]
    case Context => [FreeAssocIfNotNull]
    case Auto => [FreeAssocIfNotNull]
    case ParmUser => [Unbind]
    case ImplUser => [Unbind]
    case RepAs => [FreeInst]
    case ParmHandle => []
  }

  /** The stub being written. */
  class StubFile {
    var out: seq<Stmt>

    constructor ()
      ensures out == []
    {
      out := [];
    }

    /** The block that copies the handle of one context parameter if it is not null. */
    method SpellBlock(p: Param, star: bool, onwards: bool)
      modifies this
      ensures out == old(out)
        + [IfContext(p, star), HandleCopy(ContextOf(p.name)), TestStatus]
        + (if onwards then [GotoMakeAssoc] else []) + [EndIf]
    {
      out := out + [IfContext(p, star)];
      out := out + [HandleCopy(ContextOf(p.name)), TestStatus];
      if onwards {
        out := out + [GotoMakeAssoc];
      }
      out := out + [EndIf];
    }

    /** The search for an [in]-only context handle. */
    method SpellInOnly(params: seq<Param>) returns (found: bool)
      modifies this
      ensures found <==> FirstInOnly(params) < |params|
      ensures out == old(out) + if found then InBlock(params[FirstInOnly(params)]) else []
    {
      found := false;
      var i := 0;
      while i < |params| && !found
        invariant i <= |params|
        invariant !found ==> i <= FirstInOnly(params) && out == old(out)
        invariant found ==> FirstInOnly(params) < |params| && out == old(out) + InBlock(params[FirstInOnly(params)])
        decreases |params| - i, !found
      {
        var p := params[i];
        if p.context && p.isIn && !p.isOut {
          SpellBlock(p, p.pointee == PointerK, false);
          assert i == FirstInOnly(params);
          found := true;
        } else {
          i := i + 1;
        }
      }
    }

    /** The blocks of all [in,out] context handles. */
    method SpellInOut(params: seq<Param>)
      modifies this
      ensures out == old(out) + InOutBlocks(params)
    {
      assert params[..0] == [] && InOutBlocks([]) == [];
      hide InOutBlocks;
      for k := 0 to |params|
        invariant out == old(out) + InOutBlocks(params[..k])
      {
        var p := params[k];
        assert params[..k + 1] == params[..k] + [p];
        InOutBlocksAppend(params[..k], p);
        if p.context && p.isIn && p.isOut {
          SpellBlock(p, p.pointee != VoidK, true);
        }
      }
      assert params[..|params|] == params;
    }

    /** The context-handle branch of CSPELL_call_start */
    method SpellContext(params: seq<Param>)
      modifies this
      ensures out == old(out) + ContextCode(params)
    {
      hide InBlock, InOutBlocks;
      out := out + [AssocNull];
      var found := SpellInOnly(params);
      if !found {
        SpellInOut(params);
        out := out + [MakeAssoc];
      }
      out := out + [RaiseIfNull];
    }

    /** CSPELL_call_start, for every kind of handle but [auto_handle] */
    method SpellCallStart(kind: HandleKind, params: seq<Param>, callout: bool)
      requires kind != Auto
      modifies this
      ensures out == old(out) + Prologue(kind, params, callout)
    {
      match kind {
        case ImplHandle => out := out + [HandleCopy(Implicit), TestStatus];
        case ParmUser => out := out + [Bind];
        case ImplUser => out := out + [Bind];
        case Context => SpellContext(params);
        case RepAs => out := out + [FromLocal];
        case ParmHandle =>
      }
      if callout {
        out := out + [Callout, TestStatus];
      }
      out := out + [CallStart, TestStatus];
    }
  }

  lemma {:induction false} InOutBlocksAppend(ps: seq<Param>, p: Param)
    ensures InOutBlocks(ps + [p]) == InOutBlocks(ps) + (if IsInOut(p) then InOutBlock(p) else [])
  {
    if ps != [] {
      InOutBlocksAppend(ps[1..], p);
      assert (ps + [p])[1..] == ps[1..] + [p];
    } else {
      assert InOutBlocks([]) == [] && ([p])[1..] == [];
    }
  }

  // ----- every run of the stub -----

  /** Which context handle a run binds with, said without the code. */
  datatype Choice = NoHandle | Chosen(p: Param) | WrongLevel

  /** The first [in,out] handle that is not null.  A type that points to neither void nor a pointer is
      looked at one level too deep. */
  function ChooseInOut(params: seq<Param>, w: World): Choice {
    if params == [] then NoHandle
    else if !IsInOut(params[0]) then ChooseInOut(params[1..], w)
    else if params[0].pointee == OtherK then WrongLevel
    else if w.isNull(params[0].name) then ChooseInOut(params[1..], w)
    else Chosen(params[0])
  }

  /** An [in]-only context handle decides alone, null or not. */
  function Choose(params: seq<Param>, w: World): Choice {
    var k := FirstInOnly(params);
    if k == |params| then ChooseInOut(params, w)
    else if w.isNull(params[k].name) then NoHandle
    else Chosen(params[k])
  }

  /** A run of the prologue, and of the epilogue from wherever the prologue or the call left off. */
  function RunStub(kind: HandleKind, params: seq<Param>, callout: bool, w: World): (Outcome, seq<Event>) {
    var h := if kind == ParmHandle then Parameter else Indeterminate;
    var o := Run(Prologue(kind, params, callout), State(h, true, []), w);
    (o, Run(Epilogue(kind), o.st, w).st.log)
  }

  /** The events of a call on handle `h`, once the handle is there. */
  function CallEvents(h: Handle, callout: bool, w: World): seq<Event> {
    (if callout then [CalledOut(h)] else []) + (if callout && w.callout != Succeeds then [] else [Started(h)])
  }

  /** How the callout and the start of the call end together. */
  function CallFate(callout: bool, w: World): Fate {
    if callout && w.callout != Succeeds then w.callout else w.start
  }

  /** The outcome that goes with a routine's end. */
  predicate EndsAs(o: Outcome, fate: Fate) {
    match fate
    case Succeeds => o.Running?
    case Fails => o.ClosedDown?
    case Raises => o.Raised?
  }

  function CallCode(callout: bool): seq<Stmt> {
    (if callout then [Callout, TestStatus] else []) + [CallStart, TestStatus]
  }

  lemma CallRun(callout: bool, st: State, w: World)
    requires st.ok
    ensures var o := Run(CallCode(callout), st, w);
            && o.st.assoc == st.assoc && o.st.log == st.log + CallEvents(st.assoc, callout, w)
            && EndsAs(o, CallFate(callout, w))
  {
    var start: seq<Stmt> := [CallStart, TestStatus];
    if callout {
      var code := CallCode(true);
      var st1 := Log(st.(ok := w.callout == Succeeds), CalledOut(st.assoc));
      assert code[1..] == [TestStatus] + start;
      if w.callout != Raises {
        assert Run(code, st, w) == Run([TestStatus] + start, st1, w);
        assert ([TestStatus] + start)[1..] == start;
        if w.callout == Succeeds {
          assert Run([TestStatus] + start, st1, w) == Run(start, st1, w);
          StartRun(st1, w);
        }
      }
    } else {
      assert CallCode(false) == start;
      StartRun(st, w);
    }
  }

  lemma StartRun(st: State, w: World)
    ensures var o := Run([CallStart, TestStatus], st, w);
            && o.st.assoc == st.assoc && o.st.log == st.log + [Started(st.assoc)] && EndsAs(o, w.start)
  {
    assert [CallStart, TestStatus][1..] == [TestStatus];
    var st' := Log(st.(ok := w.start == Succeeds), Started(st.assoc));
    if w.start != Raises {
      assert Run([CallStart, TestStatus], st, w) == Run([TestStatus], st', w);
    }
  }

  /** Where a run ends if the copy does not succeed. */
  function CopyEnd(st: State, w: World): Outcome {
    if w.copy == Fails then ClosedDown(st.(ok := false)) else Raised(st)
  }

  lemma {:induction false} SkipPast(b: seq<Stmt>, rest: seq<Stmt>)
    requires MakeAssoc !in b
    ensures SkipToMakeAssoc(b + rest) == SkipToMakeAssoc(rest)
  {
    if b == [] {
      assert b + rest == rest;
    } else {
      SkipPast(b[1..], rest);
      assert (b + rest)[1..] == b[1..] + rest;
    }
  }

  lemma {:induction false} NoLabelInBlocks(params: seq<Param>)
    ensures MakeAssoc !in InOutBlocks(params)
  {
    if params != [] {
      NoLabelInBlocks(params[1..]);
    }
  }

  lemma SkipOverBlocks(params: seq<Param>, tail: seq<Stmt>)
    ensures SkipToMakeAssoc([EndIf] + InOutBlocks(params) + [MakeAssoc] + tail) == tail
  {
    var b := [EndIf] + InOutBlocks(params);
    NoLabelInBlocks(params);
    SkipPast(b, [MakeAssoc] + tail);
    assert b + ([MakeAssoc] + tail) == [EndIf] + InOutBlocks(params) + [MakeAssoc] + tail;
    assert ([MakeAssoc] + tail)[1..] == tail;
  }

  /** The copy, and what follows it. */
  lemma CopyRun(source: Source, rest: seq<Stmt>, st: State, w: World)
    ensures Run([HandleCopy(source), TestStatus] + rest, st, w) ==
              if w.copy != Succeeds then CopyEnd(st, w)
              else Run(rest, Log(st.(assoc := CopyOf(source), ok := true), Copied(source)), w)
  {
    var code, code' := [HandleCopy(source), TestStatus] + rest, [TestStatus] + rest;
    assert code[1..] == code' && code'[1..] == rest;
    if w.copy != Raises {
      var st' := if w.copy == Succeeds then Log(st.(assoc := CopyOf(source), ok := true), Copied(source)) else st.(ok := false);
      assert Run(code, st, w) == Run(code', st', w);
    }
  }

  lemma {:induction false} SkipToEnd(b: seq<Stmt>, rest: seq<Stmt>)
    requires EndIf !in b
    ensures SkipBlock(b + [EndIf] + rest) == rest
  {
    var code := b + [EndIf] + rest;
    if b == [] {
      assert code[1..] == rest;
    } else {
      SkipToEnd(b[1..], rest);
      assert code[1..] == b[1..] + [EndIf] + rest;
    }
  }

  /** The block of one context handle. */
  lemma BlockRun(p: Param, star: bool, last: seq<Stmt>, rest: seq<Stmt>, code: seq<Stmt>, st: State, w: World)
    requires last == [] || last == [GotoMakeAssoc]
    requires code == [IfContext(p, star), HandleCopy(ContextOf(p.name)), TestStatus] + last + [EndIf] + rest
    ensures Run(code, st, w) ==
              if star != NeedsStar(p) then Wild(st)
              else if w.isNull(p.name) then Run(rest, st, w)
              else if w.copy != Succeeds then CopyEnd(st, w)
              else
                var st' := Log(st.(assoc := CopyOf(ContextOf(p.name)), ok := true), Copied(ContextOf(p.name)));
                if last == [] then Run(rest, st', w) else Run(SkipToMakeAssoc([EndIf] + rest), st', w)
  {
    hide Run, SkipBlock, SkipToMakeAssoc;
    var s := ContextOf(p.name);
    var after := last + [EndIf] + rest;
    var copy := [HandleCopy(s), TestStatus] + last;
    assert code == [IfContext(p, star)] + (copy + [EndIf] + rest);
    assert copy + [EndIf] + rest == [HandleCopy(s), TestStatus] + after;
    IfContextRun(p, star, copy + [EndIf] + rest, st, w);
    SkipToEnd(copy, rest);
    CopyRun(s, after, st, w);
    var st' := Log(st.(assoc := CopyOf(s), ok := true), Copied(s));
    if last == [] {
      assert after == [EndIf] + rest;
      EndIfRun(rest, st', w);
    } else {
      assert after == [GotoMakeAssoc] + ([EndIf] + rest);
      GotoRun([EndIf] + rest, st', w);
    }
  }

  lemma IfContextRun(p: Param, star: bool, more: seq<Stmt>, st: State, w: World)
    ensures Run([IfContext(p, star)] + more, st, w) ==
              if star != NeedsStar(p) then Wild(st)
              else if w.isNull(p.name) then Run(SkipBlock(more), st, w)
              else Run(more, st, w)
  {
    assert ([IfContext(p, star)] + more)[1..] == more;
  }

  lemma EndIfRun(rest: seq<Stmt>, st: State, w: World)
    ensures Run([EndIf] + rest, st, w) == Run(rest, st, w)
  {
    assert ([EndIf] + rest)[1..] == rest;
  }

  lemma GotoRun(rest: seq<Stmt>, st: State, w: World)
    ensures Run([GotoMakeAssoc] + rest, st, w) == Run(SkipToMakeAssoc(rest), st, w)
  {
    assert ([GotoMakeAssoc] + rest)[1..] == rest;
  }

  lemma {:induction false} InOutRun(params: seq<Param>, tail: seq<Stmt>, st: State, w: World)
    ensures Run(InOutBlocks(params) + [MakeAssoc] + tail, st, w) ==
              match ChooseInOut(params, w)
              case NoHandle => Run(tail, st, w)
              case WrongLevel => Wild(st)
              case Chosen(p) =>
                if w.copy != Succeeds then CopyEnd(st, w)
                else Run(tail, Log(st.(assoc := CopyOf(ContextOf(p.name)), ok := true), Copied(ContextOf(p.name))), w)
  {
    var code := InOutBlocks(params) + [MakeAssoc] + tail;
    if params == [] {
      assert code == [MakeAssoc] + tail && ([MakeAssoc] + tail)[1..] == tail;
    } else {
      hide Run, SkipToMakeAssoc, CopyEnd;
      var p := params[0];
      var rest := InOutBlocks(params[1..]) + [MakeAssoc] + tail;
      InOutRun(params[1..], tail, st, w);
      if IsInOut(p) {
        InOutHead(params, tail);
        BlockRun(p, p.pointee != VoidK, [GotoMakeAssoc], rest, code, st, w);
        SkipOverBlocks(params[1..], tail);
        assert [EndIf] + rest == [EndIf] + InOutBlocks(params[1..]) + [MakeAssoc] + tail;
      } else {
        assert code == rest;
      }
    }
  }

  lemma {:induction false} InOutHead(params: seq<Param>, tail: seq<Stmt>)
    requires params != [] && IsInOut(params[0])
    ensures var p := params[0];
            InOutBlocks(params) + [MakeAssoc] + tail ==
              [IfContext(p, p.pointee != VoidK), HandleCopy(ContextOf(p.name)), TestStatus]
              + [GotoMakeAssoc] + [EndIf] + (InOutBlocks(params[1..]) + [MakeAssoc] + tail)
  {
    var more := InOutBlocks(params[1..]);
    assert InOutBlocks(params) == InOutBlock(params[0]) + more;
  }

  /** Every run of the code for a context handle, by the handle that is chosen. */
  lemma ChosenRun(params: seq<Param>, callout: bool, w: World)
    ensures var (o, log) := RunStub(Context, params, callout, w);
            match Choose(params, w)
            case WrongLevel => o.Wild?
            case NoHandle => o.Raised? && log == []
            case Chosen(p) =>
              var c := CopyOf(ContextOf(p.name));
              if w.copy != Succeeds then EndsAs(o, w.copy) && log == []
              else
                && EndsAs(o, CallFate(callout, w))
                && log == [Copied(ContextOf(p.name))] + CallEvents(c, callout, w) + [Freed(c)]
  {
    hide Run, ContextCode, CallEvents;
    ContextStart(params, callout, w);
    var st := State(Null, true, []);
    var o := RunStub(Context, params, callout, w).0;
    match Choose(params, w) {
      case WrongLevel =>
      case NoHandle => ContextTail(callout, st, w);
      case Chosen(p) =>
        var s := ContextOf(p.name);
        if w.copy == Succeeds {
          ContextTail(callout, Log(st.(assoc := CopyOf(s), ok := true), Copied(s)), w);
        }
    }
    FreeIfNotNull(o.st, w);
  }

  function ContextRest(callout: bool): seq<Stmt> {
    [RaiseIfNull] + CallCode(callout)
  }

  /** Finding the handle, up to the test that there is one. */
  lemma ContextStart(params: seq<Param>, callout: bool, w: World)
    ensures var st := State(Null, true, []);
            Run(Prologue(Context, params, callout), State(Indeterminate, true, []), w) ==
              match Choose(params, w)
              case WrongLevel => Wild(st)
              case NoHandle => Run(ContextRest(callout), st, w)
              case Chosen(p) =>
                if w.copy != Succeeds then CopyEnd(st, w)
                else Run(ContextRest(callout),
                         Log(st.(assoc := CopyOf(ContextOf(p.name)), ok := true), Copied(ContextOf(p.name))), w)
  {
    hide CallCode;
    var st0, st := State(Indeterminate, true, []), State(Null, true, []);
    var k := FirstInOnly(params);
    var tail := ContextRest(callout);
    var body := if k < |params| then InBlock(params[k]) else InOutBlocks(params) + [MakeAssoc];
    var code := Prologue(Context, params, callout);
    assert code == [AssocNull] + (body + tail) by {
      PrologueParts(params, callout);
    }
    assert code[1..] == body + tail;
    assert Run(code, st0, w) == Run(body + tail, st, w);
    hide Run;
    if k < |params| {
      var p := params[k];
      assert body + tail == [IfContext(p, p.pointee == PointerK), HandleCopy(ContextOf(p.name)), TestStatus]
                            + [] + [EndIf] + tail;
      BlockRun(p, p.pointee == PointerK, [], tail, body + tail, st, w);
    } else {
      assert body + tail == InOutBlocks(params) + [MakeAssoc] + tail;
      InOutRun(params, tail, st, w);
    }
  }

  lemma PrologueParts(params: seq<Param>, callout: bool)
    ensures Prologue(Context, params, callout) == ContextCode(params) + CallCode(callout)
  {
    hide ContextCode;
  }

  /** From the test on. */
  lemma ContextTail(callout: bool, st: State, w: World)
    requires st.ok
    ensures var o := Run(ContextRest(callout), st, w);
            if st.assoc == Null then o == Raised(st)
            else
              && o.st.assoc == st.assoc && o.st.log == st.log + CallEvents(st.assoc, callout, w)
              && EndsAs(o, CallFate(callout, w))
  {
    hide CallEvents, CallCode;
    assert ContextRest(callout)[1..] == CallCode(callout);
    CallRun(callout, st, w);
  }

  lemma FreeIfNotNull(st: State, w: World)
    ensures Run(Epilogue(Context), st, w).st.log == if st.assoc == Null then st.log else st.log + [Freed(st.assoc)]
  {
    assert [FreeAssocIfNotNull][1..] == [];
  }

  /** `run` copies the handle of the context parameter `name`, once, makes the call on the copy, and frees it. */
  ghost predicate CallsOn(run: (Outcome, seq<Event>), name: nat, callout: bool, w: World) {
    if w.copy != Succeeds then EndsAs(run.0, w.copy) && run.1 == []
    else Calls(run, [Copied(ContextOf(name))], CopyOf(ContextOf(name)), [Freed(CopyOf(ContextOf(name)))], callout, w)
  }

  /** Some parameter is a context handle that is [in] and not [out]. */
  ghost predicate HasInOnly(params: seq<Param>) {
    exists k :: 0 <= k < |params| && params[k].context && params[k].isIn && !params[k].isOut
  }

  /**
    Every run of the code for a context handle.  The first handle that is [in] and not [out] decides alone:
    the call is made on a copy of it, or, if it is null, the exception is raised.  If there is none, the call
    is made on a copy of the first [in,out] handle that is not null; if all of those are null, the exception
    is raised and nothing is held.  Handles that are not [in] play no part.
  */
  lemma ContextRun(params: seq<Param>, callout: bool, w: World, i: nat)
    ensures i < |params| && params[i].context && params[i].isIn && !params[i].isOut
            && (forall j :: 0 <= j < i && params[j].context && params[j].isIn ==> params[j].isOut) ==>
              var run := RunStub(Context, params, callout, w);
              if w.isNull(params[i].name) then run.0.Raised? && run.1 == []
              else CallsOn(run, params[i].name, callout, w)
    ensures !HasInOnly(params)
            && i < |params| && params[i].context && params[i].isIn && params[i].isOut
            && !w.isNull(params[i].name) && params[i].pointee != OtherK
            && (forall j :: 0 <= j < i && params[j].context && params[j].isIn && params[j].isOut ==>
                  w.isNull(params[j].name) && params[j].pointee != OtherK) ==>
              CallsOn(RunStub(Context, params, callout, w), params[i].name, callout, w)
    ensures !HasInOnly(params)
            && (forall j :: 0 <= j < |params| && params[j].context && params[j].isIn && params[j].isOut ==>
                  w.isNull(params[j].name) && params[j].pointee != OtherK) ==>
              RunStub(Context, params, callout, w).0.Raised? && RunStub(Context, params, callout, w).1 == []
  {
    hide RunStub;
    ChosenRun(params, callout, w);
    ChosenInOut(params, w, i);
    assert HasInOnly(params) <==> FirstInOnly(params) < |params|;
  }

  /** Which [in,out] handle is chosen, said of its place. */
  lemma {:induction false} ChosenInOut(params: seq<Param>, w: World, i: nat)
    ensures i < |params| && params[i].context && params[i].isIn && params[i].isOut
            && !w.isNull(params[i].name) && params[i].pointee != OtherK
            && (forall j :: 0 <= j < i && params[j].context && params[j].isIn && params[j].isOut ==>
                  w.isNull(params[j].name) && params[j].pointee != OtherK) ==>
              ChooseInOut(params, w) == Chosen(params[i])
    ensures (forall j :: 0 <= j < |params| && params[j].context && params[j].isIn && params[j].isOut ==>
              w.isNull(params[j].name) && params[j].pointee != OtherK) ==>
              ChooseInOut(params, w) == NoHandle
  {
    if params != [] {
      assert forall j :: 0 <= j < |params| - 1 ==> params[1..][j] == params[j + 1];
      ChosenInOut(params[1..], w, if i > 0 then i - 1 else |params|);
    }
  }

  /** Every run with the interface's implicit handle. */
  lemma ImplicitEvents(params: seq<Param>, callout: bool, w: World)
    ensures var (o, log) := RunStub(ImplHandle, params, callout, w);
            if w.copy != Succeeds then EndsAs(o, w.copy) && log == [Freed(Indeterminate)]
            else
              && EndsAs(o, CallFate(callout, w))
              && log == [Copied(Implicit)] + CallEvents(CopyOf(Implicit), callout, w) + [Freed(CopyOf(Implicit))]
  {
    hide CallEvents, ContextCode;
    var st := State(Indeterminate, true, []);
    var code := Prologue(ImplHandle, params, callout);
    var call := CallCode(callout);
    assert [FreeAssoc][1..] == [];
    assert code == [HandleCopy(Implicit), TestStatus] + call;
    CopyRun(Implicit, call, st, w);
    if w.copy == Succeeds {
      CallRun(callout, Log(st.(assoc := CopyOf(Implicit), ok := true), Copied(Implicit)), w);
    }
  }

  /** What the user's routines are asked to do before and after a call on a handle of theirs. */
  function Acquire(kind: HandleKind): seq<Event> {
    match kind
    case ParmUser => [Bound]
    case ImplUser => [Bound]
    case RepAs => [Converted]
    case _ => []
  }

  function GiveBack(kind: HandleKind, h: Handle): seq<Event> {
    match kind
    case ParmUser => [Unbound(h)]
    case ImplUser => [Unbound(h)]
    case RepAs => [Released(h)]
    case _ => []
  }

  function UserHandle(kind: HandleKind): Handle {
    match kind
    case ParmHandle => Parameter
    case RepAs => FromRep
    case _ => FromBind
  }

  /** A routine of the user's is to bind or convert, and it raises. */
  predicate BindRaises(kind: HandleKind, w: World) {
    (kind == ParmUser || kind == ImplUser || kind == RepAs) && !w.bindOk
  }

  /** Every run with a handle of the user's own. */
  lemma UserEvents(kind: HandleKind, params: seq<Param>, callout: bool, w: World)
    requires kind != Context && kind != Auto && kind != ImplHandle
    ensures var (o, log) := RunStub(kind, params, callout, w);
            if BindRaises(kind, w) then o.Raised? && log == GiveBack(kind, Indeterminate)
            else
              && EndsAs(o, CallFate(callout, w))
              && log == Acquire(kind) + CallEvents(UserHandle(kind), callout, w) + GiveBack(kind, UserHandle(kind))
  {
    hide CallEvents, ContextCode;
    var code := Prologue(kind, params, callout);
    var call := CallCode(callout);
    var st := State(UserHandle(kind), true, Acquire(kind));
    var st0 := State(if kind == ParmHandle then Parameter else Indeterminate, true, []);
    var o := Run(code, st0, w);
    if kind == ParmHandle {
      assert code == call;
    } else {
      assert code == [if kind == RepAs then FromLocal else Bind] + call && code[1..] == call;
      assert [] + Acquire(kind) == Acquire(kind);
    }
    GiveBackRun(kind, o.st, w);
    if BindRaises(kind, w) {
      assert o == Raised(st0);
      assert st0.log + GiveBack(kind, Indeterminate) == GiveBack(kind, Indeterminate);
    } else {
      assert o == Run(call, st, w);
      CallRun(callout, st, w);
    }
  }

  lemma GiveBackRun(kind: HandleKind, st: State, w: World)
    requires kind != Context && kind != Auto && kind != ImplHandle
    ensures Run(Epilogue(kind), st, w).st.log == st.log + GiveBack(kind, st.assoc)
  {
    assert [Unbind][1..] == [] && [FreeInst][1..] == [];
  }

  /** A run that makes the call on `h`, with these events before it and those after it. */
  ghost predicate Calls(run: (Outcome, seq<Event>), before: seq<Event>, h: Handle, after: seq<Event>, callout: bool, w: World) {
    && EndsAs(run.0, if callout && w.callout != Succeeds then w.callout else w.start)
    && run.1 == before + (if callout then [CalledOut(h)] else [])
                + (if callout && w.callout != Succeeds then [] else [Started(h)]) + after
  }

  /** Every run with the interface's implicit handle.  It is freed even when copying it failed and
      there is nothing to free. */
  lemma ImplicitRun(params: seq<Param>, callout: bool, w: World)
    ensures var run := RunStub(ImplHandle, params, callout, w);
            if w.copy != Succeeds then EndsAs(run.0, w.copy) && run.1 == [Freed(Indeterminate)]
            else Calls(run, [Copied(Implicit)], CopyOf(Implicit), [Freed(CopyOf(Implicit))], callout, w)
  {
    hide RunStub;
    ImplicitEvents(params, callout, w);
  }

  /** Every run with a handle of the user's own: what is bound or converted is unbound or released however the
      call ends.  If the bind or conversion routine raises, a handle that was never assigned is given back. */
  lemma UserRun(params: seq<Param>, callout: bool, w: World)
    ensures Calls(RunStub(ParmHandle, params, callout, w), [], Parameter, [], callout, w)
    ensures forall kind :: kind == ParmUser || kind == ImplUser ==>
              var run := RunStub(kind, params, callout, w);
              if !w.bindOk then run.0.Raised? && run.1 == [Unbound(Indeterminate)]
              else Calls(run, [Bound], FromBind, [Unbound(FromBind)], callout, w)
    ensures var run := RunStub(RepAs, params, callout, w);
            if !w.bindOk then run.0.Raised? && run.1 == [Released(Indeterminate)]
            else Calls(run, [Converted], FromRep, [Released(FromRep)], callout, w)
  {
    hide RunStub;
    forall kind | kind != Context && kind != Auto && kind != ImplHandle
      ensures var run := RunStub(kind, params, callout, w);
              if BindRaises(kind, w) then run.0.Raised? && run.1 == GiveBack(kind, Indeterminate)
              else Calls(run, Acquire(kind), UserHandle(kind), GiveBack(kind, UserHandle(kind)), callout, w)
    {
      UserEvents(kind, params, callout, w);
    }
  }

  /** `give` gives back what `acquire` acquired. */
  predicate Pairs(acquire: Event, give: Event) {
    match acquire
    case Copied(s) => give == Freed(CopyOf(s))
    case Bound => give == Unbound(FromBind)
    case Converted => give == Released(FromRep)
    case _ => false
  }

  /** What is given back is what was acquired, and as often. */
  ghost predicate Balanced(log: seq<Event>) {
    && (forall a, g :: Pairs(a, g) ==> multiset(log)[a] == multiset(log)[g])
    && (forall e :: e in log && (e.Freed? || e.Unbound? || e.Released?) ==> exists a :: Pairs(a, e))
  }

  /** Nothing is acquired or given back. */
  ghost predicate Quiet(log: seq<Event>) {
    forall e :: e in log ==> e.CalledOut? || e.Started?
  }

  lemma QuietBalanced(log: seq<Event>)
    requires Quiet(log)
    ensures Balanced(log)
  {
    forall a, g | Pairs(a, g)
      ensures multiset(log)[a] == multiset(log)[g]
    {
      assert a !in log && g !in log;
    }
  }

  lemma AcquireAndGive(acquire: Event, log: seq<Event>, give: Event)
    requires Quiet(log) && Pairs(acquire, give)
    ensures Balanced([acquire] + log + [give])
  {
    var all := [acquire] + log + [give];
    assert multiset(all) == multiset{acquire} + multiset(log) + multiset{give};
    forall a, g | Pairs(a, g)
      ensures multiset(all)[a] == multiset(all)[g]
    {
      assert a !in log && g !in log;
    }
    forall e | e in all && (e.Freed? || e.Unbound? || e.Released?)
      ensures exists a :: Pairs(a, e)
    {
      assert e == give;
    }
  }

  lemma CallQuiet(h: Handle, callout: bool, w: World)
    ensures Quiet(CallEvents(h, callout, w))
  {
  }

  /** The stub gives back exactly what it acquires, handle by handle, except in two cases. */
  lemma StubBalanced(kind: HandleKind, params: seq<Param>, callout: bool, w: World)
    requires kind != Auto && (kind == Context ==> Choose(params, w) != WrongLevel)
    ensures Balanced(RunStub(kind, params, callout, w).1) <==>
              !(kind == ImplHandle && w.copy != Succeeds) && !BindRaises(kind, w)
  {
    hide Balanced, RunStub;
    match kind {
      case Context => ContextBalanced(params, callout, w);
      case ImplHandle => ImplicitBalanced(params, callout, w);
      case _ => UserBalanced(kind, params, callout, w);
    }
  }

  lemma ContextBalanced(params: seq<Param>, callout: bool, w: World)
    requires Choose(params, w) != WrongLevel
    ensures Balanced(RunStub(Context, params, callout, w).1)
  {
    hide Balanced, RunStub, CallEvents, Choose;
    ChosenRun(params, callout, w);
    var c := Choose(params, w);
    if c.Chosen? && w.copy == Succeeds {
      var s := ContextOf(c.p.name);
      CallQuiet(CopyOf(s), callout, w);
      AcquireAndGive(Copied(s), CallEvents(CopyOf(s), callout, w), Freed(CopyOf(s)));
    } else {
      QuietBalanced([]);
    }
  }

  lemma ImplicitBalanced(params: seq<Param>, callout: bool, w: World)
    ensures Balanced(RunStub(ImplHandle, params, callout, w).1) <==> w.copy == Succeeds
  {
    hide Balanced, RunStub, CallEvents;
    ImplicitEvents(params, callout, w);
    if w.copy == Succeeds {
      CallQuiet(CopyOf(Implicit), callout, w);
      AcquireAndGive(Copied(Implicit), CallEvents(CopyOf(Implicit), callout, w), Freed(CopyOf(Implicit)));
    } else {
      Unbalanced(Freed(Indeterminate));
    }
  }

  lemma UserBalanced(kind: HandleKind, params: seq<Param>, callout: bool, w: World)
    requires kind != Context && kind != Auto && kind != ImplHandle
    ensures Balanced(RunStub(kind, params, callout, w).1) <==> !BindRaises(kind, w)
  {
    hide Balanced, RunStub, CallEvents;
    UserEvents(kind, params, callout, w);
    var h := UserHandle(kind);
    var call := CallEvents(h, callout, w);
    CallQuiet(h, callout, w);
    if kind == ParmHandle {
      assert [] + call + [] == call;
      QuietBalanced(call);
    } else if w.bindOk {
      AcquireAndGive(Acquire(kind)[0], call, GiveBack(kind, h)[0]);
    } else {
      Unbalanced(GiveBack(kind, Indeterminate)[0]);
    }
  }

  /** Giving back a handle that was never assigned. */
  lemma Unbalanced(e: Event)
    requires (e.Freed? || e.Unbound? || e.Released?) && e.h == Indeterminate
    ensures !Balanced([e])
  {
    assert e in [e];
    assert forall a :: !Pairs(a, e);
  }

  // ----- when a context handle is looked for at the wrong level -----

  /** A run goes wild exactly if the choice comes to a handle that is looked at one level too deep. */
  lemma WildRun(params: seq<Param>, callout: bool, w: World)
    ensures RunStub(Context, params, callout, w).0.Wild? <==> Choose(params, w) == WrongLevel
  {
    hide RunStub;
    ChosenRun(params, callout, w);
  }

  /** It can happen exactly if no handle is [in] alone and some [in,out] parameter points to neither void nor a
      pointer.  Such a parameter is itself the handle, of an opaque structure. */
  lemma MisreadPossible(params: seq<Param>, callout: bool)
    ensures (exists w: World :: RunStub(Context, params, callout, w).0.Wild?) <==>
              && !HasInOnly(params)
              && exists i :: 0 <= i < |params| && params[i].context && params[i].isIn && params[i].isOut
                             && params[i].pointee == OtherK
  {
    hide RunStub;
    assert HasInOnly(params) <==> FirstInOnly(params) < |params|;
    var allNull := World(_ => true, Succeeds, true, Succeeds, Succeeds);
    forall w: World
      ensures RunStub(Context, params, callout, w).0.Wild? <==> Choose(params, w) == WrongLevel
    {
      WildRun(params, callout, w);
    }
    forall w: World
      ensures ChooseInOut(params, w) == WrongLevel ==>
        exists i :: 0 <= i < |params| && IsInOut(params[i]) && params[i].pointee == OtherK
    {
      MisreadNeeds(params, w);
    }
    if exists i :: 0 <= i < |params| && IsInOut(params[i]) && params[i].pointee == OtherK {
      MisreadIfNull(params, allNull);
    }
    if FirstInOnly(params) == |params| && ChooseInOut(params, allNull) == WrongLevel {
      assert RunStub(Context, params, callout, allNull).0.Wild?;
    }
  }

  lemma {:induction false} MisreadNeeds(params: seq<Param>, w: World)
    ensures ChooseInOut(params, w) == WrongLevel ==>
      exists i :: 0 <= i < |params| && IsInOut(params[i]) && params[i].pointee == OtherK
  {
    if params != [] {
      MisreadNeeds(params[1..], w);
      assert forall i :: 0 <= i < |params[1..]| ==> params[1..][i] == params[i + 1];
    }
  }

  lemma {:induction false} MisreadIfNull(params: seq<Param>, w: World)
    requires forall n :: w.isNull(n)
    requires exists i :: 0 <= i < |params| && IsInOut(params[i]) && params[i].pointee == OtherK
    ensures ChooseInOut(params, w) == WrongLevel
  {
    var i :| 0 <= i < |params| && IsInOut(params[i]) && params[i].pointee == OtherK;
    if i > 0 {
      assert params[1..][i - 1] == params[i];
      MisreadIfNull(params[1..], w);
    }
  }

  /** `[in,out] struct foo *h`, where foo is the tag of an opaque context handle: every run goes wild. */
  lemma OpaqueHandleMisread(h: nat, callout: bool, w: World)
    ensures RunStub(Context, [Param(h, true, true, true, OtherK)], callout, w).0.Wild?
  {
    var params := [Param(h, true, true, true, OtherK)];
    assert FirstInOnly(params) == 1;
    WildRun(params, callout, w);
  }
}
