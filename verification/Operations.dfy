/**
  The synthesized attributes of an operation (has_ins, has_outs, has_in_pipes, has_out_pipes),
  computed when its declaration is complete, and the check of [maybe] that relies on them.
*/
module Operations {

  datatype Type =
    | HandleType(user: bool)   // handle_t; `user` when it carries [handle]
    | PipeType
    | VoidType
    | InterfaceType
    | PointerType(named: bool, pointee: Type)
    | OtherType

  datatype Attr = In | Out | Ref | Unique | Ptr

  class Parameter {
    const ty: Type
    const sized: bool   // by array attributes
    var attrs: set<Attr>
    var uplink: Operation?

    constructor (ty: Type, sized: bool, attrs: set<Attr>)
      ensures this.ty == ty && this.sized == sized && this.attrs == attrs && uplink == null
    {
      this.ty, this.sized, this.attrs, uplink := ty, sized, attrs, null;
    }
  }

  /** What the synthesis and the checks read of a parameter. */
  datatype Formal = Formal(ty: Type, sized: bool, attrs: set<Attr>)

  function Formals(ps: seq<Parameter>): (fs: seq<Formal>)
    reads ps
    ensures |fs| == |ps|
    ensures forall i :: 0 <= i < |ps| ==> fs[i] == Formal(ps[i].ty, ps[i].sized, ps[i].attrs)
  {
    seq(|ps|, i requires 0 <= i < |ps| reads ps => Formal(ps[i].ty, ps[i].sized, ps[i].attrs))
  }

  /** The data a parameter carries: an anonymous pointer only says how it is passed. */
  function Carried(ty: Type): Type {
    if ty.PointerType? && !ty.named then ty.pointee else ty
  }

  predicate Data(f: Formal, dir: Attr) {
    dir in f.attrs && !Carried(f.ty).PipeType?
  }

  predicate Pipe(f: Formal, dir: Attr) {
    dir in f.attrs && Carried(f.ty).PipeType?
  }

  ghost predicate SomeData(fs: seq<Formal>, dir: Attr) {
    exists i :: 0 <= i < |fs| && Data(fs[i], dir)
  }

  ghost predicate SomePipe(fs: seq<Formal>, dir: Attr) {
    exists i :: 0 <= i < |fs| && Pipe(fs[i], dir)
  }

  function Count(fs: seq<Formal>, dir: Attr): nat {
    if fs == [] then 0 else Count(fs[..|fs| - 1], dir) + (if Data(fs[|fs| - 1], dir) then 1 else 0)
  }

  /** A primitive handle, or a pointer to one. */
  predicate IsHandle(ty: Type) {
    || (ty.HandleType? && !ty.user)
    || (ty.PointerType? && ty.pointee.HandleType? && !ty.pointee.user)
  }

  predicate LeadingHandle(fs: seq<Formal>) {
    |fs| > 0 && IsHandle(fs[0].ty)
  }

  /** Some input must be marshalled: it is not a pipe and not the leading handle. */
  ghost predicate HasInput(fs: seq<Formal>) {
    exists i :: 0 <= i < |fs| && Data(fs[i], In) && !(i == 0 && LeadingHandle(fs))
  }

  /** Some output of any kind: parameter, pipe or result. */
  ghost predicate HasOutput(fs: seq<Formal>, result: Type) {
    !result.VoidType? || exists f :: f in fs && Out in f.attrs
  }

  /** The one family in which the synthesis is wrong: a leading handle that is no input, and one input. */
  predicate HandleNotIn(fs: seq<Formal>) {
    LeadingHandle(fs) && In !in fs[0].attrs && Count(fs, In) == 1
  }

  /** The code's condition for has_ins. */
  predicate SetsIns(fs: seq<Formal>) {
    Count(fs, In) > 0 && !(Count(fs, In) == 1 && LeadingHandle(fs))
  }

  /** A pipe is a pipe by itself or behind an anonymous pointer, and nowhere else. */
  predicate IsPipe(ty: Type) {
    ty == PipeType || ty == PointerType(false, PipeType)
  }

  /** Plain handle_t, by itself or behind a pointer. */
  predicate IsPlainHandle(ty: Type) {
    ty == HandleType(false) || ty == PointerType(true, HandleType(false)) || ty == PointerType(false, HandleType(false))
  }

  /** What counts as input, as output and as a pipe. */
  lemma DirectionRules(fs: seq<Formal>, dir: Attr)
    ensures SomePipe(fs, dir) <==> exists i :: 0 <= i < |fs| && dir in fs[i].attrs && IsPipe(fs[i].ty)
    ensures SomeData(fs, dir) <==> exists i :: 0 <= i < |fs| && dir in fs[i].attrs && !IsPipe(fs[i].ty)
    ensures HasInput(fs) <==>
      exists i :: 0 <= i < |fs| && In in fs[i].attrs && !IsPipe(fs[i].ty) && !(i == 0 && IsPlainHandle(fs[0].ty))
    ensures HandleNotIn(fs) <==>
      && |fs| > 0 && IsPlainHandle(fs[0].ty) && In !in fs[0].attrs
      && exists i :: 0 <= i < |fs| && In in fs[i].attrs && !IsPipe(fs[i].ty)
                     && forall j :: 0 <= j < |fs| && In in fs[j].attrs && !IsPipe(fs[j].ty) ==> j == i
  {
    assert forall f: Formal, d: Attr :: Pipe(f, d) <==> d in f.attrs && IsPipe(f.ty);
    assert forall f: Formal, d: Attr :: Data(f, d) <==> d in f.attrs && !IsPipe(f.ty);
    assert forall f: Formal :: IsHandle(f.ty) <==> IsPlainHandle(f.ty);
    hide Data, Pipe, IsPipe, IsPlainHandle;
    CountsOne(fs, In);
    assert forall i :: Only(fs, In, i) <==>
      && 0 <= i < |fs| && In in fs[i].attrs && !IsPipe(fs[i].ty)
      && forall j :: 0 <= j < |fs| && In in fs[j].attrs && !IsPipe(fs[j].ty) ==> j == i;
  }

  ghost predicate Only(fs: seq<Formal>, dir: Attr, i: int) {
    0 <= i < |fs| && Data(fs[i], dir) && forall j :: 0 <= j < |fs| && Data(fs[j], dir) ==> j == i
  }

  /** The count is one exactly if there is just one place. */
  lemma {:induction false} CountsOne(fs: seq<Formal>, dir: Attr)
    ensures Count(fs, dir) == 0 <==> forall i :: 0 <= i < |fs| ==> !Data(fs[i], dir)
    ensures Count(fs, dir) == 1 <==> exists i :: Only(fs, dir, i)
  {
    hide Data;
    if fs != [] {
      var n := |fs| - 1;
      var init := fs[..n];
      CountsOne(init, dir);
      assert forall i :: 0 <= i < n ==> init[i] == fs[i];
      if i :| Only(init, dir, i) && !Data(fs[n], dir) {
        assert Only(fs, dir, i);
      }
      if i :| Only(fs, dir, i) {
        assert i < n ==> Only(init, dir, i);
      }
      if Count(init, dir) == 0 && Data(fs[n], dir) {
        assert Only(fs, dir, n);
      }
    }
  }

  /** Which uses of handles the checks refuse. */
  lemma HandleRules(fs: seq<Formal>, f: Formal)
    ensures BadDirection(fs) <==>
      && |fs| > 0 && (In !in fs[0].attrs || Out in fs[0].attrs)
      && (fs[0].ty.HandleType? || (!fs[0].sized && fs[0].ty.PointerType? && !fs[0].ty.named && fs[0].ty.pointee.HandleType?))
    ensures ArrayOfHandles(f) <==> f.sized && exists named, user :: f.ty == PointerType(named, HandleType(user))
    ensures NamedHandlePointer(f) <==> exists user :: f.ty == PointerType(true, HandleType(user))
  {
  }

  /** A count says whether there is one, and whether there is one besides a given place. */
  lemma {:induction false} Counted(fs: seq<Formal>, dir: Attr)
    ensures Count(fs, dir) > 0 <==> SomeData(fs, dir)
    ensures |fs| > 0 && Data(fs[0], dir) ==>
      (Count(fs, dir) > 1 <==> exists i :: 1 <= i < |fs| && Data(fs[i], dir))
  {
    if |fs| > 0 {
      var init := fs[..|fs| - 1];
      Counted(init, dir);
      assert forall i :: 0 <= i < |init| ==> init[i] == fs[i];
      if Data(fs[|fs| - 1], dir) {
      } else if |init| > 0 && Count(init, dir) > 0 {
        var i :| 0 <= i < |init| && Data(init[i], dir);
        assert Data(fs[i], dir);
      }
      if |fs| == 1 {
        assert init == [];
      }
    }
  }

  /**
    has_ins means what it should on every parameter list except one family: a handle_t that
    leads without being [in], beside exactly one [in] parameter.
  */
  lemma InsExact(fs: seq<Formal>)
    ensures (SetsIns(fs) <==> HasInput(fs)) <==> !HandleNotIn(fs)
  {
    Counted(fs, In);
    if LeadingHandle(fs) {
      assert !Carried(fs[0].ty).PipeType?;
      if Count(fs, In) > 0 {
        var i :| 0 <= i < |fs| && Data(fs[i], In);
        if !Data(fs[0], In) {
          assert i != 0;
        }
      }
    }
  }

  /** The family is not empty: the synthesis misses the input of `f([out] handle_t *h, [in] long x)`. */
  lemma InputLost(fs: seq<Formal>)
    requires fs == [Formal(PointerType(false, HandleType(false)), false, {Out}), Formal(OtherType, false, {In})]
    ensures HasInput(fs) && !SetsIns(fs)
  {
    assert Data(fs[1], In);
    assert fs[..1] + [fs[1]] == fs;
    assert fs[..1][..0] == [];
    assert Count(fs[..1], In) == 0;
    assert Count(fs, In) == 1;
  }

  // What the checker refuses

  datatype Error =
    | MaybeOutput       // a [maybe] operation with an output
    | HandleDirection   // a binding parameter that is not an input, or also an output
    | HandleArray       // an array of handles
    | HandlePointer     // a named pointer to a handle

  /** The type behind a pointer that only says how the parameter is passed. */
  function Followed(f: Formal): Type {
    if f.ty.PointerType? && !f.ty.pointee.VoidType? && !f.ty.named && !f.sized then f.ty.pointee else f.ty
  }

  predicate BadDirection(fs: seq<Formal>) {
    |fs| > 0 && Followed(fs[0]).HandleType? && (In !in fs[0].attrs || Out in fs[0].attrs)
  }

  predicate ArrayOfHandles(f: Formal) {
    f.ty.PointerType? && f.sized && f.ty.pointee.HandleType?
  }

  predicate NamedHandlePointer(f: Formal) {
    f.ty.PointerType? && f.ty.named && f.ty.pointee.HandleType?
  }

  ghost predicate SomeArrayOfHandles(fs: seq<Formal>) {
    exists i :: 0 <= i < |fs| && ArrayOfHandles(fs[i])
  }

  ghost predicate SomeNamedPointer(fs: seq<Formal>) {
    exists i :: 0 <= i < |fs| && NamedHandlePointer(fs[i])
  }

  /** The checks refuse the whole family in which has_ins would be wrong. */
  lemma FamilyRefused(fs: seq<Formal>)
    requires HandleNotIn(fs)
    ensures BadDirection(fs) || SomeArrayOfHandles(fs) || SomeNamedPointer(fs)
  {
    assert BadDirection(fs) || ArrayOfHandles(fs[0]) || NamedHandlePointer(fs[0]);
  }

  // Operation flags.  A flag word is the set of its bits; [local], an interface flag that also
  // reaches operations, has the same bit as has_ins.

  const MAYBE := 0x2
  const LOCAL := 0x20
  const HAS_INS := 0x20
  const HAS_IN_PIPES := 0x40
  const HAS_OUTS := 0x80
  const HAS_OUT_PIPES := 0x100

  function If(b: bool, flag: int): set<int> {
    if b then {flag} else {}
  }

  ghost function PipeFlags(fs: seq<Formal>): set<int> {
    If(SomePipe(fs, In), HAS_IN_PIPES) + If(SomePipe(fs, Out), HAS_OUT_PIPES)
  }

  ghost function DataFlags(fs: seq<Formal>, result: Type): set<int> {
    If(HasInput(fs) && !HandleNotIn(fs), HAS_INS) + If(SomeData(fs, Out) || !result.VoidType?, HAS_OUTS)
  }

  /** Which of the four flags the synthesis sets, said of the parameters and the result. */
  lemma FlagRules(fs: seq<Formal>, result: Type)
    ensures var flags := PipeFlags(fs) + DataFlags(fs, result);
            && flags <= {HAS_INS, HAS_OUTS, HAS_IN_PIPES, HAS_OUT_PIPES}
            && (HAS_IN_PIPES in flags <==> exists i :: 0 <= i < |fs| && In in fs[i].attrs && IsPipe(fs[i].ty))
            && (HAS_OUT_PIPES in flags <==> exists i :: 0 <= i < |fs| && Out in fs[i].attrs && IsPipe(fs[i].ty))
            && (HAS_OUTS in flags <==>
                  !result.VoidType? || exists i :: 0 <= i < |fs| && Out in fs[i].attrs && !IsPipe(fs[i].ty))
            && (HAS_INS in flags <==> HasInput(fs) && !HandleNotIn(fs))
  {
    hide IsPipe, HasInput, HandleNotIn, SomeData, SomePipe;
    DirectionRules(fs, In);
    DirectionRules(fs, Out);
  }

  /** The counters decide what the flags should be. */
  lemma CountedFlags(fs: seq<Formal>, result: Type)
    ensures Count(fs, In) > 0 ==> |fs| > 0
    ensures DataFlags(fs, result) == If(SetsIns(fs), HAS_INS) + If(Count(fs, Out) > 0 || !result.VoidType?, HAS_OUTS)
  {
    Counted(fs, Out);
    InsExact(fs);
    if HandleNotIn(fs) {
      assert !SetsIns(fs);
    }
  }

  class Operation {
    var flags: set<int>
    const parameters: seq<Parameter>
    const result: Parameter

    ghost predicate Valid() {
      result !in parameters
    }

    constructor (parameters: seq<Parameter>, result: Parameter, flags: set<int>)
      ensures this.parameters == parameters && this.result == result && this.flags == flags
    {
      this.parameters, this.result, this.flags := parameters, result, flags;
    }

    /** One parameter's share: `ins` and `outs` count data, pipes set their own flags. */
    method Synthesize(p: Parameter, ins: nat, outs: nat) returns (ins': nat, outs': nat)
      modifies `flags
      ensures ins' == ins + if Data(Formal(p.ty, p.sized, p.attrs), In) then 1 else 0
      ensures outs' == outs + if Data(Formal(p.ty, p.sized, p.attrs), Out) then 1 else 0
      ensures flags == old(flags) + If(Pipe(Formal(p.ty, p.sized, p.attrs), In), HAS_IN_PIPES)
                                  + If(Pipe(Formal(p.ty, p.sized, p.attrs), Out), HAS_OUT_PIPES)
    {
      ins', outs' := ins, outs;
      var ty := p.ty;
      if p.ty.PointerType? && !p.ty.named {
        ty := p.ty.pointee;
      }
      if In in p.attrs {
        if ty.PipeType? {
          flags := flags + {HAS_IN_PIPES};
        } else {
          ins' := ins' + 1;
        }
      }
      if Out in p.attrs {
        if ty.PipeType? {
          flags := flags + {HAS_OUT_PIPES};
        } else {
          outs' := outs' + 1;
        }
      }
    }

    /** The adjustment after the loop. */
    method SetInsOuts(ins: nat, outs: nat)
      requires ins > 0 ==> |parameters| > 0
      modifies `flags, result`attrs
      ensures flags == old(flags) + If(ins > 0 && !(ins == 1 && IsHandle(parameters[0].ty)), HAS_INS)
                                  + If(outs > 0 || !result.ty.VoidType?, HAS_OUTS)
      ensures result.attrs == old(result.attrs) + if result.ty.VoidType? then {} else {Out}
    {
      if ins > 0 {
        var first := parameters[0].ty;
        if !(ins == 1
             && ((first.HandleType? && !first.user)
                 || (first.PointerType? && first.pointee.HandleType? && !first.pointee.user)))
        {
          flags := flags + {HAS_INS};
        }
      }
      if outs > 0 {
        flags := flags + {HAS_OUTS};
      }
      if !result.ty.VoidType? {
        result.attrs := result.attrs + {Out};
        flags := flags + {HAS_OUTS};
      }
    }

    /** The loop over the parameters. */
    method LinkParameters() returns (ins: nat, outs: nat)
      modifies `flags, parameters`uplink
      ensures forall p :: p in parameters ==> p.uplink == this
      ensures ins == Count(Formals(parameters), In) && outs == Count(Formals(parameters), Out)
      ensures Formals(parameters) == old(Formals(parameters))
      ensures flags == old(flags) + PipeFlags(Formals(parameters))
    {
      hide Data, Pipe;
      ghost var fs := Formals(parameters);
      ins, outs := 0, 0;
      for i := 0 to |parameters|
        invariant forall j :: 0 <= j < i ==> parameters[j].uplink == this
        invariant ins == Count(fs[..i], In) && outs == Count(fs[..i], Out)
        invariant flags == old(flags) + PipeFlags(fs[..i])
      {
        ghost var p := parameters[i];
        parameters[i].uplink := this;
        assert Formal(p.ty, p.sized, p.attrs) == fs[i];
        ins, outs := Synthesize(parameters[i], ins, outs);
        Snoc(fs, i);
      }
      assert fs[..|parameters|] == fs;
      assert Formals(parameters) == fs;
    }

    /**
      Links the parameters to the operation and synthesizes its attributes: has_ins if there is
      an input beyond the leading handle, apart from the one family `HandleNotIn`.
    */
    method Finish()
      requires Valid()
      modifies `flags, result`attrs, parameters`uplink
      ensures forall p :: p in parameters ==> p.uplink == this
      ensures Formals(parameters) == old(Formals(parameters))
      ensures flags == old(flags) + PipeFlags(Formals(parameters)) + DataFlags(Formals(parameters), result.ty)
      ensures result.attrs == old(result.attrs)
        + (if result.ty.PointerType? && !result.ty.pointee.VoidType? && !result.ty.pointee.InterfaceType?
              && Ref !in old(result.attrs) && Unique !in old(result.attrs) then {Ptr} else {})
        + (if result.ty.VoidType? then {} else {Out})
    {
      hide Data, PipeFlags, HasInput, HandleNotIn, SomeData, Count;
      ghost var fs := Formals(parameters);
      if result.ty.PointerType? && !result.ty.pointee.VoidType? && !result.ty.pointee.InterfaceType?
         && Ref !in result.attrs && Unique !in result.attrs
      {
        result.attrs := result.attrs + {Ptr};
      }
      assert Formals(parameters) == fs;
      var ins, outs := LinkParameters();
      CountedFlags(fs, result.ty);
      SetInsOuts(ins, outs);
      assert Formals(parameters) == fs;
    }

    /** The checks of [maybe] and of handles; `local` is about the interface. */
    method Check(local: bool) returns (errors: set<Error>)
      ensures MaybeOutput in errors <==> MAYBE in flags && (HAS_OUTS in flags || HAS_OUT_PIPES in flags)
      ensures HandleDirection in errors <==> !local && BadDirection(Formals(parameters))
      ensures HandleArray in errors <==> !local && SomeArrayOfHandles(Formals(parameters))
      ensures HandlePointer in errors <==> SomeNamedPointer(Formals(parameters))
    {
      ghost var fs := Formals(parameters);
      errors := {};
      if MAYBE in flags && (HAS_OUTS in flags || HAS_OUT_PIPES in flags) {
        errors := errors + {MaybeOutput};
      }
      if |parameters| > 0 {
        var p := parameters[0];
        var ty := p.ty;
        if p.ty.PointerType? && !p.ty.pointee.VoidType? && !p.ty.named && !p.sized {
          ty := p.ty.pointee;
        }
        if !local && ty.HandleType? && (In !in p.attrs || Out in p.attrs) {
          errors := errors + {HandleDirection};
        }
      }
      ghost var before := errors;
      for i := 0 to |parameters|
        invariant forall e :: e == MaybeOutput || e == HandleDirection ==> (e in errors <==> e in before)
        invariant HandleArray in errors <==> !local && exists j :: 0 <= j < i && ArrayOfHandles(fs[j])
        invariant HandlePointer in errors <==> exists j :: 0 <= j < i && NamedHandlePointer(fs[j])
      {
        var p := parameters[i];
        assert fs[i] == Formal(p.ty, p.sized, p.attrs);
        if p.ty.PointerType? && p.ty.pointee.HandleType? {
          if p.ty.named {
            errors := errors + {HandlePointer};
          }
          if p.sized && !local {
            errors := errors + {HandleArray};
          }
        }
      }
    }

    /**
      Declaration, then check.  A [maybe] operation is refused exactly when it has an output of
      some kind, whether parameter, pipe or result.  If an operation that is not [local] passes,
      has_ins says without exception whether there is an input to marshal.
    */
    method FinishAndCheck(local: bool) returns (errors: set<Error>)
      requires Valid() && HAS_OUTS !in flags && HAS_OUT_PIPES !in flags
      modifies `flags, result`attrs, parameters`uplink
      ensures MaybeOutput in errors <==> MAYBE in old(flags) && HasOutput(Formals(parameters), result.ty)
      ensures errors == {} && !local && LOCAL !in old(flags) ==>
        (HAS_INS in flags <==> HasInput(Formals(parameters)))
      ensures LOCAL !in old(flags) ==>
        ((HAS_INS in flags <==> HasInput(Formals(parameters))) <==> !HandleNotIn(Formals(parameters)))
      ensures LOCAL in old(flags) ==> HAS_INS in flags
    {
      hide Data, Pipe, HasInput, HandleNotIn, SetsIns;
      Finish();
      OutputKinds(Formals(parameters));
      InsExact(Formals(parameters));
      CountedFlags(Formals(parameters), result.ty);
      errors := Check(local);
      if HandleNotIn(Formals(parameters)) {
        FamilyRefused(Formals(parameters));
      }
    }
  }

  /** Every [out] parameter is data or a pipe. */
  lemma OutputKinds(fs: seq<Formal>)
    ensures (exists f :: f in fs && Out in f.attrs) <==> SomeData(fs, Out) || SomePipe(fs, Out)
  {
    if f :| f in fs && Out in f.attrs {
      var i :| 0 <= i < |fs| && fs[i] == f;
      assert Data(fs[i], Out) || Pipe(fs[i], Out);
    }
  }

  lemma Snoc(fs: seq<Formal>, i: nat)
    requires i < |fs|
    ensures forall dir ::
      && Count(fs[..i + 1], dir) == Count(fs[..i], dir) + (if Data(fs[i], dir) then 1 else 0)
      && (SomePipe(fs[..i + 1], dir) <==> SomePipe(fs[..i], dir) || Pipe(fs[i], dir))
  {
    var t := fs[..i + 1];
    assert t[..i] == fs[..i] && t[i] == fs[i];
    forall dir
      ensures SomePipe(t, dir) <==> SomePipe(fs[..i], dir) || Pipe(fs[i], dir)
    {
      if SomePipe(t, dir) {
        var j :| 0 <= j < |t| && Pipe(t[j], dir);
        assert j < i ==> Pipe(fs[..i][j], dir);
      }
      if SomePipe(fs[..i], dir) {
        var j :| 0 <= j < i && Pipe(fs[..i][j], dir);
        assert Pipe(t[j], dir);
      }
      assert Pipe(fs[i], dir) == Pipe(t[i], dir);
    }
  }
}
