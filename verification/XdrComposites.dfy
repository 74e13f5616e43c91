/**
 * The routines that call other routines: fixed and counted arrays, indirect and optional
 * pointers, and the structures rpcgen generates. `XdrProc` is a call through an `xdrproc_t`.
 */
module XdrComposites {
  import opened Words
  import opened XdrObjects
  import opened XdrSpec
  import opened XdrHeap
  import opened XdrStream
  import opened XdrRoutines

  ghost function View(x: Xdr, mem: Memory): State
    requires x.Valid()
    reads x, x.outMsg, x.inMsg, mem
  {
    State(x.View(), mem.View())
  }

  // Termination: DECODE consumes input at every pointer, the other modes descend into the object.

  function Budget(x: Xdr): nat
    requires x.Valid()
    reads x, x.inMsg
  {
    if x.op == Decode then Left(x.In(), x.inNext) else 0
  }

  function TyRank(x: Xdr, ty: Ty): Ty
    reads x
  {
    if x.op == Decode then ty else Void
  }

  function ObjRank(x: Xdr, o: Obj): Obj
    reads x
  {
    if x.op == Decode then OVoid else o
  }

  /** The routines that call no other routine of an object. */
  method XdrLeaf(x: Xdr, mem: Memory, ghost env: Env, ty: Ty, o: Obj) returns (ok: bool, o': Obj)
    requires ty.Void? || ty.Scalar? || ty.Opaque? || ty.Bytes? || ty.String?
    requires x.Valid() && MayRun(env, ty, o, View(x, mem))
    modifies x`outNext, x`inNext, x.outMsg, mem
    ensures x.Valid() && Run(env, mem.malloc, ty, o, old(View(x, mem))) == Ran(ok, o', View(x, mem))
  {
    match ty
    case Void => return true, o;
    case Scalar(k) => ok, o' := XdrScalar(x, k, o);
    case Opaque(n) =>
      var raw;
      ok, raw := XdrOpaque(x, o.raw);
      o' := OOpaque(raw);
    case Bytes(max) => ok, o' := XdrBytes(x, mem, max, o);
    case String(max) => ok, o' := XdrString(x, mem, max, o);
  }

  method XdrProc(x: Xdr, mem: Memory, env: Env, ty: Ty, o: Obj) returns (ok: bool, o': Obj)
    requires x.Valid() && MayRun(env, ty, o, View(x, mem))
    modifies x`outNext, x`inNext, x.outMsg, mem
    ensures x.Valid() && Run(env, mem.malloc, ty, o, old(View(x, mem))) == Ran(ok, o', View(x, mem))
    decreases Budget(x), TyRank(x, ty), ObjRank(x, o), 6
  {
    match ty
    case Void | Scalar(_) | Opaque(_) | Bytes(_) | String(_) => ok, o' := XdrLeaf(x, mem, env, ty, o);
    case Vector(_, t) =>
      var items;
      ok, items := XdrVector(x, mem, env, ty, t, o, o.items);
      o' := OVector(items);
    case Array(max, t) => ok, o' := XdrArray(x, mem, env, max, t, o);
    case Reference(t) => ok, o' := XdrReference(x, mem, env, t, o);
    case Pointer(name) => ok, o' := XdrPointer(x, mem, env, name, o);
    case Pair(a, b) => ok, o' := XdrPair(x, mem, env, a, b, o);
  }

  method XdrScalar(x: Xdr, k: Kind, o: Obj) returns (ok: bool, o': Obj)
    requires x.Valid() && o.OScalar? && InRange(k, o.num)
    modifies x`outNext, x`inNext, x.outMsg
    ensures x.Valid() && o'.OScalar? && RunScalar(k, o.num, old(x.View())) == RanNum(ok, o'.num, x.View())
  {
    var v;
    match k {
      case Int => ok, v := XdrInt(x, o.num);
      case UInt => ok, v := XdrUInt(x, o.num);
      case Short => ok, v := XdrShort(x, o.num);
      case UShort => ok, v := XdrUShort(x, o.num);
      case UChar => ok, v := XdrUChar(x, o.num);
      case Bool => ok, v := XdrBool(x, o.num);
      case Hyper => ok, v := XdrHyper(x, o.num);
    }
    o' := OScalar(v);
  }

  /** The structure routine rpcgen writes: members in order, stopping at the first failure. */
  method XdrPair(x: Xdr, mem: Memory, env: Env, a: Ty, b: Ty, o: Obj) returns (ok: bool, o': Obj)
    requires x.Valid() && MayRun(env, Pair(a, b), o, View(x, mem))
    modifies x`outNext, x`inNext, x.outMsg, mem
    ensures x.Valid() && Run(env, mem.malloc, Pair(a, b), o, old(View(x, mem))) == Ran(ok, o', View(x, mem))
    decreases Budget(x), TyRank(x, Pair(a, b)), ObjRank(x, o), 3
  {
    PairParts(env, mem.malloc, a, b, o, View(x, mem));
    var first, second := o.first, o.second;
    ok, first := XdrProc(x, mem, env, a, o.first);
    if ok {
      ok, second := XdrProc(x, mem, env, b, o.second);
    }
    o' := OPair(first, second);
  }

  lemma PairParts(env: Env, m: Malloc, a: Ty, b: Ty, o: Obj, s: State)
    requires MayRun(env, Pair(a, b), o, s)
    ensures MayRun(env, a, o.first, s)
    ensures var r := Run(env, m, a, o.first, s);
            if r.ok then
              && MayRun(env, b, o.second, r.state)
              && var t := Run(env, m, b, o.second, r.state);
                 Run(env, m, Pair(a, b), o, s) == Ran(t.ok, OPair(r.obj, t.obj), t.state)
            else
              Run(env, m, Pair(a, b), o, s) == Ran(false, OPair(r.obj, o.second), r.state)
  {
    match s.wire.op
    case Encode =>
    case Decode =>
    case Release =>
      LiveParts(Owned(o.first), Owned(o.second), s.heap);
      FreeReleasesAll(env, a, o.first, s.heap);
      var r := Free(env, a, o.first, s.heap);
      LiveAfter(r.ok, s.heap, r.heap, Owned(o.first), Owned(o.second));
  }

  /** `RunAll` of the whole is what has been done followed by `RunAll` of what remains. */
  ghost predicate Pending(env: Env, m: Malloc, t: Ty, all: RanAll, done: seq<Obj>, rest: seq<Obj>, s: State) {
    && MayRunAll(env, t, rest, s)
    && var r := RunAll(env, m, t, rest, s);
       all == RanAll(r.ok, done + r.objs, r.state)
  }

  lemma PendingStep(env: Env, m: Malloc, t: Ty, all: RanAll, done: seq<Obj>, rest: seq<Obj>, s: State)
    requires Pending(env, m, t, all, done, rest, s) && rest != []
    ensures MayRun(env, t, rest[0], s)
    ensures var r := Run(env, m, t, rest[0], s);
            if r.ok then Pending(env, m, t, all, done + [r.obj], rest[1..], r.state)
            else all == RanAll(false, done + [r.obj] + rest[1..], r.state)
  {
    RunAllStep(env, m, t, rest, s);
    var r := Run(env, m, t, rest[0], s);
    if r.ok {
      var q := RunAll(env, m, t, rest[1..], r.state);
      assert done + ([r.obj] + q.objs) == done + [r.obj] + q.objs;
    } else {
      assert done + ([r.obj] + rest[1..]) == done + [r.obj] + rest[1..];
    }
  }

  /** The loop over elements that `xdr_vector` is and `xdr_array` ends in. */
  method XdrVector(x: Xdr, mem: Memory, env: Env, ghost ty: Ty, t: Ty, ghost owner: Obj, es: seq<Obj>)
      returns (stat: bool, es': seq<Obj>)
    requires x.Valid() && MayRunAll(env, t, es, View(x, mem))
    requires (ty.Vector? && t == ty.elem) || (ty.Array? && t == ty.elem)
    requires x.op != Decode ==> (owner.OVector? && es == owner.items) || (owner.OArray? && es == owner.elems)
    modifies x`outNext, x`inNext, x.outMsg, mem
    ensures x.Valid() && RunAll(env, mem.malloc, t, es, old(View(x, mem))) == RanAll(stat, es', View(x, mem))
    decreases Budget(x), TyRank(x, ty), ObjRank(x, owner), 2
  {
    ghost var all := RunAll(env, mem.malloc, t, es, View(x, mem));
    var done: seq<Obj>, rest := [], es;
    ghost var k := 0;
    stat := true;
    while rest != [] && stat
      invariant x.Valid() && x.op == old(x.op) && x.In() == old(x.In()) && Budget(x) <= old(Budget(x))
      invariant 0 <= k <= |es| && rest == es[k..]
      invariant if stat then Pending(env, mem.malloc, t, all, done, rest, View(x, mem))
                else all == RanAll(false, done + rest, View(x, mem))
      decreases |rest|
    {
      assert rest[0] == es[k] && rest[1..] == es[k + 1..];
      PendingStep(env, mem.malloc, t, all, done, rest, View(x, mem));
      var e;
      stat, e := XdrProc(x, mem, env, t, rest[0]);
      done, rest, k := done + [e], rest[1..], k + 1;
    }
    es' := done + rest;
  }

  method XdrArray(x: Xdr, mem: Memory, env: Env, max: u32, t: Ty, o: Obj) returns (ok: bool, o': Obj)
    requires x.Valid() && MayRun(env, Array(max, t), o, View(x, mem))
    modifies x`outNext, x`inNext, x.outMsg, mem
    ensures x.Valid() && Run(env, mem.malloc, Array(max, t), o, old(View(x, mem))) == Ran(ok, o', View(x, mem))
    decreases Budget(x), TyRank(x, Array(max, t)), ObjRank(x, o), 5
  {
    o' := o;
    ghost var s := View(x, mem);
    assert x.op == Decode ==>
        Dec(env, Array(max, t), mem.malloc, o, s.wire.inp, s.wire.pos, s.heap)
        == DecArray(env, t, max, mem.malloc, o, s.wire.inp, s.wire.pos, s.heap);
    var c;
    SendOneWord(x.Out(), o.used);
    ok, c := XdrUInt(x, o.used);
    if !ok {
      assert x.op == Encode ==> Enc(env, Array(max, t), o, old(x.Out())) == Sent(false, x.Out());
      return;
    }
    ok, o' := XdrArrayCounted(x, mem, env, max, t, o, c, s);
  }

  /** The handle and the heap `s'` after the count of the array `o` went through. */
  predicate Counted(o: Obj, c: u32, s: State, s': State)
    requires o.OArray?
  {
    match s.wire.op
    case Encode =>
      var r := SendWord(s.wire.out, o.used);
      c == o.used && r.ok && s' == s.(wire := s.wire.(out := r.out))
    case Decode =>
      && HasWord(s.wire.inp, s.wire.pos) && c == WordAt(s.wire.inp, s.wire.pos)
      && s' == s.(wire := s.wire.(pos := s.wire.pos + 4))
    case Release => c == o.used && s' == s
  }

  /** `xdr_array` after its count. */
  method XdrArrayCounted(
      x: Xdr, mem: Memory, env: Env, max: u32, t: Ty, o: Obj, c: u32, ghost s: State)
      returns (ok: bool, o': Obj)
    requires x.Valid() && MayRun(env, Array(max, t), o, s) && Counted(o, c, s, View(x, mem))
    modifies x`outNext, x`inNext, x.outMsg, mem
    ensures x.Valid() && Run(env, mem.malloc, Array(max, t), o, s) == Ran(ok, o', View(x, mem))
    decreases Budget(x), TyRank(x, Array(max, t)), ObjRank(x, o), 4
  {
    assert x.op == Decode ==>
        Dec(env, Array(max, t), mem.malloc, o, s.wire.inp, s.wire.pos, s.heap)
        == DecArray(env, t, max, mem.malloc, o, s.wire.inp, s.wire.pos, s.heap);
    var arr, elems := o.arr, o.elems;
    o' := OArray(c, arr, elems);
    if c > max && x.op != Release {
      return false, o';
    }
    if arr.Null? {
      match x.op {
        case Decode =>
          if c == 0 {
            return true, o';
          }
          arr := mem.MemAlloc();
          if arr.Null? {
            return false, o';
          }
          elems := Copies(Zero(env, t), c);
          OwnedOfCopies(Zero(env, t), c);
        case Release => return true, o';
        case Encode =>
      }
    }
    ArrayRest(env, mem.malloc, max, t, o, s, c, arr, elems, View(x, mem));
    ok, o' := XdrArrayElements(x, mem, env, max, t, o, c, arr, elems);
  }

  /** What is left to do for a counted array once its count is through and its block is there. */
  lemma ArrayRest(
      env: Env, m: Malloc, max: u32, t: Ty, o: Obj, s: State, c: u32, arr: Ref, elems: seq<Obj>, s': State)
    requires MayRun(env, Array(max, t), o, s)
    requires match s.wire.op
             case Encode =>
               && c == o.used <= max && arr == o.arr && elems == o.elems
               && SendWord(s.wire.out, c).ok && s' == s.(wire := s.wire.(out := SendWord(s.wire.out, c).out))
             case Decode =>
               && HasWord(s.wire.inp, s.wire.pos) && c == WordAt(s.wire.inp, s.wire.pos) && 0 < c <= max
               && arr.At? && elems == Copies(Zero(env, t), c) && (arr, s'.heap) == Alloc(m, s.heap)
               && s'.wire == s.wire.(pos := s.wire.pos + 4)
             case Release => c == o.used && arr == o.arr && arr.At? && elems == o.elems && s' == s
    requires s.wire.op != Release ==> MayRunAll(env, t, elems, s')
    ensures s.wire.op == Release ==> MayRunAll(env, t, elems, s')
    ensures var r := RunAll(env, m, t, elems, s');
            Run(env, m, Array(max, t), o, s)
            == if s.wire.op == Release
               then Ran(r.ok, OArray(c, Null, []), r.state.(heap := XdrSpec.Release(r.state.heap, arr.id)))
               else Ran(r.ok, OArray(c, arr, r.objs), r.state)
  {
    match s.wire.op
    case Encode =>
    case Decode =>
      assert Dec(env, Array(max, t), m, o, s.wire.inp, s.wire.pos, s.heap)
          == DecArray(env, t, max, m, o, s.wire.inp, s.wire.pos, s.heap);
    case Release => LiveParts(RefBag(arr), OwnedAll(elems), s.heap);
  }

  /** The end of `xdr_array`: the element loop, and the release of the block. */
  method XdrArrayElements(
      x: Xdr, mem: Memory, env: Env, ghost max: u32, t: Ty, ghost owner: Obj, c: u32, arr: Ref, elems: seq<Obj>)
      returns (stat: bool, o': Obj)
    requires x.Valid() && (forall e | e in elems :: HasTy(env, t, e))
    requires if x.op == Release then arr.At? && Live(RefBag(arr) + OwnedAll(elems), mem.View())
             else MayRunAll(env, t, elems, View(x, mem))
    requires x.op != Decode ==> owner.OArray? && elems == owner.elems
    modifies x`outNext, x`inNext, x.outMsg, mem
    ensures x.Valid()
    ensures var s := old(View(x, mem));
            && MayRunAll(env, t, elems, s)
            && var r := RunAll(env, mem.malloc, t, elems, s);
               Ran(stat, o', View(x, mem))
               == if s.wire.op == Release
                  then Ran(r.ok, OArray(c, Null, []), r.state.(heap := XdrSpec.Release(r.state.heap, arr.id)))
                  else Ran(r.ok, OArray(c, arr, r.objs), r.state)
    decreases Budget(x), TyRank(x, Array(max, t)), ObjRank(x, owner), 3
  {
    if x.op == Release {
      LiveParts(RefBag(arr), OwnedAll(elems), mem.View());
      ArrayBlockStaysLive(env, t, arr, elems, mem.View());
    }
    var es;
    stat, es := XdrVector(x, mem, env, Array(max, t), t, owner, elems);
    o' := OArray(c, arr, es);
    if x.op == Release {
      mem.MemFree(arr.id);
      o' := OArray(c, Null, []);
    }
  }

  lemma ArrayBlockStaysLive(env: Env, t: Ty, arr: Ref, elems: seq<Obj>, h: Heap)
    requires arr.At? && Live(RefBag(arr) + OwnedAll(elems), h)
    requires forall e | e in elems :: HasTy(env, t, e)
    ensures var h' := FreeAll(env, t, elems, h).heap; arr.id < h'.next && arr.id !in h'.freed
  {
    FreeAllReleases(env, t, elems, h);
    var r := FreeAll(env, t, elems, h);
    assert OwnedAll(elems) + RefBag(arr) == RefBag(arr) + OwnedAll(elems);
    LiveAfter(r.ok, h, r.heap, OwnedAll(elems), RefBag(arr));
    LiveMeansFreeable(arr.id, r.heap);
  }

  method XdrReference(x: Xdr, mem: Memory, env: Env, t: Ty, o: Obj) returns (stat: bool, o': Obj)
    requires x.Valid() && MayRun(env, Reference(t), o, View(x, mem))
    modifies x`outNext, x`inNext, x.outMsg, mem
    ensures x.Valid() && Run(env, mem.malloc, Reference(t), o, old(View(x, mem))) == Ran(stat, o', View(x, mem))
    decreases Budget(x), TyRank(x, Reference(t)), ObjRank(x, o), 2
  {
    o' := o;
    if o.ONull? {
      if x.op == Release {
        return true, o;
      }
      assert x.op == Decode;
      assert DecReference(env, t, mem.malloc, x.In(), x.inNext, mem.View())
          == Dec(env, Reference(t), mem.malloc, o, x.In(), x.inNext, mem.View());
      var p := mem.MemAlloc();
      if p.Null? {
        return false, o;
      }
      o' := OAt(p.id, Zero(env, t));
    }
    if x.op == Release {
      LiveParts(multiset{o.id}, Owned(o.target), mem.View());
      TargetBlockStaysLive(env, t, o, mem.View());
    }
    var target;
    stat, target := XdrProc(x, mem, env, t, o'.target);
    o' := OAt(o'.id, target);
    if x.op == Release {
      mem.MemFree(o'.id);
      o' := ONull;
    }
  }

  lemma TargetBlockStaysLive(env: Env, t: Ty, o: Obj, h: Heap)
    requires o.OAt? && HasTy(env, t, o.target) && Live(multiset{o.id} + Owned(o.target), h)
    ensures var h' := Free(env, t, o.target, h).heap; o.id < h'.next && o.id !in h'.freed
  {
    FreeReleasesAll(env, t, o.target, h);
    var r := Free(env, t, o.target, h);
    assert Owned(o.target) + multiset{o.id} == multiset{o.id} + Owned(o.target);
    LiveAfter(r.ok, h, r.heap, Owned(o.target), multiset{o.id});
    LiveMeansFreeable(o.id, r.heap);
  }

  method XdrPointer(x: Xdr, mem: Memory, env: Env, name: string, o: Obj) returns (ok: bool, o': Obj)
    requires x.Valid() && MayRun(env, Pointer(name), o, View(x, mem))
    modifies x`outNext, x`inNext, x.outMsg, mem
    ensures x.Valid() && Run(env, mem.malloc, Pointer(name), o, old(View(x, mem))) == Ran(ok, o', View(x, mem))
    decreases Budget(x), TyRank(x, Pointer(name)), ObjRank(x, o), 3
  {
    o' := o;
    ghost var s := View(x, mem);
    var moreData := if o.ONull? then 0 else 1;
    SendOneWord(x.Out(), moreData);
    ok, moreData := XdrBool(x, moreData);
    if !ok {
      return;
    }
    if moreData == 0 {
      return true, ONull;
    }
    PointerRest(env, mem.malloc, name, o, s, View(x, mem));
    ok, o' := XdrReference(x, mem, env, env(name), o);
  }

  /** What is left to do for a pointer once its presence word is through and says "present". */
  lemma PointerRest(env: Env, m: Malloc, name: string, o: Obj, s: State, s': State)
    requires MayRun(env, Pointer(name), o, s)
    requires match s.wire.op
             case Encode =>
               var r := SendWord(s.wire.out, 1);
               o.OAt? && r.ok && s' == s.(wire := s.wire.(out := r.out))
             case Decode =>
               && HasWord(s.wire.inp, s.wire.pos) && WordAt(s.wire.inp, s.wire.pos) != 0
               && s' == s.(wire := s.wire.(pos := s.wire.pos + 4))
             case Release => o.OAt? && s' == s
    ensures MayRun(env, Reference(env(name)), o, s')
    ensures Run(env, m, Pointer(name), o, s) == Run(env, m, Reference(env(name)), o, s')
  {
    match s.wire.op
    case Encode =>
    case Decode =>
      assert Dec(env, Pointer(name), m, o, s.wire.inp, s.wire.pos, s.heap)
          == DecReference(env, env(name), m, s.wire.inp, s.wire.pos + 4, s.heap);
    case Release =>
  }

  // ----- A routine in a known mode -----

  method XdrEncode(x: Xdr, mem: Memory, env: Env, ty: Ty, o: Obj) returns (ok: bool)
    requires x.Valid() && x.op == Encode && HasTy(env, ty, o) && Sendable(ty, env, o)
    modifies x`outNext, x`inNext, x.outMsg, mem
    ensures x.Valid() && Enc(env, ty, o, old(x.Out())) == Sent(ok, x.Out())
    ensures x.inNext == old(x.inNext) && mem.View() == old(mem.View())
  {
    var same;
    ok, same := XdrProc(x, mem, env, ty, o);
  }

  method XdrDecode(x: Xdr, mem: Memory, env: Env, ty: Ty, o: Obj) returns (ok: bool, o': Obj)
    requires x.Valid() && x.op == Decode && Blank(env, ty, o)
    modifies x`outNext, x`inNext, x.outMsg, mem
    ensures x.Valid() && x.Out() == old(x.Out())
    ensures Dec(env, ty, mem.malloc, o, x.In(), old(x.inNext), old(mem.View())) == Got(ok, o', x.inNext, mem.View())
  {
    ok, o' := XdrProc(x, mem, env, ty, o);
  }

  method XdrRelease(x: Xdr, mem: Memory, env: Env, ty: Ty, o: Obj) returns (ok: bool, o': Obj)
    requires x.Valid() && x.op == Release && HasTy(env, ty, o) && Live(Owned(o), mem.View())
    modifies x`outNext, x`inNext, x.outMsg, mem
    ensures x.Valid() && x.Out() == old(x.Out()) && x.inNext == old(x.inNext)
    ensures Free(env, ty, o, old(mem.View())) == Freed(ok, o', mem.View())
  {
    ok, o' := XdrProc(x, mem, env, ty, o);
  }

  /** `xdr_free`: FREE with a handle of its own, of which only the mode matters. */
  method XdrFree(mem: Memory, env: Env, ty: Ty, o: Obj) returns (o': Obj)
    requires HasTy(env, ty, o)
    requires Live(Owned(o), mem.View())
    modifies mem
    ensures var r := Free(env, ty, o, old(mem.View())); o' == r.obj && mem.View() == r.heap
    ensures StringsFit(env, ty, o) ==> Owned(o') == multiset{} && Released(true, old(mem.View()), mem.View(), Owned(o))
  {
    var x := new Xdr(0, 0);
    x.op := Release;
    FreeReleasesAll(env, ty, o, mem.View());
    var ok;
    ok, o' := XdrRelease(x, mem, env, ty, o);
  }
}
