/**
 * The XDR routines. Each has one body for all three modes of the handle, moves the cursors of
 * the handle in place, and is proved to compute `Run`, that is `Enc`, `Dec` or `Free`.
 */
module XdrRoutines {
  import opened Words
  import opened XdrObjects
  import opened XdrSpec
  import opened XdrHeap
  import opened XdrStream

  datatype State = State(wire: Wire, heap: Heap)

  datatype Ran = Ran(ok: bool, obj: Obj, state: State)
  datatype RanAll = RanAll(ok: bool, objs: seq<Obj>, state: State)

  /** The blocks `owned` are allocated, not yet released, and owned once. */
  ghost predicate Live(owned: multiset<nat>, h: Heap) {
    && (forall id :: (multiset(h.freed) + owned)[id] <= 1)
    && forall id :: owned[id] > 0 ==> id < h.next
  }

  /** What each mode demands of the object it is given. */
  ghost predicate MayRun(env: Env, ty: Ty, o: Obj, s: State) {
    && HasTy(env, ty, o)
    && match s.wire.op
       case Encode => Sendable(ty, env, o)
       case Decode => Owned(o) == multiset{}
       case Release => Live(Owned(o), s.heap)
  }

  ghost function Run(env: Env, m: Malloc, ty: Ty, o: Obj, s: State): Ran
    requires MayRun(env, ty, o, s)
  {
    match s.wire.op
    case Encode =>
      var r := Enc(env, ty, o, s.wire.out);
      Ran(r.ok, o, s.(wire := s.wire.(out := r.out)))
    case Decode =>
      var r := Dec(env, ty, m, o, s.wire.inp, s.wire.pos, s.heap);
      Ran(r.ok, r.obj, State(s.wire.(pos := r.pos), r.heap))
    case Release =>
      var r := Free(env, ty, o, s.heap);
      Ran(r.ok, r.obj, s.(heap := r.heap))
  }

  ghost predicate MayRunAll(env: Env, ty: Ty, es: seq<Obj>, s: State) {
    && (forall e | e in es :: HasTy(env, ty, e))
    && match s.wire.op
       case Encode => forall e | e in es :: Sendable(ty, env, e)
       case Decode => OwnedAll(es) == multiset{}
       case Release => Live(OwnedAll(es), s.heap)
  }

  ghost function RunAll(env: Env, m: Malloc, ty: Ty, es: seq<Obj>, s: State): RanAll
    requires MayRunAll(env, ty, es, s)
  {
    match s.wire.op
    case Encode =>
      var r := EncAll(env, ty, es, s.wire.out);
      RanAll(r.ok, es, s.(wire := s.wire.(out := r.out)))
    case Decode =>
      var r := DecAll(env, ty, m, es, s.wire.inp, s.wire.pos, s.heap);
      RanAll(r.ok, r.objs, State(s.wire.(pos := r.pos), r.heap))
    case Release =>
      var r := FreeAll(env, ty, es, s.heap);
      RanAll(r.ok, r.objs, s.(heap := r.heap))
  }

  /** Releasing some of the owned blocks leaves the others live. */
  lemma LiveAfter(ok: bool, h: Heap, h': Heap, a: multiset<nat>, b: multiset<nat>)
    requires Live(a + b, h) && Released(ok, h, h', a)
    ensures Live(b, h')
  {
    forall id ensures (multiset(h'.freed) + b)[id] <= 1 {
      assert (multiset(h.freed) + (a + b))[id] <= 1;
      assert multiset(h'.freed)[id] <= (multiset(h.freed) + a)[id];
    }
    forall id | b[id] > 0 ensures id < h.next {
      assert (a + b)[id] > 0;
    }
  }

  lemma LiveParts(a: multiset<nat>, b: multiset<nat>, h: Heap)
    requires Live(a + b, h)
    ensures Live(a, h) && Live(b, h)
  {
    forall id ensures (multiset(h.freed) + a)[id] <= 1 && (multiset(h.freed) + b)[id] <= 1 {
      assert (multiset(h.freed) + (a + b))[id] <= 1;
    }
    forall id | a[id] > 0 || b[id] > 0 ensures id < h.next {
      assert (a + b)[id] > 0;
    }
  }

  lemma LiveMeansFreeable(id: nat, h: Heap)
    requires Live(multiset{id}, h)
    ensures id < h.next && id !in h.freed
  {
    assert multiset{id}[id] == 1;
    assert (multiset(h.freed) + multiset{id})[id] <= 1;
  }

  /** The element loop does the first element and, if that succeeds, the others. */
  lemma RunAllStep(env: Env, m: Malloc, ty: Ty, es: seq<Obj>, s: State)
    requires MayRunAll(env, ty, es, s) && es != []
    ensures MayRun(env, ty, es[0], s)
    ensures var r := Run(env, m, ty, es[0], s);
            if r.ok then
              && MayRunAll(env, ty, es[1..], r.state)
              && var t := RunAll(env, m, ty, es[1..], r.state);
                 RunAll(env, m, ty, es, s) == RanAll(t.ok, [r.obj] + t.objs, t.state)
            else
              RunAll(env, m, ty, es, s) == RanAll(false, [r.obj] + es[1..], r.state)
  {
    match s.wire.op
    case Encode => assert [es[0]] + es[1..] == es;
    case Decode => OwnedByNone(es);
    case Release =>
      LiveParts(Owned(es[0]), OwnedAll(es[1..]), s.heap);
      FreeReleasesAll(env, ty, es[0], s.heap);
      var r := Free(env, ty, es[0], s.heap);
      LiveAfter(r.ok, s.heap, r.heap, Owned(es[0]), OwnedAll(es[1..]));
  }

  // ----- Scalars -----

  datatype RanNum = RanNum(ok: bool, num: int, wire: Wire)

  function RunScalar(k: Kind, v: int, w: Wire): RanNum
    requires InRange(k, v)
  {
    match w.op
    case Encode => var r := SendWords(w.out, ScalarWords(k, v)); RanNum(r.ok, v, w.(out := r.out))
    case Decode => var r := DecScalar(k, v, w.inp, w.pos); RanNum(r.ok, r.num, w.(pos := r.pos))
    case Release => RanNum(true, v, w)
  }

  /** `xdr_u_int`, `xdr_u_long` */
  method XdrUInt(x: Xdr, v: u32) returns (ok: bool, v': u32)
    requires x.Valid()
    modifies x`outNext, x`inNext, x.outMsg
    ensures x.Valid() && RunScalar(UInt, v, old(x.View())) == RanNum(ok, v', x.View())
  {
    v' := v;
    match x.op
    case Encode =>
      SendOneWord(x.Out(), v);
      ok := x.SendUint32(v);
    case Decode =>
      var w;
      ok, w := x.RecvUint32();
      if ok {
        v' := w;
      }
    case Release => ok := true;
  }

  /** `xdr_int`, `xdr_long`, `xdr_enum` */
  method XdrInt(x: Xdr, v: int) returns (ok: bool, v': int)
    requires x.Valid() && InRange(Int, v)
    modifies x`outNext, x`inNext, x.outMsg
    ensures x.Valid() && RunScalar(Int, v, old(x.View())) == RanNum(ok, v', x.View())
  {
    v' := v;
    match x.op
    case Encode =>
      SendOneWord(x.Out(), ToU32(v));
      ok := x.SendUint32(ToU32(v));
    case Decode =>
      var w;
      ok, w := x.RecvUint32();
      if ok {
        v' := Signed32(w);
      }
    case Release => ok := true;
  }

  method XdrShort(x: Xdr, v: int) returns (ok: bool, v': int)
    requires x.Valid() && InRange(Short, v)
    modifies x`outNext, x`inNext, x.outMsg
    ensures x.Valid() && RunScalar(Short, v, old(x.View())) == RanNum(ok, v', x.View())
  {
    v' := v;
    match x.op
    case Encode =>
      SendOneWord(x.Out(), ToU32(v));
      ok := x.SendUint32(ToU32(v));
    case Decode =>
      var w;
      ok, w := x.RecvUint32();
      if ok {
        v' := Signed16(Signed32(w));
      }
    case Release => ok := true;
  }

  method XdrUShort(x: Xdr, v: int) returns (ok: bool, v': int)
    requires x.Valid() && InRange(UShort, v)
    modifies x`outNext, x`inNext, x.outMsg
    ensures x.Valid() && RunScalar(UShort, v, old(x.View())) == RanNum(ok, v', x.View())
  {
    v' := v;
    match x.op
    case Encode =>
      SendOneWord(x.Out(), v);
      ok := x.SendUint32(v);
    case Decode =>
      var w;
      ok, w := x.RecvUint32();
      if ok {
        v' := w % 0x10000;
      }
    case Release => ok := true;
  }

  /** `xdr_u_char` goes through `xdr_u_int` in every mode. */
  method XdrUChar(x: Xdr, v: int) returns (ok: bool, v': int)
    requires x.Valid() && InRange(UChar, v)
    modifies x`outNext, x`inNext, x.outMsg
    ensures x.Valid() && RunScalar(UChar, v, old(x.View())) == RanNum(ok, v', x.View())
  {
    var u;
    ok, u := XdrUInt(x, v);
    v' := if ok then u % 0x100 else v;
  }

  method XdrBool(x: Xdr, v: int) returns (ok: bool, v': int)
    requires x.Valid() && InRange(Bool, v)
    modifies x`outNext, x`inNext, x.outMsg
    ensures x.Valid() && RunScalar(Bool, v, old(x.View())) == RanNum(ok, v', x.View())
  {
    v' := v;
    match x.op
    case Encode =>
      SendOneWord(x.Out(), if v != 0 then 1 else 0);
      ok := x.SendUint32(if v != 0 then 1 else 0);
    case Decode =>
      var w;
      ok, w := x.RecvUint32();
      if ok {
        v' := if w == 0 then 0 else 1;
      }
    case Release => ok := true;
  }

  /** `xdr_u_hyper`: the high word, then the low word. */
  method XdrHyper(x: Xdr, v: int) returns (ok: bool, v': int)
    requires x.Valid() && InRange(Hyper, v)
    modifies x`outNext, x`inNext, x.outMsg
    ensures x.Valid() && RunScalar(Hyper, v, old(x.View())) == RanNum(ok, v', x.View())
  {
    v' := v;
    match x.op
    case Encode =>
      SendTwoWords(x.Out(), v / U32_SIZE, v % U32_SIZE);
      ok := x.SendUint32(v / U32_SIZE);
      if ok {
        ok := x.SendUint32(v % U32_SIZE);
      }
    case Decode =>
      var t1, t2;
      ok, t1 := x.RecvUint32();
      if ok {
        ok, t2 := x.RecvUint32();
        if ok {
          v' := t1 * U32_SIZE + t2;
        }
      }
    case Release => ok := true;
  }

  // ----- Byte strings -----

  method XdrOpaque(x: Xdr, raw: seq<byte>) returns (ok: bool, raw': seq<byte>)
    requires x.Valid() && |raw| <= LEN_LIMIT
    modifies x`outNext, x`inNext, x.outMsg
    ensures x.Valid()
    ensures var w := old(x.View());
            match w.op
            case Encode =>
              var r := if raw == [] then Sent(true, w.out) else XdrSpec.SendBytes(w.out, raw);
              ok == r.ok && raw' == raw && x.View() == w.(out := r.out)
            case Decode =>
              && ok == (raw == [] || HasBytes(w.inp, w.pos, |raw|))
              && (if ok && raw != [] then
                    raw' == w.inp[w.pos..w.pos + |raw|] && x.View() == w.(pos := RoundUp(w.pos + |raw|))
                  else raw' == raw && x.View() == w)
            case Release => ok && raw' == raw && x.View() == w
  {
    raw' := raw;
    if |raw| == 0 {
      return true, raw;
    }
    match x.op
    case Encode => ok := x.SendBytes(raw);
    case Decode =>
      var data;
      ok, data := x.RecvBytes(|raw|);
      if ok {
        raw' := data;
      }
    case Release => ok := true;
  }

  method XdrBytes(x: Xdr, mem: Memory, max: u32, o: Obj) returns (ok: bool, o': Obj)
    requires x.Valid()
    requires o.OBytes? && if o.buf.Null? then o.data == [] else o.size <= |o.data| <= LEN_LIMIT
    requires match x.op
             case Encode => o.buf.Null? ==> o.size == 0
             case Decode => o.buf.Null?
             case Release => Live(RefBag(o.buf), mem.View())
    modifies x`outNext, x`inNext, x.outMsg, mem
    ensures x.Valid()
    ensures var w, h := old(x.View()), old(mem.View());
            match w.op
            case Encode =>
              var r := EncBytes(max, o.size, o.data, w.out);
              ok == r.ok && o' == o && x.View() == w.(out := r.out) && mem.View() == h
            case Decode =>
              var r := DecBytes(max, mem.malloc, o, w.inp, w.pos, h);
              Got(ok, o', x.inNext, mem.View()) == r && x.View() == w.(pos := r.pos)
            case Release =>
              && ok && x.View() == w
              && if o.buf.Null? then o' == o && mem.View() == h
                 else o' == OBytes(o.size, Null, []) && mem.View() == XdrSpec.Release(h, o.buf.id)
  {
    o' := o;
    match x.op
    case Decode =>
      var size;
      ok, size := x.RecvUint32();
      if !ok {
        return;
      }
      o' := OBytes(size, Null, []);
      if size > max {
        return false, o';
      }
      if size == 0 {
        return true, o';
      }
      var p := mem.MemAllocBytes(size);
      if p.Null? {
        return false, o';
      }
      var data;
      ok, data := x.RecvBytes(size);
      o' := OBytes(size, p, if ok then data else Junk(mem.malloc, p.id, size));
    case Encode =>
      ok := x.SendUint32(o.size);
      if ok {
        ok := o.size <= max;
      }
      if ok {
        ok := x.SendBytes(o.data[..o.size]);
      }
    case Release =>
      if o.buf.At? {
        LiveMeansFreeable(o.buf.id, mem.View());
        mem.MemFree(o.buf.id);
        o' := OBytes(o.size, Null, []);
      }
      ok := true;
  }

  /** The part of `xdr_string` after the size has been handled and found within the limit. */
  method XdrStringBody(x: Xdr, mem: Memory, o: Obj, size: u32) returns (ok: bool, o': Obj)
    requires x.Valid() && o.OString?
    requires x.op == Decode ==> o.str.Null?
    requires x.op == Encode ==> size <= |o.chars| <= LEN_LIMIT
    requires x.op == Release ==> o.str.At? && Live(RefBag(o.str), mem.View())
    modifies x`outNext, x`inNext, x.outMsg, mem
    ensures x.Valid()
    ensures var w, h := old(x.View()), old(mem.View());
            match w.op
            case Encode =>
              var r := if size == 0 then Sent(true, w.out) else XdrSpec.SendBytes(w.out, o.chars[..size]);
              ok == r.ok && o' == o && x.View() == w.(out := r.out) && mem.View() == h
            case Decode =>
              var r := DecStringBody(mem.malloc, o, w.inp, w.pos, h, size);
              Got(ok, o', x.inNext, mem.View()) == r && x.View() == w.(pos := r.pos)
            case Release =>
              ok && o' == OString(Null, []) && x.View() == w && mem.View() == XdrSpec.Release(h, o.str.id)
  {
    o' := o;
    var nodesize := (size + 1) % U32_SIZE;
    match x.op
    case Decode =>
      if nodesize == 0 {
        return true, o;
      }
      var p := mem.MemAllocBytes(nodesize);
      if p.Null? {
        return false, o;
      }
      var data;
      ok, data := XdrOpaque(x, Junk(mem.malloc, p.id, size));
      o' := OString(p, data + [0]);
      assert size == 0 ==> data + [0] == [0];
    case Encode =>
      var chars;
      ok, chars := XdrOpaque(x, o.chars[..size]);
    case Release =>
      LiveMeansFreeable(o.str.id, mem.View());
      mem.MemFree(o.str.id);
      o' := OString(Null, []);
      ok := true;
  }

  method XdrString(x: Xdr, mem: Memory, max: u32, o: Obj) returns (ok: bool, o': Obj)
    requires x.Valid()
    requires o.OString? && if o.str.Null? then o.chars == [] else 0 in o.chars && |o.chars| <= LEN_LIMIT
    requires x.op == Decode ==> o.str.Null?
    requires x.op == Release ==> Live(RefBag(o.str), mem.View())
    modifies x`outNext, x`inNext, x.outMsg, mem
    ensures x.Valid()
    ensures var w, h := old(x.View()), old(mem.View());
            match w.op
            case Encode =>
              var r := if o.str.Null? then Sent(false, w.out) else EncString(max, o.chars, w.out);
              ok == r.ok && o' == o && x.View() == w.(out := r.out) && mem.View() == h
            case Decode =>
              var r := DecString(max, mem.malloc, o, w.inp, w.pos, h);
              Got(ok, o', x.inNext, mem.View()) == r && x.View() == w.(pos := r.pos)
            case Release =>
              && ok == (o.str.Null? || StrLen(o.chars) <= max) && x.View() == w
              && if o.str.Null? || !ok then o' == o && mem.View() == h
                 else o' == OString(Null, []) && mem.View() == XdrSpec.Release(h, o.str.id)
  {
    o' := o;
    var size: u32 := 0;
    if x.op != Decode {
      if o.str.Null? {
        return x.op == Release, o;
      }
      size := StrLen(o.chars);
    }
    SendOneWord(x.Out(), size);
    ok, size := XdrUInt(x, size);
    if !ok {
      return;
    }
    if size > max {
      return false, o;
    }
    ok, o' := XdrStringBody(x, mem, o, size);
  }
}
