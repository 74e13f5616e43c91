/** Conservation of the heap: what DECODE allocates, FREE releases, once each. */
module XdrHeap {
  import opened Words
  import opened XdrObjects
  import opened XdrSpec

  /** The blocks handed out while the allocator's counter went from `a` to `b`. */
  function Issued(a: nat, b: nat): multiset<nat>
    decreases b - a
  {
    if a >= b then multiset{} else multiset{a} + Issued(a + 1, b)
  }

  lemma {:induction false} IssuedSplit(a: nat, b: nat, c: nat)
    requires a <= b <= c
    ensures Issued(a, c) == Issued(a, b) + Issued(b, c)
    decreases b - a
  {
    if a < b {
      IssuedSplit(a + 1, b, c);
    }
  }

  lemma {:induction false} IssuedOnce(a: nat, b: nat, id: nat)
    ensures Issued(a, b)[id] == if a <= id < b then 1 else 0
    decreases b - a
  {
    if a < b {
      IssuedOnce(a + 1, b, id);
    }
  }

  /** Every string in `o` is within the limit of its routine. */
  predicate StringsFit(env: Env, ty: Ty, o: Obj)
    requires HasTy(env, ty, o)
    decreases o
  {
    match ty
    case Void | Scalar(_) | Opaque(_) | Bytes(_) => true
    case String(max) => o.str.At? ==> StrLen(o.chars) <= max
    case Vector(_, t) => forall e | e in o.items :: StringsFit(env, t, e)
    case Array(_, t) => forall e | e in o.elems :: StringsFit(env, t, e)
    case Reference(t) => o.OAt? ==> StringsFit(env, t, o.target)
    case Pointer(name) => o.OAt? ==> StringsFit(env, env(name), o.target)
    case Pair(a, b) => StringsFit(env, a, o.first) && StringsFit(env, b, o.second)
  }

  lemma StrLenWithin(s: seq<byte>, n: nat)
    requires n < |s| && s[n] == 0
    ensures StrLen(s) <= n
  {
  }

  lemma {:induction false} BlankFits(env: Env, ty: Ty, o: Obj)
    requires Blank(env, ty, o)
    ensures StringsFit(env, ty, o)
    decreases o
  {
    match ty
    case Vector(_, t) =>
      OwnedByNone(o.items);
      forall e | e in o.items ensures StringsFit(env, t, e) {
        BlankFits(env, t, e);
      }
    case Pair(a, b) =>
      BlankFits(env, a, o.first);
      BlankFits(env, b, o.second);
    case Array(_, _) => assert o.elems == [];
    case _ =>
  }

  lemma {:induction false} BlankAllFits(env: Env, ty: Ty, es: seq<Obj>)
    requires BlankAll(env, ty, es)
    ensures forall e | e in es :: StringsFit(env, ty, e)
  {
    OwnedByNone(es);
    forall e | e in es ensures StringsFit(env, ty, e) {
      BlankFits(env, ty, e);
    }
  }

  /** What a decode step from heap `h` to heap `h'` leaves its object owning. */
  predicate Grew(h: Heap, h': Heap, owned: multiset<nat>) {
    h.next <= h'.next && h'.freed == h.freed && owned == Issued(h.next, h'.next)
  }

  lemma GrewTwice(h0: Heap, h1: Heap, h2: Heap, a: multiset<nat>, b: multiset<nat>)
    requires Grew(h0, h1, a) && Grew(h1, h2, b)
    ensures Grew(h0, h2, a + b)
  {
    IssuedSplit(h0.next, h1.next, h2.next);
  }

  lemma AllocGrew(m: Malloc, h: Heap)
    ensures Grew(h, Alloc(m, h).1, RefBag(Alloc(m, h).0))
  {
    assert Issued(h.next, h.next + 1) == multiset{h.next} + Issued(h.next + 1, h.next + 1);
  }

  lemma AllocBytesGrew(m: Malloc, h: Heap, size: nat)
    ensures Grew(h, AllocBytes(m, h, size).1, RefBag(AllocBytes(m, h, size).0))
  {
    AllocGrew(m, h);
    assert Issued(h.next, h.next) == multiset{};
  }

  lemma DecBytesOwns(max: u32, m: Malloc, o: Obj, inp: seq<byte>, pos: nat, h: Heap)
    requires o.OBytes? && o.buf.Null? && o.data == []
    ensures var r := DecBytes(max, m, o, inp, pos, h); Grew(h, r.heap, RefBag(r.obj.buf))
  {
    assert Issued(h.next, h.next) == multiset{};
    if HasWord(inp, pos) {
      AllocBytesGrew(m, h, WordAt(inp, pos));
    }
  }

  lemma DecStringOwns(max: u32, m: Malloc, o: Obj, inp: seq<byte>, pos: nat, h: Heap)
    requires o.OString? && o.str.Null? && o.chars == []
    ensures var r := DecString(max, m, o, inp, pos, h);
            Grew(h, r.heap, RefBag(r.obj.str)) && (r.obj.str.At? ==> StrLen(r.obj.chars) <= max)
  {
    assert Issued(h.next, h.next) == multiset{};
    if HasWord(inp, pos) {
      AllocBytesGrew(m, h, WordAt(inp, pos) + 1);
    }
    var r := DecString(max, m, o, inp, pos, h);
    if r.obj.str.At? {
      StrLenWithin(r.obj.chars, WordAt(inp, pos));
    }
  }

  lemma DecLeafOwns(env: Env, ty: Ty, m: Malloc, o: Obj, inp: seq<byte>, pos: nat, h: Heap)
    requires Blank(env, ty, o)
    requires ty.Void? || ty.Scalar? || ty.Opaque? || ty.Bytes? || ty.String?
    ensures var r := Dec(env, ty, m, o, inp, pos, h);
            Grew(h, r.heap, Owned(r.obj)) && StringsFit(env, ty, r.obj)
  {
    assert Issued(h.next, h.next) == multiset{};
    match ty
    case Bytes(max) => DecBytesOwns(max, m, o, inp, pos, h);
    case String(max) => DecStringOwns(max, m, o, inp, pos, h);
    case _ =>
  }

  /**
   * However DECODE ends, the object it leaves owns exactly the blocks it allocated, each once,
   * nothing was released, and every string it stored is within its limit.
   */
  lemma {:induction false} DecOwnsWhatItAllocates(
      env: Env, ty: Ty, m: Malloc, o: Obj, inp: seq<byte>, pos: nat, h: Heap)
    requires Blank(env, ty, o)
    ensures var r := Dec(env, ty, m, o, inp, pos, h);
            Grew(h, r.heap, Owned(r.obj)) && StringsFit(env, ty, r.obj)
    decreases Left(inp, pos), ty, 1, 0
  {
    match ty
    case Void | Scalar(_) | Opaque(_) | Bytes(_) | String(_) => DecLeafOwns(env, ty, m, o, inp, pos, h);
    case Vector(_, t) => DecAllOwns(env, t, m, o.items, inp, pos, h);
    case Array(max, t) => DecArrayOwns(env, t, max, m, o, inp, pos, h);
    case Reference(t) => DecReferenceOwns(env, t, m, inp, pos, h);
    case Pointer(name) =>
      assert Issued(h.next, h.next) == multiset{};
      if HasWord(inp, pos) && WordAt(inp, pos) != 0 {
        DecReferenceOwns(env, env(name), m, inp, pos + 4, h);
      }
    case Pair(a, b) => DecPairOwns(env, a, b, m, o, inp, pos, h);
  }

  lemma {:induction false} DecPairOwns(
      env: Env, a: Ty, b: Ty, m: Malloc, o: Obj, inp: seq<byte>, pos: nat, h: Heap)
    requires Blank(env, Pair(a, b), o)
    ensures var r := Dec(env, Pair(a, b), m, o, inp, pos, h);
            && Grew(h, r.heap, Owned(r.obj.first) + Owned(r.obj.second))
            && StringsFit(env, a, r.obj.first) && StringsFit(env, b, r.obj.second)
    decreases Left(inp, pos), Pair(a, b), 0, 0
  {
    DecOwnsWhatItAllocates(env, a, m, o.first, inp, pos, h);
    var r := Dec(env, a, m, o.first, inp, pos, h);
    if r.ok {
      DecOwnsWhatItAllocates(env, b, m, o.second, inp, r.pos, r.heap);
      var s := Dec(env, b, m, o.second, inp, r.pos, r.heap);
      GrewTwice(h, r.heap, s.heap, Owned(r.obj), Owned(s.obj));
    } else {
      BlankFits(env, b, o.second);
      assert Dec(env, Pair(a, b), m, o, inp, pos, h).obj == OPair(r.obj, o.second);
      assert Owned(o.second) == multiset{};
    }
  }

  lemma {:induction false} DecReferenceOwns(env: Env, ty: Ty, m: Malloc, inp: seq<byte>, pos: nat, h: Heap)
    ensures var r := DecReference(env, ty, m, inp, pos, h);
            Grew(h, r.heap, Owned(r.obj)) && (r.obj.OAt? ==> StringsFit(env, ty, r.obj.target))
    decreases Left(inp, pos), ty, 2, 0
  {
    AllocGrew(m, h);
    var (p, h') := Alloc(m, h);
    if p.At? {
      DecOwnsWhatItAllocates(env, ty, m, Zero(env, ty), inp, pos, h');
      var r := Dec(env, ty, m, Zero(env, ty), inp, pos, h');
      GrewTwice(h, h', r.heap, RefBag(p), Owned(r.obj));
    }
  }

  lemma {:induction false} DecArrayOwns(
      env: Env, ty: Ty, max: u32, m: Malloc, o: Obj, inp: seq<byte>, pos: nat, h: Heap)
    requires o.OArray? && o.arr.Null? && o.elems == []
    ensures var r := DecArray(env, ty, max, m, o, inp, pos, h);
            && Grew(h, r.heap, RefBag(r.obj.arr) + OwnedAll(r.obj.elems))
            && forall e | e in r.obj.elems :: StringsFit(env, ty, e)
    decreases Left(inp, pos), ty, 0, 0
  {
    var r := DecArray(env, ty, max, m, o, inp, pos, h);
    assert Issued(h.next, h.next) == multiset{};
    if HasWord(inp, pos) && 0 < WordAt(inp, pos) <= max && Alloc(m, h).0.At? {
      var c := WordAt(inp, pos);
      var (p, h') := Alloc(m, h);
      var zs := Copies(Zero(env, ty), c);
      OwnedOfCopies(Zero(env, ty), c);
      DecAllOwns(env, ty, m, zs, inp, pos + 4, h');
      var rs := DecAll(env, ty, m, zs, inp, pos + 4, h');
      AllocGrew(m, h);
      GrewTwice(h, h', rs.heap, RefBag(p), OwnedAll(rs.objs));
      assert r == Got(rs.ok, OArray(c, p, rs.objs), rs.pos, rs.heap);
    } else {
      assert r.obj.elems == [] && r.obj.arr.Null?;
      assert OwnedAll(r.obj.elems) == multiset{};
      assert r.heap.next == h.next && r.heap.freed == h.freed;
    }
  }

  lemma {:induction false} DecAllOwns(
      env: Env, ty: Ty, m: Malloc, es: seq<Obj>, inp: seq<byte>, pos: nat, h: Heap)
    requires BlankAll(env, ty, es)
    ensures var r := DecAll(env, ty, m, es, inp, pos, h);
            Grew(h, r.heap, OwnedAll(r.objs)) && forall e | e in r.objs :: StringsFit(env, ty, e)
    decreases Left(inp, pos), ty, 3, |es|
  {
    if es != [] {
      OwnedByNone(es);
      BlankAllFits(env, ty, es);
      DecOwnsWhatItAllocates(env, ty, m, es[0], inp, pos, h);
      var r := Dec(env, ty, m, es[0], inp, pos, h);
      if r.ok {
        DecAllOwns(env, ty, m, es[1..], inp, r.pos, r.heap);
        var s := DecAll(env, ty, m, es[1..], inp, r.pos, r.heap);
        GrewTwice(h, r.heap, s.heap, Owned(r.obj), OwnedAll(s.objs));
        assert ([r.obj] + s.objs)[1..] == s.objs;
      } else {
        assert ([r.obj] + es[1..])[1..] == es[1..];
      }
    }
  }

  // ----- FREE -----

  /** How a release run went: complete and leaving nothing owned, or cut short with a leak. */
  predicate Released(ok: bool, h: Heap, h': Heap, owned: multiset<nat>) {
    && h'.next == h.next && h.freed <= h'.freed
    && if ok then multiset(h'.freed) == multiset(h.freed) + owned
       else multiset(h'.freed) < multiset(h.freed) + owned
  }

  lemma ReleasedOne(h: Heap, id: nat)
    ensures Released(true, h, Release(h, id), multiset{id})
  {
  }

  lemma ReleasedTwice(ok: bool, h: Heap, h1: Heap, h2: Heap, a: multiset<nat>, b: multiset<nat>)
    requires Released(true, h, h1, a) && Released(ok, h1, h2, b)
    ensures Released(ok, h, h2, a + b)
  {
  }

  lemma ReleasedInPart(h: Heap, h1: Heap, a: multiset<nat>, b: multiset<nat>)
    requires Released(false, h, h1, a)
    ensures Released(false, h, h1, a + b)
  {
  }

  lemma ReleasedThenOne(ok: bool, h: Heap, h1: Heap, a: multiset<nat>, id: nat)
    requires Released(ok, h, h1, a)
    ensures Released(ok, h, Release(h1, id), multiset{id} + a)
  {
    if !ok {
      var x :| multiset(h1.freed)[x] < (multiset(h.freed) + a)[x];
      assert multiset(Release(h1, id).freed)[x] < (multiset(h.freed) + (multiset{id} + a))[x];
    }
  }

  /**
   * FREE reports success exactly when every string in the object is within its limit; then it
   * releases every owned block once and leaves all pointers NULL. Otherwise it stops early, and
   * at least one block is never released.
   */
  lemma {:induction false} FreeReleasesAll(env: Env, ty: Ty, o: Obj, h: Heap)
    requires HasTy(env, ty, o)
    ensures var r := Free(env, ty, o, h);
            && r.ok == StringsFit(env, ty, o)
            && Released(r.ok, h, r.heap, Owned(o))
            && (r.ok ==> Owned(r.obj) == multiset{})
    decreases o, 1
  {
    match ty
    case Bytes(_) => FreeBytesReleases(env, ty, o, h);
    case String(_) => FreeStringReleases(env, ty, o, h);
    case Vector(_, t) => FreeAllReleases(env, t, o.items, h);
    case Array(max, t) => FreeArrayReleases(env, max, t, o, h);
    case Reference(t) => FreeTargetReleases(env, ty, t, o, h);
    case Pointer(name) => FreeTargetReleases(env, ty, env(name), o, h);
    case Pair(a, b) => FreePairReleases(env, a, b, o, h);
    case _ =>
  }

  lemma {:induction false} FreeArrayReleases(env: Env, max: u32, t: Ty, o: Obj, h: Heap)
    requires HasTy(env, Array(max, t), o)
    ensures var r := Free(env, Array(max, t), o, h);
            && r.ok == (forall e | e in o.elems :: StringsFit(env, t, e))
            && Released(r.ok, h, r.heap, Owned(o))
            && Owned(r.obj) == multiset{}
    decreases o, 0
  {
    if o.arr.At? {
      FreeAllReleases(env, t, o.elems, h);
      var r := FreeAll(env, t, o.elems, h);
      ReleasedThenOne(r.ok, h, r.heap, OwnedAll(o.elems), o.arr.id);
      assert Free(env, Array(max, t), o, h) == Freed(r.ok, OArray(o.used, Null, []), Release(r.heap, o.arr.id));
      assert Owned(o) == multiset{o.arr.id} + OwnedAll(o.elems);
    } else {
      assert o.elems == [];
    }
  }

  lemma {:induction false} FreePairReleases(env: Env, a: Ty, b: Ty, o: Obj, h: Heap)
    requires HasTy(env, Pair(a, b), o)
    ensures var r := Free(env, Pair(a, b), o, h);
            && r.ok == (StringsFit(env, a, o.first) && StringsFit(env, b, o.second))
            && Released(r.ok, h, r.heap, Owned(o.first) + Owned(o.second))
            && (r.ok ==> Owned(r.obj) == multiset{})
    decreases o, 0
  {
    FreeReleasesAll(env, a, o.first, h);
    var r := Free(env, a, o.first, h);
    if r.ok {
      FreeReleasesAll(env, b, o.second, r.heap);
      var s := Free(env, b, o.second, r.heap);
      ReleasedTwice(s.ok, h, r.heap, s.heap, Owned(o.first), Owned(o.second));
    } else {
      ReleasedInPart(h, r.heap, Owned(o.first), Owned(o.second));
    }
  }

  lemma FreeBytesReleases(env: Env, ty: Ty, o: Obj, h: Heap)
    requires ty.Bytes? && HasTy(env, ty, o)
    ensures var r := Free(env, ty, o, h);
            r.ok && Released(true, h, r.heap, Owned(o)) && Owned(r.obj) == multiset{}
  {
    if o.buf.At? {
      ReleasedOne(h, o.buf.id);
    }
  }

  lemma FreeStringReleases(env: Env, ty: Ty, o: Obj, h: Heap)
    requires ty.String? && HasTy(env, ty, o)
    ensures var r := Free(env, ty, o, h);
            && r.ok == (o.str.At? ==> StrLen(o.chars) <= ty.max)
            && Released(r.ok, h, r.heap, Owned(o))
            && (r.ok ==> Owned(r.obj) == multiset{})
  {
    if o.str.At? {
      ReleasedOne(h, o.str.id);
      assert o.str.id in Owned(o);
    }
  }

  lemma {:induction false} FreeTargetReleases(env: Env, ty: Ty, t: Ty, o: Obj, h: Heap)
    requires (ty.Reference? && ty.target == t) || (ty.Pointer? && env(ty.name) == t)
    requires HasTy(env, ty, o)
    ensures var r := Free(env, ty, o, h);
            && r.ok == (o.OAt? ==> StringsFit(env, t, o.target))
            && Released(r.ok, h, r.heap, Owned(o))
            && Owned(r.obj) == multiset{}
    decreases o, 0
  {
    if o.OAt? {
      FreeReleasesAll(env, t, o.target, h);
      var r := Free(env, t, o.target, h);
      ReleasedThenOne(r.ok, h, r.heap, Owned(o.target), o.id);
      assert Free(env, ty, o, h) == Freed(r.ok, ONull, Release(r.heap, o.id));
      assert Owned(o) == multiset{o.id} + Owned(o.target);
    } else {
      assert Free(env, ty, o, h) == Freed(true, o, h);
    }
  }

  lemma {:induction false} FreeAllReleases(env: Env, ty: Ty, es: seq<Obj>, h: Heap)
    requires forall e | e in es :: HasTy(env, ty, e)
    ensures var r := FreeAll(env, ty, es, h);
            && r.ok == (forall e | e in es :: StringsFit(env, ty, e))
            && Released(r.ok, h, r.heap, OwnedAll(es))
            && (r.ok ==> OwnedAll(r.objs) == multiset{})
    decreases es, 0
  {
    if es != [] {
      FreeReleasesAll(env, ty, es[0], h);
      var r := Free(env, ty, es[0], h);
      if r.ok {
        FreeAllReleases(env, ty, es[1..], r.heap);
        var s := FreeAll(env, ty, es[1..], r.heap);
        ReleasedTwice(s.ok, h, r.heap, s.heap, Owned(es[0]), OwnedAll(es[1..]));
        assert ([r.obj] + s.objs)[1..] == s.objs;
      } else {
        ReleasedInPart(h, r.heap, Owned(es[0]), OwnedAll(es[1..]));
      }
      assert forall e | e in es :: e == es[0] || e in es[1..];
    }
  }

  /** FREE succeeded with no pointer left, and released what was issued since `h`, each once. */
  ghost predicate Conserved(h: Heap, issued: Heap, f: Freed) {
    && f.ok && Owned(f.obj) == multiset{}
    && h.next <= issued.next == f.heap.next
    && multiset(f.heap.freed) == multiset(h.freed) + Issued(h.next, issued.next)
    && forall id | h.next <= id < issued.next :: multiset(f.heap.freed)[id] == 1 + multiset(h.freed)[id]
  }

  /**
   * Decode, then free: from storage whose pointers are all NULL, after decoding any message
   * with any allocator behaviour, successfully or stopped part-way, FREE succeeds, leaves all
   * pointers NULL again, and has released exactly the blocks DECODE allocated, each once.
   */
  lemma DecodeThenFree(env: Env, ty: Ty, m: Malloc, o: Obj, inp: seq<byte>, pos: nat, h: Heap)
    requires Blank(env, ty, o)
    ensures var d := Dec(env, ty, m, o, inp, pos, h);
            Conserved(h, d.heap, Free(env, ty, d.obj, d.heap))
  {
    DecOwnsWhatItAllocates(env, ty, m, o, inp, pos, h);
    var d := Dec(env, ty, m, o, inp, pos, h);
    FreeReleasesAll(env, ty, d.obj, d.heap);
    forall id | h.next <= id < d.heap.next ensures Issued(h.next, d.heap.next)[id] == 1 {
      IssuedOnce(h.next, d.heap.next, id);
    }
  }

  /** A caller-built string longer than the routine's limit: FREE fails and the block stays. */
  lemma FreeLeaksOverlongString(env: Env, h: Heap)
    ensures var o := OString(At(7), [65, 65, 0]);
            !Free(env, String(1), o, h).ok && Free(env, String(1), o, h).heap == h
  {
    StrLenUnique([65, 65, 0], 2);
  }
}
