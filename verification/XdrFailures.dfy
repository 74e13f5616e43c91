/** Decoding when allocations may fail: it fails, or nothing is different. */
module XdrFailures {
  import opened Words
  import opened XdrObjects
  import opened XdrSpec
  import opened XdrLaws

  ghost predicate MayFail(m: Malloc) {
    exists i: nat :: m.fails(i)
  }

  /** The same allocator, as it is when it has memory. */
  function Unfailing(m: Malloc): Malloc {
    m.(fails := (i: nat) => false)
  }

  /** A decode that succeeds did not meet a failing allocation, so it is as if none could fail. */
  lemma {:induction false} SameIfDecoded(
      env: Env, ty: Ty, m: Malloc, o: Obj, inp: seq<byte>, pos: nat, h: Heap)
    requires Blank(env, ty, o) && Dec(env, ty, m, o, inp, pos, h).ok
    ensures Dec(env, ty, Unfailing(m), o, inp, pos, h) == Dec(env, ty, m, o, inp, pos, h)
    decreases Left(inp, pos), ty, 1
  {
    match ty
    case Vector(_, t) => SameIfAllDecoded(env, t, m, o.items, inp, pos, h);
    case Array(max, t) =>
      assert Dec(env, ty, m, o, inp, pos, h) == DecArray(env, t, max, m, o, inp, pos, h);
      SameIfArrayDecoded(env, t, max, m, o, inp, pos, h);
    case Reference(t) =>
      assert Dec(env, ty, m, o, inp, pos, h) == DecReference(env, t, m, inp, pos, h);
      SameIfDecoded(env, t, m, Zero(env, t), inp, pos, Alloc(m, h).1);
    case Pointer(name) =>
      if WordAt(inp, pos) != 0 {
        var t := env(name);
        assert Dec(env, ty, m, o, inp, pos, h) == DecReference(env, t, m, inp, pos + 4, h);
        SameIfDecoded(env, t, m, Zero(env, t), inp, pos + 4, Alloc(m, h).1);
      }
    case Pair(a, b) =>
      SameIfDecoded(env, a, m, o.first, inp, pos, h);
      var r := Dec(env, a, m, o.first, inp, pos, h);
      SameIfDecoded(env, b, m, o.second, inp, r.pos, r.heap);
    case _ =>
  }

  lemma {:induction false} SameIfArrayDecoded(
      env: Env, t: Ty, max: u32, m: Malloc, o: Obj, inp: seq<byte>, pos: nat, h: Heap)
    requires Blank(env, Array(max, t), o) && DecArray(env, t, max, m, o, inp, pos, h).ok
    ensures DecArray(env, t, max, Unfailing(m), o, inp, pos, h) == DecArray(env, t, max, m, o, inp, pos, h)
    decreases Left(inp, pos), Array(max, t), 0
  {
    var c := WordAt(inp, pos);
    if c > 0 {
      OwnedOfCopies(Zero(env, t), c);
      SameIfAllDecoded(env, t, m, Copies(Zero(env, t), c), inp, pos + 4, Alloc(m, h).1);
    }
  }

  lemma {:induction false} SameIfAllDecoded(
      env: Env, ty: Ty, m: Malloc, es: seq<Obj>, inp: seq<byte>, pos: nat, h: Heap)
    requires BlankAll(env, ty, es) && DecAll(env, ty, m, es, inp, pos, h).ok
    ensures DecAll(env, ty, Unfailing(m), es, inp, pos, h) == DecAll(env, ty, m, es, inp, pos, h)
    decreases Left(inp, pos), ty, 2 + |es|
  {
    if es != [] {
      OwnedByNone(es);
      SameIfDecoded(env, ty, m, es[0], inp, pos, h);
      var r := Dec(env, ty, m, es[0], inp, pos, h);
      SameIfAllDecoded(env, ty, m, es[1..], inp, r.pos, r.heap);
    }
  }

  /**
   * The round trip with any allocator: DECODE of what ENCODE wrote reproduces it, or fails, and
   * that only if allocations can fail.
   */
  lemma RoundTripUnlessFailing(
      env: Env, ty: Ty, m: Malloc, o: Obj, out: seq<byte>, z: Obj, inp: seq<byte>, h: Heap)
    requires HasTy(env, ty, o) && Sendable(ty, env, o) && Blank(env, ty, z)
    requires |out| % 4 == 0 && |out| <= MSGSIZE_MAX
    requires Enc(env, ty, o, out).ok && Carries(inp, |out|, Enc(env, ty, o, out).out)
    ensures var r := Dec(env, ty, m, z, inp, |out|, h);
            if r.ok then Reproduces(env, ty, o, |Enc(env, ty, o, out).out|, r) else MayFail(m)
  {
    if Dec(env, ty, m, z, inp, |out|, h).ok {
      SameIfDecoded(env, ty, m, z, inp, |out|, h);
      RoundTrip(env, ty, Unfailing(m), o, out, z, inp, h);
    } else if !MayFail(m) {
      RoundTrip(env, ty, m, o, out, z, inp, h);
    }
  }
}
