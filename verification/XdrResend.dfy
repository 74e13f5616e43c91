/** Sending again what was received: whatever DECODE accepts, ENCODE accepts if it fits. */
module XdrResend {
  import opened Words
  import opened XdrObjects
  import opened XdrSpec
  import opened XdrLaws

  /** No string in the object is NULL. */
  predicate StringsThere(env: Env, ty: Ty, o: Obj)
    requires HasTy(env, ty, o)
    decreases o
  {
    match ty
    case Void | Scalar(_) | Opaque(_) | Bytes(_) => true
    case String(_) => o.str.At?
    case Vector(_, t) => forall e | e in o.items :: StringsThere(env, t, e)
    case Array(_, t) => forall e | e in o.elems :: StringsThere(env, t, e)
    case Reference(t) => o.OAt? ==> StringsThere(env, t, o.target)
    case Pointer(name) => o.OAt? ==> StringsThere(env, env(name), o.target)
    case Pair(a, b) => StringsThere(env, a, o.first) && StringsThere(env, b, o.second)
  }

  /** ENCODE never succeeds on an object with a NULL string. */
  lemma {:induction false} SentStringsAreThere(env: Env, ty: Ty, o: Obj, out: seq<byte>)
    requires HasTy(env, ty, o) && Sendable(ty, env, o) && Enc(env, ty, o, out).ok
    ensures StringsThere(env, ty, o)
    decreases o, 0
  {
    match ty
    case Vector(_, t) => AllSentStringsAreThere(env, t, o.items, out);
    case Array(_, t) => AllSentStringsAreThere(env, t, o.elems, SendWord(out, o.used).out);
    case Reference(t) => SentStringsAreThere(env, t, o.target, out);
    case Pointer(name) =>
      if o.OAt? {
        SentStringsAreThere(env, env(name), o.target, SendWord(out, 1).out);
      }
    case Pair(a, b) =>
      SentStringsAreThere(env, a, o.first, out);
      SentStringsAreThere(env, b, o.second, Enc(env, a, o.first, out).out);
    case _ =>
  }

  lemma {:induction false} AllSentStringsAreThere(env: Env, ty: Ty, es: seq<Obj>, out: seq<byte>)
    requires forall e | e in es :: HasTy(env, ty, e) && Sendable(ty, env, e)
    requires EncAll(env, ty, es, out).ok
    ensures forall e | e in es :: StringsThere(env, ty, e)
    decreases es, 1
  {
    if es != [] {
      SentStringsAreThere(env, ty, es[0], out);
      AllSentStringsAreThere(env, ty, es[1..], Enc(env, ty, es[0], out).out);
    }
  }

  /** There is room behind `out` for what was received from `pos` to `end`. */
  predicate Room(out: seq<byte>, pos: nat, end: nat) {
    |out| % 4 == 0 && pos % 4 == 0 && pos <= end && |out| + (end - pos) <= MSGSIZE_MAX
  }

  /** What was sent takes no more than what was received, and both ended word-aligned. */
  predicate Within(e: Sent, out: seq<byte>, pos: nat, end: nat) {
    e.ok && |e.out| % 4 == 0 && pos <= end && end % 4 == 0 && |e.out| <= |out| + (end - pos)
  }

  /** `d`, received from `pos` on, is whole, and there is room for it. */
  predicate MayResend(env: Env, ty: Ty, d: Got, pos: nat, out: seq<byte>)
    requires HasTy(env, ty, d.obj)
  {
    d.ok && StringsThere(env, ty, d.obj) && Room(out, pos, d.pos)
  }

  predicate Resent(env: Env, ty: Ty, d: Got, pos: nat, out: seq<byte>)
    requires HasTy(env, ty, d.obj)
  {
    Sendable(ty, env, d.obj) && Within(Enc(env, ty, d.obj, out), out, pos, d.pos)
  }

  lemma LeafIsSent(env: Env, ty: Ty, m: Malloc, o: Obj, inp: seq<byte>, pos: nat, h: Heap, out: seq<byte>)
    requires Blank(env, ty, o)
    requires ty.Void? || ty.Scalar? || ty.Opaque? || ty.Bytes? || ty.String?
    requires MayResend(env, ty, Dec(env, ty, m, o, inp, pos, h), pos, out)
    ensures Resent(env, ty, Dec(env, ty, m, o, inp, pos, h), pos, out)
  {
    match ty
    case Void =>
    case Scalar(k) =>
      var r := DecScalar(k, o.num, inp, pos);
      ScalarIsSent(k, r.num, out, r.pos - pos);
    case Opaque(n) =>
      if n > 0 {
        OpaqueIsSent(inp[pos..pos + n], out, pos);
      }
    case Bytes(max) => CountedBytesAreSent(max, m, o, inp, pos, h, out);
    case String(max) => DecodedStringIsSent(max, m, o, inp, pos, h, out);
  }

  /** Bytes take as much room when sent as when received, or less if they are fewer. */
  lemma BytesAreSent(out: seq<byte>, data: seq<byte>, pos: nat, end: nat)
    requires Room(out, pos, end) && end % 4 == 0 && pos + |data| <= end
    ensures Within(SendBytes(out, data), out, pos, end)
  {
    RoundUpWithin(|out| + |data|, |out| + (end - pos));
  }

  lemma OpaqueIsSent(data: seq<byte>, out: seq<byte>, pos: nat)
    requires Room(out, pos, RoundUp(pos + |data|))
    ensures Within(SendBytes(out, data), out, pos, RoundUp(pos + |data|))
  {
    BytesAreSent(out, data, pos, RoundUp(pos + |data|));
  }

  lemma RoundUpWithin(n: nat, limit: nat)
    requires n <= limit && limit % 4 == 0
    ensures RoundUp(n) <= limit && RoundUp(n) % 4 == 0
  {
  }

  lemma CountedBytesAreSent(max: u32, m: Malloc, z: Obj, inp: seq<byte>, pos: nat, h: Heap, out: seq<byte>)
    requires z.OBytes? && z.buf.Null? && z.data == []
    requires var r := DecBytes(max, m, z, inp, pos, h); r.ok && Room(out, pos, r.pos)
    ensures var r := DecBytes(max, m, z, inp, pos, h);
            && r.obj.size <= |r.obj.data|
            && Within(EncBytes(max, r.obj.size, r.obj.data, out), out, pos, r.pos)
  {
    var r, size := DecBytes(max, m, z, inp, pos, h), WordAt(inp, pos);
    RoundUpWithin(pos + 4, pos + 4);
    BytesAreSent(out + Word(size), r.obj.data[..size], pos + 4, r.pos);
  }

  lemma ScalarIsSent(k: Kind, v: int, out: seq<byte>, room: nat)
    requires InRange(k, v) && |out| % 4 == 0 && |out| + room <= MSGSIZE_MAX
    requires room == if k == Hyper then 8 else 4
    ensures var s := SendWords(out, ScalarWords(k, v)); s.ok && |s.out| == |out| + room
  {
    var ws := ScalarWords(k, v);
    if k == Hyper {
      SendTwoWords(out, ws[0], ws[1]);
      assert ws == [ws[0], ws[1]];
    } else {
      SendOneWord(out, ws[0]);
      assert ws == [ws[0]];
    }
  }

  /** What a decoded string looks like in memory, and where the cursor is behind it. */
  lemma ReceivedString(max: u32, m: Malloc, z: Obj, inp: seq<byte>, pos: nat, h: Heap)
    requires z == OString(Null, [])
    requires var r := DecString(max, m, z, inp, pos, h); r.ok && r.obj.str.At?
    ensures var r := DecString(max, m, z, inp, pos, h);
            && HasWord(inp, pos)
            && var size := WordAt(inp, pos);
               && size <= max && |r.obj.chars| == size + 1 && r.obj.chars[size] == 0
               && r.pos == if size == 0 then pos + 4 else RoundUp(pos + 4 + size)
  {
  }

  /** A string with a NUL inside is sent up to that NUL. */
  lemma StringIsSent(max: u32, chars: seq<byte>, size: u32, out: seq<byte>, pos: nat, end: nat)
    requires |chars| == size + 1 <= LEN_LIMIT && chars[size] == 0 && size <= max
    requires Room(out, pos, end) && end % 4 == 0 && pos + 4 + size <= end
    ensures Within(EncString(max, chars, out), out, pos, end)
  {
    var n := StrLen(chars);
    assert n <= size;
    if n > 0 {
      BytesAreSent(out + Word(n), chars[..n], pos + 4, end);
    }
  }

  lemma DecodedStringIsSent(max: u32, m: Malloc, z: Obj, inp: seq<byte>, pos: nat, h: Heap, out: seq<byte>)
    requires z == OString(Null, [])
    requires var r := DecString(max, m, z, inp, pos, h); r.ok && r.obj.str.At? && Room(out, pos, r.pos)
    ensures var r := DecString(max, m, z, inp, pos, h);
            Within(EncString(max, r.obj.chars, out), out, pos, r.pos)
  {
    ReceivedString(max, m, z, inp, pos, h);
    var r := DecString(max, m, z, inp, pos, h);
    StringIsSent(max, r.obj.chars, WordAt(inp, pos), out, pos, r.pos);
  }

  /** Whatever is decoded with its strings there is encoded again, if there is room. */
  lemma {:induction false} DecodedIsSent(
      env: Env, ty: Ty, m: Malloc, o: Obj, inp: seq<byte>, pos: nat, h: Heap, out: seq<byte>)
    requires Blank(env, ty, o)
    requires MayResend(env, ty, Dec(env, ty, m, o, inp, pos, h), pos, out)
    ensures Resent(env, ty, Dec(env, ty, m, o, inp, pos, h), pos, out)
    decreases Left(inp, pos), ty, 1
  {
    match ty
    case Vector(_, t) => DecodedAreSent(env, t, m, o.items, inp, pos, h, out);
    case Array(max, t) =>
      assert Dec(env, ty, m, o, inp, pos, h) == DecArray(env, t, max, m, o, inp, pos, h);
      ArrayIsSent(env, t, max, m, o, inp, pos, h, out);
    case Reference(t) =>
      assert Dec(env, ty, m, o, inp, pos, h) == DecReference(env, t, m, inp, pos, h);
      ReferenceIsSent(env, t, m, inp, pos, h, out);
    case Pointer(name) => PointerIsSent(env, name, m, inp, pos, h, out);
    case Pair(a, b) => PairIsSent(env, a, b, m, o, inp, pos, h, out);
    case _ => LeafIsSent(env, ty, m, o, inp, pos, h, out);
  }

  lemma {:induction false} ArrayIsSent(
      env: Env, t: Ty, max: u32, m: Malloc, o: Obj, inp: seq<byte>, pos: nat, h: Heap, out: seq<byte>)
    requires Blank(env, Array(max, t), o)
    requires MayResend(env, Array(max, t), DecArray(env, t, max, m, o, inp, pos, h), pos, out)
    ensures Resent(env, Array(max, t), DecArray(env, t, max, m, o, inp, pos, h), pos, out)
    decreases Left(inp, pos), Array(max, t), 0
  {
    var c := WordAt(inp, pos);
    if c > 0 {
      ReceivedElements(env, t, max, m, o, inp, pos, h);
      OwnedOfCopies(Zero(env, t), c);
      var d := DecArray(env, t, max, m, o, inp, pos, h);
      ElementsMove(env, t, max, d, pos, out);
      DecodedAreSent(env, t, m, Copies(Zero(env, t), c), inp, pos + 4, Alloc(m, h).1, out + Word(c));
    }
  }

  /** The count moves the room for the elements, and sending a counted array is sending both. */
  lemma ElementsMove(env: Env, t: Ty, max: u32, d: Got, pos: nat, out: seq<byte>)
    requires HasTy(env, Array(max, t), d.obj) && d.obj.used <= max && d.obj.arr.At?
    requires MayResend(env, Array(max, t), d, pos, out) && pos + 4 <= d.pos
    ensures Room(out + Word(d.obj.used), pos + 4, d.pos)
    ensures (forall e | e in d.obj.elems :: Sendable(t, env, e)) ==>
              && Sendable(Array(max, t), env, d.obj)
              && Enc(env, Array(max, t), d.obj, out) == EncAll(env, t, d.obj.elems, out + Word(d.obj.used))
  {
  }

  /** A non-empty array received holds the elements received into the block allocated for it. */
  lemma ReceivedElements(
      env: Env, t: Ty, max: u32, m: Malloc, o: Obj, inp: seq<byte>, pos: nat, h: Heap)
    requires Blank(env, Array(max, t), o)
    requires DecArray(env, t, max, m, o, inp, pos, h).ok && WordAt(inp, pos) > 0
    ensures var c, (p, h') := WordAt(inp, pos), Alloc(m, h);
            && c <= max && p.At? && BlankAll(env, t, Copies(Zero(env, t), c))
            && var r := DecAll(env, t, m, Copies(Zero(env, t), c), inp, pos + 4, h');
               r.ok && DecArray(env, t, max, m, o, inp, pos, h) == Got(true, OArray(c, p, r.objs), r.pos, r.heap)
  {
    OwnedOfCopies(Zero(env, t), WordAt(inp, pos));
  }

  /** A reference received holds the target received into the block allocated for it. */
  lemma ReceivedTarget(env: Env, t: Ty, m: Malloc, inp: seq<byte>, pos: nat, h: Heap)
    requires DecReference(env, t, m, inp, pos, h).ok
    ensures var (p, h') := Alloc(m, h);
            var d := Dec(env, t, m, Zero(env, t), inp, pos, h');
            p.At? && DecReference(env, t, m, inp, pos, h) == Got(true, OAt(p.id, d.obj), d.pos, d.heap) && d.ok
  {
  }

  lemma {:induction false} ReferenceIsSent(
      env: Env, t: Ty, m: Malloc, inp: seq<byte>, pos: nat, h: Heap, out: seq<byte>)
    requires MayResend(env, Reference(t), DecReference(env, t, m, inp, pos, h), pos, out)
    ensures Resent(env, Reference(t), DecReference(env, t, m, inp, pos, h), pos, out)
    decreases Left(inp, pos), Reference(t), 0
  {
    ReceivedTarget(env, t, m, inp, pos, h);
    DecodedIsSent(env, t, m, Zero(env, t), inp, pos, Alloc(m, h).1, out);
  }

  lemma {:induction false} PointerIsSent(
      env: Env, name: string, m: Malloc, inp: seq<byte>, pos: nat, h: Heap, out: seq<byte>)
    requires MayResend(env, Pointer(name), Dec(env, Pointer(name), m, ONull, inp, pos, h), pos, out)
    ensures Resent(env, Pointer(name), Dec(env, Pointer(name), m, ONull, inp, pos, h), pos, out)
    decreases Left(inp, pos), Pointer(name), 0
  {
    var d := Dec(env, Pointer(name), m, ONull, inp, pos, h);
    if WordAt(inp, pos) != 0 {
      assert d == DecReference(env, env(name), m, inp, pos + 4, h);
      ReceivedTarget(env, env(name), m, inp, pos + 4, h);
      var head := SendWord(out, 1).out;
      assert head == out + Word(1);
      DecodedIsSent(env, env(name), m, Zero(env, env(name)), inp, pos + 4, Alloc(m, h).1, head);
    }
  }

  lemma {:induction false} PairIsSent(
      env: Env, a: Ty, b: Ty, m: Malloc, o: Obj, inp: seq<byte>, pos: nat, h: Heap, out: seq<byte>)
    requires Blank(env, Pair(a, b), o)
    requires MayResend(env, Pair(a, b), Dec(env, Pair(a, b), m, o, inp, pos, h), pos, out)
    ensures Resent(env, Pair(a, b), Dec(env, Pair(a, b), m, o, inp, pos, h), pos, out)
    decreases Left(inp, pos), Pair(a, b), 0
  {
    var r := Dec(env, a, m, o.first, inp, pos, h);
    DecodedIsSent(env, a, m, o.first, inp, pos, h, out);
    DecodedIsSent(env, b, m, o.second, inp, r.pos, r.heap, Enc(env, a, r.obj, out).out);
  }

  lemma {:induction false} DecodedAreSent(
      env: Env, ty: Ty, m: Malloc, es: seq<Obj>, inp: seq<byte>, pos: nat, h: Heap, out: seq<byte>)
    requires BlankAll(env, ty, es) && DecAll(env, ty, m, es, inp, pos, h).ok
    requires var r := DecAll(env, ty, m, es, inp, pos, h);
             (forall e | e in r.objs :: StringsThere(env, ty, e)) && Room(out, pos, r.pos)
    ensures var r := DecAll(env, ty, m, es, inp, pos, h);
            && (forall e | e in r.objs :: Sendable(ty, env, e))
            && Within(EncAll(env, ty, r.objs, out), out, pos, r.pos)
    decreases Left(inp, pos), ty, 2 + |es|
  {
    if es != [] {
      OwnedByNone(es);
      var r := Dec(env, ty, m, es[0], inp, pos, h);
      var s := DecAll(env, ty, m, es[1..], inp, r.pos, r.heap);
      assert ([r.obj] + s.objs)[1..] == s.objs;
      assert forall e | e in s.objs :: e in [r.obj] + s.objs;
      DecodedIsSent(env, ty, m, es[0], inp, pos, h, out);
      DecodedAreSent(env, ty, m, es[1..], inp, r.pos, r.heap, Enc(env, ty, r.obj, out).out);
    }
  }

  /**
   * Converse of the round trip: given room, an object decoded from any message is encoded
   * exactly if none of its strings is NULL, and decoding that encoding gives its value again.
   */
  lemma DecodeEncodeDecode(
      env: Env, ty: Ty, m: Malloc, o: Obj, inp: seq<byte>, pos: nat, h: Heap,
      out: seq<byte>, m': Malloc, inp': seq<byte>, h': Heap)
    requires Blank(env, ty, o) && Dec(env, ty, m, o, inp, pos, h).ok
    requires Room(out, pos, Dec(env, ty, m, o, inp, pos, h).pos)
    requires forall i: nat :: !m'.fails(i)
    ensures var d := Dec(env, ty, m, o, inp, pos, h);
            && Sendable(ty, env, d.obj)
            && var e := Enc(env, ty, d.obj, out);
               && (e.ok <==> StringsThere(env, ty, d.obj))
               && (e.ok && Carries(inp', |out|, e.out) ==>
                     Reproduces(env, ty, d.obj, |e.out|, Dec(env, ty, m', o, inp', |out|, h')))
  {
    DecodedIsSendable(env, ty, m, o, inp, pos, h);
    var d := Dec(env, ty, m, o, inp, pos, h);
    var e := Enc(env, ty, d.obj, out);
    if StringsThere(env, ty, d.obj) {
      DecodedIsSent(env, ty, m, o, inp, pos, h, out);
    }
    if e.ok {
      SentStringsAreThere(env, ty, d.obj, out);
      if Carries(inp', |out|, e.out) {
        RoundTrip(env, ty, m', d.obj, out, o, inp', h');
      }
    }
  }

  // ----- When the strings are there -----

  /** Every string routine has a limit below 2^32 - 1. */
  predicate Limited(ty: Ty) {
    match ty
    case Void | Scalar(_) | Opaque(_) | Bytes(_) | Pointer(_) => true
    case String(max) => max < U32_SIZE - 1
    case Vector(_, t) => Limited(t)
    case Array(_, t) => Limited(t)
    case Reference(t) => Limited(t)
    case Pair(a, b) => Limited(a) && Limited(b)
  }

  /** With limits, every string of a decoded object is there. */
  lemma {:induction false} LimitedStringsAreThere(
      env: Env, ty: Ty, m: Malloc, o: Obj, inp: seq<byte>, pos: nat, h: Heap)
    requires Blank(env, ty, o) && Dec(env, ty, m, o, inp, pos, h).ok
    requires Limited(ty) && forall name :: Limited(env(name))
    ensures StringsThere(env, ty, Dec(env, ty, m, o, inp, pos, h).obj)
    decreases Left(inp, pos), ty, 0
  {
    match ty
    case String(max) => DecodedStringIsNullIff(max, m, o, inp, pos, h);
    case Vector(_, t) => AllLimitedStringsAreThere(env, t, m, o.items, inp, pos, h);
    case Array(_, t) =>
      var c := WordAt(inp, pos);
      if c > 0 {
        OwnedOfCopies(Zero(env, t), c);
        AllLimitedStringsAreThere(env, t, m, Copies(Zero(env, t), c), inp, pos + 4, Alloc(m, h).1);
      }
    case Reference(t) => LimitedStringsAreThere(env, t, m, Zero(env, t), inp, pos, Alloc(m, h).1);
    case Pointer(name) =>
      if WordAt(inp, pos) != 0 {
        var t := env(name);
        LimitedStringsAreThere(env, t, m, Zero(env, t), inp, pos + 4, Alloc(m, h).1);
      }
    case Pair(a, b) =>
      LimitedStringsAreThere(env, a, m, o.first, inp, pos, h);
      var r := Dec(env, a, m, o.first, inp, pos, h);
      LimitedStringsAreThere(env, b, m, o.second, inp, r.pos, r.heap);
    case _ =>
  }

  lemma {:induction false} AllLimitedStringsAreThere(
      env: Env, ty: Ty, m: Malloc, es: seq<Obj>, inp: seq<byte>, pos: nat, h: Heap)
    requires BlankAll(env, ty, es) && DecAll(env, ty, m, es, inp, pos, h).ok
    requires Limited(ty) && forall name :: Limited(env(name))
    ensures forall e | e in DecAll(env, ty, m, es, inp, pos, h).objs :: StringsThere(env, ty, e)
    decreases Left(inp, pos), ty, 1 + |es|
  {
    if es != [] {
      OwnedByNone(es);
      LimitedStringsAreThere(env, ty, m, es[0], inp, pos, h);
      var r := Dec(env, ty, m, es[0], inp, pos, h);
      AllLimitedStringsAreThere(env, ty, m, es[1..], inp, r.pos, r.heap);
    }
  }
}
