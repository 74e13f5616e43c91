/**
 * The message format by itself: the bytes the XDR standard (RFC 4506, section 4) gives an
 * object, with no buffer, cursor or failure. ENCODE produces exactly these bytes.
 */
module WireFormat {
  import opened Words
  import opened XdrObjects
  import opened XdrSpec
  import opened XdrLaws
  import opened XdrFailures
  import opened XdrResend

  /** A 32-bit word, most significant byte first. */
  function BigEndian(w: u32): (s: seq<byte>)
    ensures |s| == 4
  {
    [w / 0x100_0000, w / 0x1_0000 % 0x100, w / 0x100 % 0x100, w % 0x100]
  }

  /** The zero bytes behind `n` bytes of data. */
  function Fill(n: nat): (s: seq<byte>)
    ensures (n + |s|) % 4 == 0
  {
    match n % 4
    case 0 => []
    case 1 => [0, 0, 0]
    case 2 => [0, 0]
    case 3 => [0]
  }

  /** Bytes preceded by their number. */
  function Counted(data: seq<byte>): (s: seq<byte>)
    requires |data| < 0x1_0000_0000
  {
    BigEndian(|data|) + data + Fill(|data|)
  }

  /** Sections 4.1, 4.2, 4.4 and 4.5: every scalar but a hyper takes one word. */
  function ScalarBytes(k: Kind, v: int): (s: seq<byte>)
    requires InRange(k, v)
  {
    match k
    case Int | Short => BigEndian(if v < 0 then v + 0x1_0000_0000 else v)
    case UInt | UShort | UChar => BigEndian(v)
    case Bool => if v == 0 then [0, 0, 0, 0] else [0, 0, 0, 1]
    case Hyper => BigEndian(v / 0x1_0000_0000) + BigEndian(v % 0x1_0000_0000)
  }

  /** Sections 4.9 to 4.14 and 4.19 for the rest. A NULL string has no bytes. */
  function Standard(env: Env, ty: Ty, o: Obj): (s: seq<byte>)
    requires HasTy(env, ty, o) && Sendable(ty, env, o)
    decreases o, 0
  {
    match ty
    case Void => []
    case Scalar(k) => ScalarBytes(k, o.num)
    case Opaque(_) => o.raw + Fill(|o.raw|)
    case Bytes(_) => Counted(if o.buf.Null? then [] else o.data[..o.size])
    case String(_) => if o.str.Null? then [] else Counted(o.chars[..StrLen(o.chars)])
    case Vector(_, t) => StandardAll(env, t, o.items)
    case Array(_, t) => BigEndian(|o.elems|) + StandardAll(env, t, o.elems)
    case Reference(t) => Standard(env, t, o.target)
    case Pointer(name) => if o.ONull? then [0, 0, 0, 0] else [0, 0, 0, 1] + Standard(env, env(name), o.target)
    case Pair(a, b) => Standard(env, a, o.first) + Standard(env, b, o.second)
  }

  function StandardAll(env: Env, ty: Ty, es: seq<Obj>): (s: seq<byte>)
    requires forall e | e in es :: HasTy(env, ty, e) && Sendable(ty, env, e)
    decreases es, 1
  {
    if es == [] then [] else Standard(env, ty, es[0]) + StandardAll(env, ty, es[1..])
  }

  /** No count is over its limit, and no string is NULL. */
  predicate InLimits(env: Env, ty: Ty, o: Obj)
    requires HasTy(env, ty, o) && Sendable(ty, env, o)
    decreases o
  {
    match ty
    case Void | Scalar(_) | Opaque(_) => true
    case Bytes(max) => o.size <= max
    case String(max) => o.str.At? && StrLen(o.chars) <= max
    case Vector(_, t) => forall e | e in o.items :: InLimits(env, t, e)
    case Array(max, t) => |o.elems| <= max && forall e | e in o.elems :: InLimits(env, t, e)
    case Reference(t) => InLimits(env, t, o.target)
    case Pointer(name) => o.OAt? ==> InLimits(env, env(name), o.target)
    case Pair(a, b) => InLimits(env, a, o.first) && InLimits(env, b, o.second)
  }

  predicate AllInLimits(env: Env, ty: Ty, es: seq<Obj>)
    requires forall e | e in es :: HasTy(env, ty, e) && Sendable(ty, env, e)
  {
    forall e | e in es :: InLimits(env, ty, e)
  }

  lemma LimitsOfAll(env: Env, ty: Ty, es: seq<Obj>)
    requires es != [] && forall e | e in es :: HasTy(env, ty, e) && Sendable(ty, env, e)
    ensures AllInLimits(env, ty, es) <==> InLimits(env, ty, es[0]) && AllInLimits(env, ty, es[1..])
  {
    assert forall e | e in es :: e == es[0] || e in es[1..];
  }

  /** What a send of `bytes`, allowed or not, comes to behind `out`. */
  predicate Sends(s: Sent, out: seq<byte>, allowed: bool, bytes: seq<byte>) {
    && (s.ok <==> allowed && |out| + |bytes| <= 18432)
    && (s.ok ==> s.out == out + bytes)
  }

  predicate Aligned(out: seq<byte>) {
    |out| % 4 == 0 && |out| <= MSGSIZE_MAX
  }

  lemma WordSends(out: seq<byte>, w: u32)
    requires Aligned(out)
    ensures Sends(SendWord(out, w), out, true, BigEndian(w))
  {
    WordBytes(w);
  }

  lemma BytesSend(out: seq<byte>, data: seq<byte>)
    requires Aligned(out)
    ensures Sends(SendBytes(out, data), out, true, data + Fill(|data|))
  {
    var n := |out| + |data|;
    assert Zeros(RoundUp(n) - n) == Fill(|data|);
    assert out + data + Fill(|data|) == out + (data + Fill(|data|));
  }

  /** One send after another. */
  lemma ThenSends(
      out: seq<byte>, s: Sent, allowed: bool, bytes: seq<byte>, s': Sent, allowed': bool, bytes': seq<byte>)
    requires Sends(s, out, allowed, bytes)
    requires if s.ok then Sends(s', s.out, allowed', bytes') else !s'.ok
    ensures Sends(s', out, allowed && allowed', bytes + bytes')
  {
    if s'.ok {
      assert out + bytes + bytes' == out + (bytes + bytes');
    }
  }

  lemma ScalarSends(k: Kind, v: int, out: seq<byte>)
    requires InRange(k, v) && Aligned(out)
    ensures Sends(SendWords(out, ScalarWords(k, v)), out, true, ScalarBytes(k, v))
  {
    var ws := ScalarWords(k, v);
    WordSends(out, ws[0]);
    if k == Hyper {
      SendTwoWords(out, ws[0], ws[1]);
      assert ws == [ws[0], ws[1]];
      var s := SendWord(out, ws[0]);
      if s.ok {
        WordSends(s.out, ws[1]);
      }
      ThenSends(out, s, true, BigEndian(ws[0]), SendWords(out, ws), true, BigEndian(ws[1]));
    } else {
      SendOneWord(out, ws[0]);
      assert ws == [ws[0]];
      if k == Int || k == Short {
        TwosComplement(v);
      }
    }
  }

  lemma CountedSends(out: seq<byte>, max: u32, data: seq<byte>, s: Sent)
    requires Aligned(out) && |data| <= LEN_LIMIT
    requires var w := SendWord(out, |data|);
             if w.ok && |data| <= max then s == SendBytes(w.out, data) || (data == [] && s == w) else !s.ok
    ensures Sends(s, out, |data| <= max, Counted(data))
  {
    var w := SendWord(out, |data|);
    WordSends(out, |data|);
    if w.ok {
      BytesSend(w.out, data);
      PaddingNothing(w.out, []);
      ThenSends(out, w, true, BigEndian(|data|), SendBytes(w.out, data), true, data + Fill(|data|));
    }
    assert Counted(data) == BigEndian(|data|) + (data + Fill(|data|));
  }

  lemma LeafSends(env: Env, ty: Ty, o: Obj, out: seq<byte>)
    requires HasTy(env, ty, o) && Sendable(ty, env, o) && Aligned(out)
    requires ty.Void? || ty.Scalar? || ty.Opaque? || ty.Bytes? || ty.String?
    ensures Sends(Enc(env, ty, o, out), out, InLimits(env, ty, o), Standard(env, ty, o))
  {
    match ty
    case Void => assert out + [] == out;
    case Scalar(k) => ScalarSends(k, o.num, out);
    case Opaque(_) => BytesSend(out, o.raw);
    case Bytes(max) => CountedSends(out, max, o.data[..o.size], EncBytes(max, o.size, o.data, out));
    case String(max) =>
      if o.str.At? {
        var text := o.chars[..StrLen(o.chars)];
        CountedSends(out, max, text, EncString(max, o.chars, out));
      }
  }

  /**
   * The format: ENCODE succeeds exactly if no count is over its limit, no string is NULL and the
   * bytes of the standard fit into a message of 18432 bytes, and then it sends those bytes.
   */
  lemma {:induction false} EncIsStandard(env: Env, ty: Ty, o: Obj, out: seq<byte>)
    requires HasTy(env, ty, o) && Sendable(ty, env, o) && Aligned(out)
    ensures Sends(Enc(env, ty, o, out), out, InLimits(env, ty, o), Standard(env, ty, o))
    decreases o, 2
  {
    match ty
    case Vector(_, t) => EncAllIsStandard(env, t, o.items, out);
    case Array(max, t) => ArraySends(env, ty, o, out);
    case Reference(t) => EncIsStandard(env, t, o.target, out);
    case Pointer(name) => PointerSends(env, ty, o, out);
    case Pair(a, b) =>
      var s := Enc(env, a, o.first, out);
      EncIsStandard(env, a, o.first, out);
      EncBounds(env, a, o.first, out);
      if s.ok {
        EncIsStandard(env, b, o.second, s.out);
      }
      ThenSends(out, s, InLimits(env, a, o.first), Standard(env, a, o.first),
                Enc(env, ty, o, out), InLimits(env, b, o.second), Standard(env, b, o.second));
    case _ => LeafSends(env, ty, o, out);
  }

  lemma {:induction false} ArraySends(env: Env, ty: Ty, o: Obj, out: seq<byte>)
    requires HasTy(env, ty, o) && Sendable(ty, env, o) && Aligned(out) && ty.Array?
    ensures Sends(Enc(env, ty, o, out), out, InLimits(env, ty, o), Standard(env, ty, o))
    decreases o, 1
  {
    var n := |o.elems|;
    var s := SendWord(out, n);
    WordSends(out, n);
    if s.ok && n <= ty.max {
      EncAllIsStandard(env, ty.elem, o.elems, s.out);
      ThenSends(out, s, true, BigEndian(n), Enc(env, ty, o, out), AllInLimits(env, ty.elem, o.elems),
                StandardAll(env, ty.elem, o.elems));
    }
  }

  lemma {:induction false} PointerSends(env: Env, ty: Ty, o: Obj, out: seq<byte>)
    requires HasTy(env, ty, o) && Sendable(ty, env, o) && Aligned(out) && ty.Pointer?
    ensures Sends(Enc(env, ty, o, out), out, InLimits(env, ty, o), Standard(env, ty, o))
    decreases o, 1
  {
    var present: u32 := if o.ONull? then 0 else 1;
    var s := SendWord(out, present);
    WordSends(out, present);
    if o.OAt? {
      var t := env(ty.name);
      if s.ok {
        EncIsStandard(env, t, o.target, s.out);
      }
      ThenSends(out, s, true, BigEndian(1), Enc(env, ty, o, out), InLimits(env, t, o.target),
                Standard(env, t, o.target));
    }
  }

  lemma {:induction false} EncAllIsStandard(env: Env, ty: Ty, es: seq<Obj>, out: seq<byte>)
    requires forall e | e in es :: HasTy(env, ty, e) && Sendable(ty, env, e)
    requires Aligned(out)
    ensures Sends(EncAll(env, ty, es, out), out, AllInLimits(env, ty, es), StandardAll(env, ty, es))
    decreases es, 1
  {
    if es == [] {
      assert out + [] == out;
    } else {
      var s := Enc(env, ty, es[0], out);
      EncIsStandard(env, ty, es[0], out);
      EncBounds(env, ty, es[0], out);
      if s.ok {
        EncAllIsStandard(env, ty, es[1..], s.out);
      }
      LimitsOfAll(env, ty, es);
      ThenSends(out, s, InLimits(env, ty, es[0]), Standard(env, ty, es[0]), EncAll(env, ty, es, out),
                AllInLimits(env, ty, es[1..]), StandardAll(env, ty, es[1..]));
    }
  }

  // ----- What DECODE accepts -----

  /**
   * Wherever a message holds the standard bytes of an object at a word boundary, DECODE returns
   * that object's value and stops right behind them, or an allocation fails.
   */
  lemma StandardIsReceived(env: Env, ty: Ty, m: Malloc, o: Obj, z: Obj, inp: seq<byte>, pos: nat, h: Heap)
    requires HasTy(env, ty, o) && Sendable(ty, env, o) && InLimits(env, ty, o) && Blank(env, ty, z)
    requires pos % 4 == 0 && pos + |Standard(env, ty, o)| <= |inp| <= MSGSIZE_MAX
    requires inp[pos..pos + |Standard(env, ty, o)|] == Standard(env, ty, o)
    ensures var r := Dec(env, ty, m, z, inp, pos, h);
            if r.ok then Reproduces(env, ty, o, pos + |Standard(env, ty, o)|, r) else MayFail(m)
  {
    EncIsStandard(env, ty, o, inp[..pos]);
    RoundTripUnlessFailing(env, ty, m, o, inp[..pos], z, inp, h);
  }

  /** Which number a received word stands for. */
  lemma ScalarsRead(k: Kind, w: u32)
    requires k != Hyper
    ensures var v := ScalarOf(k, w);
            match k
            case Int => v == if w < 0x8000_0000 then w else w - 0x1_0000_0000
            case UInt => v == w
            case Short => v == if w % 0x1_0000 < 0x8000 then w % 0x1_0000 else w % 0x1_0000 - 0x1_0000
            case UShort => v == w % 0x1_0000
            case UChar => v == w % 0x100
            case Bool => v == if w == 0 then 0 else 1
  {
    LowHalf(w);
  }

  /** The low half of a word does not depend on the sign its high half gives it. */
  lemma LowHalf(w: u32)
    ensures Signed32(w) % 0x1_0000 == w % 0x1_0000
  {
    if w >= 0x8000_0000 {
      assert w == 0x1_0000 * (w / 0x1_0000) + w % 0x1_0000;
      assert Signed32(w) == 0x1_0000 * (w / 0x1_0000 - 0x1_0000) + w % 0x1_0000;
    }
  }

  /** A count over its limit is refused when it is read: it is stored, but for strings, and no more. */
  lemma OverLimitIsRefused(env: Env, ty: Ty, m: Malloc, o: Obj, inp: seq<byte>, pos: nat, h: Heap)
    requires Blank(env, ty, o) && (ty.Bytes? || ty.String? || ty.Array?)
    requires HasWord(inp, pos) && WordAt(inp, pos) > ty.max
    ensures var n := WordAt(inp, pos);
            var left := match ty
                        case Bytes(_) => OBytes(n, Null, [])
                        case Array(_, _) => OArray(n, Null, [])
                        case _ => o;
            Dec(env, ty, m, o, inp, pos, h) == Got(false, left, pos + 4, h)
  {
    if ty.Array? {
      assert Dec(env, ty, m, o, inp, pos, h) == DecArray(env, ty.elem, ty.max, m, o, inp, pos, h);
    }
  }

  /** What was received obeys every limit, exactly if no string was left NULL. */
  lemma {:induction false} DecodedIsInLimits(env: Env, ty: Ty, m: Malloc, o: Obj, inp: seq<byte>, pos: nat, h: Heap)
    requires Blank(env, ty, o) && Dec(env, ty, m, o, inp, pos, h).ok
    ensures var d := Dec(env, ty, m, o, inp, pos, h).obj;
            Sendable(ty, env, d) && (InLimits(env, ty, d) <==> StringsThere(env, ty, d))
    decreases Left(inp, pos), ty, 0
  {
    match ty
    case Vector(_, t) => DecodedAreInLimits(env, t, m, o.items, inp, pos, h);
    case Array(_, t) =>
      var c := WordAt(inp, pos);
      if c > 0 {
        OwnedOfCopies(Zero(env, t), c);
        DecodedAreInLimits(env, t, m, Copies(Zero(env, t), c), inp, pos + 4, Alloc(m, h).1);
      }
    case Reference(t) => DecodedIsInLimits(env, t, m, Zero(env, t), inp, pos, Alloc(m, h).1);
    case Pointer(name) =>
      if WordAt(inp, pos) != 0 {
        var t := env(name);
        DecodedIsInLimits(env, t, m, Zero(env, t), inp, pos + 4, Alloc(m, h).1);
      }
    case Pair(a, b) =>
      DecodedIsInLimits(env, a, m, o.first, inp, pos, h);
      var r := Dec(env, a, m, o.first, inp, pos, h);
      DecodedIsInLimits(env, b, m, o.second, inp, r.pos, r.heap);
    case _ =>
  }

  lemma {:induction false} DecodedAreInLimits(
      env: Env, ty: Ty, m: Malloc, es: seq<Obj>, inp: seq<byte>, pos: nat, h: Heap)
    requires BlankAll(env, ty, es) && DecAll(env, ty, m, es, inp, pos, h).ok
    ensures forall e | e in DecAll(env, ty, m, es, inp, pos, h).objs ::
              Sendable(ty, env, e) && (InLimits(env, ty, e) <==> StringsThere(env, ty, e))
    decreases Left(inp, pos), ty, 1 + |es|
  {
    if es != [] {
      OwnedByNone(es);
      DecodedIsInLimits(env, ty, m, es[0], inp, pos, h);
      var r := Dec(env, ty, m, es[0], inp, pos, h);
      DecodedAreInLimits(env, ty, m, es[1..], inp, r.pos, r.heap);
    }
  }
}
