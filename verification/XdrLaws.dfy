/** The laws of the XDR routines: round trip, and conservation of the heap. */
module XdrLaws {
  import opened Words
  import opened XdrObjects
  import opened XdrSpec

  // ----- Shape of the output -----

  lemma {:induction false} SendWordsBounds(out: seq<byte>, ws: seq<u32>)
    requires |out| % 4 == 0 && |out| <= MSGSIZE_MAX
    ensures var r := SendWords(out, ws).out; |r| % 4 == 0 && |r| <= MSGSIZE_MAX
    decreases |ws|
  {
    if ws != [] && SendWord(out, ws[0]).ok {
      SendWordsBounds(out + Word(ws[0]), ws[1..]);
    }
  }

  /** Every send keeps the cursor word-aligned and inside the buffer, whether it succeeds or not. */
  lemma {:induction false} EncBounds(env: Env, ty: Ty, o: Obj, out: seq<byte>)
    requires HasTy(env, ty, o) && Sendable(ty, env, o)
    requires |out| % 4 == 0 && |out| <= MSGSIZE_MAX
    ensures var r := Enc(env, ty, o, out).out; |r| % 4 == 0 && |r| <= MSGSIZE_MAX
    decreases o, 0
  {
    match ty
    case Scalar(k) => SendWordsBounds(out, ScalarWords(k, o.num));
    case Vector(_, t) => EncAllBounds(env, t, o.items, out);
    case Array(_, t) => EncAllBounds(env, t, o.elems, SendWord(out, o.used).out);
    case Reference(t) => EncBounds(env, t, o.target, out);
    case Pointer(name) =>
      if o.OAt? {
        EncBounds(env, env(name), o.target, SendWord(out, 1).out);
      }
    case Pair(a, b) =>
      EncBounds(env, a, o.first, out);
      EncBounds(env, b, o.second, Enc(env, a, o.first, out).out);
    case _ =>
  }

  lemma {:induction false} EncAllBounds(env: Env, ty: Ty, es: seq<Obj>, out: seq<byte>)
    requires forall e | e in es :: HasTy(env, ty, e) && Sendable(ty, env, e)
    requires |out| % 4 == 0 && |out| <= MSGSIZE_MAX
    ensures var r := EncAll(env, ty, es, out).out; |r| % 4 == 0 && |r| <= MSGSIZE_MAX
    decreases es, 1
  {
    if es != [] {
      EncBounds(env, ty, es[0], out);
      EncAllBounds(env, ty, es[1..], Enc(env, ty, es[0], out).out);
    }
  }

  // ----- Round trip -----

  /** From offset `from` on, the received message agrees with the sent bytes `sent`. */
  predicate Carries(inp: seq<byte>, from: nat, sent: seq<byte>) {
    from <= |sent| <= |inp| && inp[from..|sent|] == sent[from..]
  }

  lemma CarriesPart(inp: seq<byte>, from: nat, mid: seq<byte>, sent: seq<byte>)
    requires Carries(inp, from, sent) && from <= |mid| && mid <= sent
    ensures Carries(inp, from, mid) && Carries(inp, |mid|, sent)
  {
    assert inp[from..|mid|] == inp[from..|sent|][..|mid| - from];
    assert inp[|mid|..|sent|] == inp[from..|sent|][|mid| - from..];
  }

  lemma WordCarried(inp: seq<byte>, out: seq<byte>, w: u32, sent: seq<byte>)
    requires out + Word(w) <= sent && Carries(inp, |out|, sent)
    ensures HasWord(inp, |out|) && WordAt(inp, |out|) == w
    ensures Carries(inp, |out| + 4, sent)
  {
    CarriesPart(inp, |out|, out + Word(w), sent);
    assert (out + Word(w))[|out|..] == Word(w);
    UnwordOfWord(w);
  }

  lemma BytesCarried(inp: seq<byte>, out: seq<byte>, data: seq<byte>)
    requires Carries(inp, |out|, Padded(out + data))
    ensures HasBytes(inp, |out|, |data|) && inp[|out|..|out| + |data|] == data
  {
    CarriesPart(inp, |out|, out + data, Padded(out + data));
    assert (out + data)[|out|..] == data;
  }

  /** A count and that many bytes, padded, are received as they were sent. */
  lemma CountedBytesCarried(inp: seq<byte>, out: seq<byte>, data: seq<byte>)
    requires |out| % 4 == 0 && |data| < U32_SIZE
    requires Carries(inp, |out|, Padded(out + Word(|data|) + data))
    ensures HasWord(inp, |out|) && WordAt(inp, |out|) == |data|
    ensures HasBytes(inp, |out| + 4, |data|) && inp[|out| + 4..|out| + 4 + |data|] == data
    ensures RoundUp(|out| + 4 + |data|) == |Padded(out + Word(|data|) + data)|
  {
    var head := out + Word(|data|);
    WordCarried(inp, out, |data|, Padded(head + data));
    BytesCarried(inp, head, data);
  }

  lemma ScalarWordsKeepValue(k: Kind, v: int)
    requires InRange(k, v)
    ensures var ws := ScalarWords(k, v);
            if k == Hyper then ws[0] * U32_SIZE + ws[1] == v else ScalarOf(k, ws[0]) == Canonical(k, v)
  {
    if k == Int || k == Short {
      assert Signed32(ToU32(v)) == v;
    }
  }

  lemma ScalarRoundTrip(k: Kind, v: int, z: int, out: seq<byte>, inp: seq<byte>)
    requires InRange(k, v) && InRange(k, z)
    requires SendWords(out, ScalarWords(k, v)).ok
    requires Carries(inp, |out|, SendWords(out, ScalarWords(k, v)).out)
    ensures DecScalar(k, z, inp, |out|)
         == GotNum(true, Canonical(k, v), |SendWords(out, ScalarWords(k, v)).out|)
  {
    var ws := ScalarWords(k, v);
    var one := SendWord(out, ws[0]).out;
    ScalarWordsKeepValue(k, v);
    if k == Hyper {
      assert SendWords(one, ws[1..]).out == SendWord(one, ws[1]).out;
      WordCarried(inp, out, ws[0], SendWords(out, ws).out);
      WordCarried(inp, one, ws[1], SendWords(out, ws).out);
    } else {
      WordCarried(inp, out, ws[0], one);
    }
  }

  /** What was received is an object of the same value as `o`, and the cursor is at `end`. */
  predicate Reproduces(env: Env, ty: Ty, o: Obj, end: nat, r: Got)
    requires HasTy(env, ty, o) && Sendable(ty, env, o) && HasTy(env, ty, r.obj)
  {
    r.ok && r.pos == end && Sendable(ty, env, r.obj) && Value(env, ty, r.obj) == Value(env, ty, o)
  }

  /**
   * Composite round trip: whenever ENCODE succeeds, DECODE of the bytes it wrote, started from
   * the same offset on blank storage, succeeds, stops exactly where ENCODE stopped, and
   * rebuilds an object of the same value, through any depth of arrays and recursive pointers.
   */
  lemma {:induction false} RoundTrip(
      env: Env, ty: Ty, m: Malloc, o: Obj, out: seq<byte>, z: Obj, inp: seq<byte>, h: Heap)
    requires HasTy(env, ty, o) && Sendable(ty, env, o) && Blank(env, ty, z)
    requires |out| % 4 == 0 && |out| <= MSGSIZE_MAX
    requires forall i: nat :: !m.fails(i)
    requires Enc(env, ty, o, out).ok && Carries(inp, |out|, Enc(env, ty, o, out).out)
    ensures Reproduces(env, ty, o, |Enc(env, ty, o, out).out|, Dec(env, ty, m, z, inp, |out|, h))
    decreases o, 1
  {
    match ty
    case Void =>
    case Scalar(k) => ScalarRoundTrip(k, o.num, z.num, out, inp);
    case Opaque(_) => OpaqueRoundTrip(env, ty, m, o, out, z, inp, h);
    case Bytes(max) =>
      BytesRoundTrip(max, m, o.size, o.data, out, z, inp, h);
      assert o.data[..o.size][..o.size] == o.data[..o.size];
    case String(_) => StringRoundTrip(env, ty, m, o, out, z, inp, h);
    case Vector(_, t) => RoundTripAll(env, t, m, o.items, out, z.items, inp, h);
    case Array(max, t) => ArrayRoundTrip(env, t, max, m, o, out, z, inp, h);
    case Reference(t) => RoundTrip(env, t, m, o.target, out, Zero(env, t), inp, Alloc(m, h).1);
    case Pointer(name) => PointerRoundTrip(env, name, m, o, out, inp, h);
    case Pair(a, b) => PairRoundTrip(env, a, b, m, o, out, z, inp, h);
  }

  lemma {:induction false} PointerRoundTrip(
      env: Env, name: string, m: Malloc, o: Obj, out: seq<byte>, inp: seq<byte>, h: Heap)
    requires HasTy(env, Pointer(name), o) && Sendable(Pointer(name), env, o)
    requires |out| % 4 == 0 && |out| <= MSGSIZE_MAX
    requires forall i: nat :: !m.fails(i)
    requires Enc(env, Pointer(name), o, out).ok && Carries(inp, |out|, Enc(env, Pointer(name), o, out).out)
    ensures var r := Dec(env, Pointer(name), m, ONull, inp, |out|, h);
            && r.ok && r.pos == |Enc(env, Pointer(name), o, out).out|
            && Sendable(Pointer(name), env, r.obj)
            && Value(env, Pointer(name), r.obj) == Value(env, Pointer(name), o)
    decreases o, 0
  {
    var present: u32 := if o.ONull? then 0 else 1;
    WordCarried(inp, out, present, Enc(env, Pointer(name), o, out).out);
    if o.OAt? {
      var t := env(name);
      RoundTrip(env, t, m, o.target, out + Word(present), Zero(env, t), inp, Alloc(m, h).1);
    }
  }

  lemma {:induction false} PairRoundTrip(
      env: Env, a: Ty, b: Ty, m: Malloc, o: Obj, out: seq<byte>, z: Obj, inp: seq<byte>, h: Heap)
    requires HasTy(env, Pair(a, b), o) && Sendable(Pair(a, b), env, o) && Blank(env, Pair(a, b), z)
    requires |out| % 4 == 0 && |out| <= MSGSIZE_MAX
    requires forall i: nat :: !m.fails(i)
    requires Enc(env, Pair(a, b), o, out).ok && Carries(inp, |out|, Enc(env, Pair(a, b), o, out).out)
    ensures var r := Dec(env, Pair(a, b), m, z, inp, |out|, h);
            && r.ok && r.pos == |Enc(env, Pair(a, b), o, out).out|
            && Sendable(Pair(a, b), env, r.obj)
            && Value(env, Pair(a, b), r.obj) == Value(env, Pair(a, b), o)
    decreases o, 0
  {
    var mid := Enc(env, a, o.first, out).out;
    CarriesPart(inp, |out|, mid, Enc(env, b, o.second, mid).out);
    EncBounds(env, a, o.first, out);
    RoundTrip(env, a, m, o.first, out, z.first, inp, h);
    var r := Dec(env, a, m, z.first, inp, |out|, h);
    RoundTrip(env, b, m, o.second, mid, z.second, inp, r.heap);
  }

  lemma OpaqueRoundTrip(
      env: Env, ty: Ty, m: Malloc, o: Obj, out: seq<byte>, z: Obj, inp: seq<byte>, h: Heap)
    requires ty.Opaque? && HasTy(env, ty, o) && Blank(env, ty, z)
    requires |out| % 4 == 0
    requires Enc(env, ty, o, out).ok && Carries(inp, |out|, Enc(env, ty, o, out).out)
    ensures Dec(env, ty, m, z, inp, |out|, h) == Got(true, o, |Enc(env, ty, o, out).out|, h)
  {
    if ty.len > 0 {
      BytesCarried(inp, out, o.raw);
    }
  }

  /** DECODE of a well-formed count and its bytes. */
  lemma DecBytesReceives(max: u32, m: Malloc, z: Obj, inp: seq<byte>, pos: nat, h: Heap, data: seq<byte>)
    requires z.OBytes? && z.buf.Null? && z.data == [] && !m.fails(h.tries)
    requires HasWord(inp, pos) && WordAt(inp, pos) == |data| <= max && pos % 4 == 0
    requires HasBytes(inp, pos + 4, |data|) && inp[pos + 4..pos + 4 + |data|] == data && |data| <= LEN_LIMIT
    ensures var r := DecBytes(max, m, z, inp, pos, h);
            && r.ok && r.pos == RoundUp(pos + 4 + |data|)
            && r.obj == if data == [] then OBytes(0, Null, []) else OBytes(|data|, At(h.next), data)
  {
  }

  lemma DecStringReceives(max: u32, m: Malloc, z: Obj, inp: seq<byte>, pos: nat, h: Heap, text: seq<byte>)
    requires z.OString? && z.str.Null? && z.chars == [] && !m.fails(h.tries)
    requires HasWord(inp, pos) && WordAt(inp, pos) == |text| <= max && pos % 4 == 0
    requires HasBytes(inp, pos + 4, |text|) && inp[pos + 4..pos + 4 + |text|] == text
    requires |text| <= MSGSIZE_MAX
    ensures var r := DecString(max, m, z, inp, pos, h);
            r.ok && r.pos == RoundUp(pos + 4 + |text|) && r.obj == OString(At(h.next), text + [0])
  {
    if text == [] {
      assert text + [0] == [0];
    }
  }

  /**
   * A string is decoded with success and yet NULL exactly if its length is 2^32 - 1, for which
   * the size of its block wraps to zero; a limit below that excludes the case.
   */
  lemma DecodedStringIsNullIff(max: u32, m: Malloc, z: Obj, inp: seq<byte>, pos: nat, h: Heap)
    requires z == OString(Null, [])
    ensures var r := DecString(max, m, z, inp, pos, h);
            && (r.ok ==> HasWord(inp, pos) && (r.obj.str.Null? <==> WordAt(inp, pos) == U32_SIZE - 1))
            && (r.ok && max < U32_SIZE - 1 ==> r.obj.str.At?)
            && (HasWord(inp, pos) && WordAt(inp, pos) == U32_SIZE - 1 ==> (r.ok <==> max == U32_SIZE - 1))
  {
  }

  lemma StringValue(text: seq<byte>)
    requires 0 !in text
    ensures 0 in text + [0] && (text + [0])[..StrLen(text + [0])] == text
  {
    assert (text + [0])[..|text|] == text;
    StrLenUnique(text + [0], |text|);
  }

  lemma BytesRoundTrip(
      max: u32, m: Malloc, size: u32, data: seq<byte>, out: seq<byte>, z: Obj, inp: seq<byte>, h: Heap)
    requires size <= |data| <= LEN_LIMIT && z.OBytes? && z.buf.Null? && z.data == []
    requires |out| % 4 == 0 && !m.fails(h.tries)
    requires EncBytes(max, size, data, out).ok && Carries(inp, |out|, EncBytes(max, size, data, out).out)
    ensures var r := DecBytes(max, m, z, inp, |out|, h);
            && r.ok && r.pos == |EncBytes(max, size, data, out).out|
            && r.obj == OBytes(size, if size == 0 then Null else At(h.next), data[..size])
  {
    var sent := data[..size];
    assert EncBytes(max, size, data, out).out == Padded(out + Word(size) + sent);
    CountedBytesCarried(inp, out, sent);
    DecBytesReceives(max, m, z, inp, |out|, h, sent);
  }

  lemma {:induction false} ArrayRoundTrip(
      env: Env, t: Ty, max: u32, m: Malloc, o: Obj, out: seq<byte>, z: Obj, inp: seq<byte>, h: Heap)
    requires HasTy(env, Array(max, t), o) && Sendable(Array(max, t), env, o) && Blank(env, Array(max, t), z)
    requires |out| % 4 == 0 && |out| <= MSGSIZE_MAX
    requires forall i: nat :: !m.fails(i)
    requires Enc(env, Array(max, t), o, out).ok && Carries(inp, |out|, Enc(env, Array(max, t), o, out).out)
    ensures var r := DecArray(env, t, max, m, z, inp, |out|, h);
            && r.ok && r.pos == |Enc(env, Array(max, t), o, out).out|
            && (forall e | e in r.obj.elems :: Sendable(t, env, e))
            && (r.obj.arr.Null? ==> r.obj.used == 0)
            && Values(env, t, r.obj.elems) == Values(env, t, o.elems)
    decreases o, 0
  {
    var head := SendWord(out, o.used).out;
    WordCarried(inp, out, o.used, Enc(env, Array(max, t), o, out).out);
    if o.used > 0 {
      OwnedOfCopies(Zero(env, t), o.used);
      RoundTripAll(env, t, m, o.elems, head, Copies(Zero(env, t), o.used), inp, Alloc(m, h).1);
    }
  }

  lemma PaddingNothing(head: seq<byte>, text: seq<byte>)
    requires |head| % 4 == 0 && text == []
    ensures Padded(head + text) == head
  {
    assert head + text == head;
  }

  lemma EncStringSends(max: u32, chars: seq<byte>, out: seq<byte>)
    requires 0 in chars && |chars| <= LEN_LIMIT && |out| % 4 == 0
    requires EncString(max, chars, out).ok
    ensures var n := StrLen(chars);
            && n <= max && n <= MSGSIZE_MAX
            && EncString(max, chars, out).out == Padded(out + Word(n) + chars[..n])
  {
    var n := StrLen(chars);
    var head, text := out + Word(n), chars[..n];
    if n == 0 {
      PaddingNothing(head, text);
    } else {
      assert EncString(max, chars, out) == SendBytes(head, text);
    }
  }

  lemma StringRoundTrip(
      env: Env, ty: Ty, m: Malloc, o: Obj, out: seq<byte>, z: Obj, inp: seq<byte>, h: Heap)
    requires ty.String? && HasTy(env, ty, o) && Blank(env, ty, z)
    requires |out| % 4 == 0 && |out| <= MSGSIZE_MAX
    requires forall i: nat :: !m.fails(i)
    requires Enc(env, ty, o, out).ok && Carries(inp, |out|, Enc(env, ty, o, out).out)
    ensures var r := Dec(env, ty, m, z, inp, |out|, h);
            && r.ok && r.pos == |Enc(env, ty, o, out).out|
            && Value(env, ty, r.obj) == Value(env, ty, o)
  {
    EncStringSends(ty.max, o.chars, out);
    var text := o.chars[..StrLen(o.chars)];
    CountedBytesCarried(inp, out, text);
    DecStringReceives(ty.max, m, z, inp, |out|, h, text);
    StringValue(text);
  }

  lemma {:induction false} RoundTripAll(
      env: Env, ty: Ty, m: Malloc, es: seq<Obj>, out: seq<byte>, zs: seq<Obj>, inp: seq<byte>, h: Heap)
    requires forall e | e in es :: HasTy(env, ty, e) && Sendable(ty, env, e)
    requires BlankAll(env, ty, zs) && |zs| == |es|
    requires |out| % 4 == 0 && |out| <= MSGSIZE_MAX
    requires forall i: nat :: !m.fails(i)
    requires EncAll(env, ty, es, out).ok && Carries(inp, |out|, EncAll(env, ty, es, out).out)
    ensures var r := DecAll(env, ty, m, zs, inp, |out|, h);
            && r.ok && r.pos == |EncAll(env, ty, es, out).out|
            && (forall e | e in r.objs :: Sendable(ty, env, e))
            && Values(env, ty, r.objs) == Values(env, ty, es)
    decreases es, 1
  {
    if es != [] {
      OwnedByNone(zs);
      var mid := Enc(env, ty, es[0], out).out;
      CarriesPart(inp, |out|, mid, EncAll(env, ty, es, out).out);
      EncBounds(env, ty, es[0], out);
      RoundTrip(env, ty, m, es[0], out, zs[0], inp, h);
      var r := Dec(env, ty, m, zs[0], inp, |out|, h);
      RoundTripAll(env, ty, m, es[1..], mid, zs[1..], inp, r.heap);
      assert OwnedAll(zs[1..]) == multiset{};
    }
  }

  // ----- Whatever is decoded can be sent again -----

  lemma {:induction false} DecodedIsSendable(
      env: Env, ty: Ty, m: Malloc, o: Obj, inp: seq<byte>, pos: nat, h: Heap)
    requires Blank(env, ty, o) && Dec(env, ty, m, o, inp, pos, h).ok
    ensures Sendable(ty, env, Dec(env, ty, m, o, inp, pos, h).obj)
    decreases Left(inp, pos), ty, 0
  {
    match ty
    case Vector(_, t) => DecodedAreSendable(env, t, m, o.items, inp, pos, h);
    case Array(_, t) =>
      var c := WordAt(inp, pos);
      if c > 0 {
        OwnedOfCopies(Zero(env, t), c);
        DecodedAreSendable(env, t, m, Copies(Zero(env, t), c), inp, pos + 4, Alloc(m, h).1);
      }
    case Reference(t) => DecodedIsSendable(env, t, m, Zero(env, t), inp, pos, Alloc(m, h).1);
    case Pointer(name) =>
      if WordAt(inp, pos) != 0 {
        var t := env(name);
        DecodedIsSendable(env, t, m, Zero(env, t), inp, pos + 4, Alloc(m, h).1);
      }
    case Pair(a, b) =>
      DecodedIsSendable(env, a, m, o.first, inp, pos, h);
      var r := Dec(env, a, m, o.first, inp, pos, h);
      DecodedIsSendable(env, b, m, o.second, inp, r.pos, r.heap);
    case _ =>
  }

  lemma {:induction false} DecodedAreSendable(
      env: Env, ty: Ty, m: Malloc, es: seq<Obj>, inp: seq<byte>, pos: nat, h: Heap)
    requires BlankAll(env, ty, es) && DecAll(env, ty, m, es, inp, pos, h).ok
    ensures forall e | e in DecAll(env, ty, m, es, inp, pos, h).objs :: Sendable(ty, env, e)
    decreases Left(inp, pos), ty, 1 + |es|
  {
    if es != [] {
      OwnedByNone(es);
      DecodedIsSendable(env, ty, m, es[0], inp, pos, h);
      var r := Dec(env, ty, m, es[0], inp, pos, h);
      DecodedAreSendable(env, ty, m, es[1..], inp, r.pos, r.heap);
    }
  }
}
