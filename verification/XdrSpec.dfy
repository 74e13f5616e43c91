/**
 * What the XDR routines do, as functions: `Enc`, `Dec` and `Free` are the ENCODE, DECODE and
 * FREE modes of one routine, written over the message as a byte sequence and the allocator as
 * a value. `XdrRoutines` proves that the routines, which move cursors over buffers in place,
 * compute exactly these.
 */
module XdrSpec {
  import opened Words
  import opened XdrObjects

  const RPC_OFFSET: nat := 0

  /** What a send leaves: whether it succeeded, and all bytes written so far. */
  datatype Sent = Sent(ok: bool, out: seq<byte>)

  /** Whether a receive succeeded, the object and the cursor it leaves, and the allocator. */
  datatype Got = Got(ok: bool, obj: Obj, pos: nat, heap: Heap)
  datatype GotAll = GotAll(ok: bool, objs: seq<Obj>, pos: nat, heap: Heap)

  datatype Freed = Freed(ok: bool, obj: Obj, heap: Heap)
  datatype FreedAll = FreedAll(ok: bool, objs: seq<Obj>, heap: Heap)

  /** The allocator: blocks are numbered as they are handed out, `freed` logs every release. */
  datatype Heap = Heap(next: nat, tries: nat, freed: seq<nat>)

  /** What the C library decides: which attempts fail, and what a new block contains. */
  datatype Malloc = Malloc(fails: nat -> bool, junk: (nat, nat) -> byte)

  function Alloc(m: Malloc, h: Heap): (r: (Ref, Heap)) {
    if m.fails(h.tries) then (Null, h.(tries := h.tries + 1))
    else (At(h.next), h.(tries := h.tries + 1, next := h.next + 1))
  }

  /** A block of known size: no allocator has one that is too long for a cursor. */
  function AllocBytes(m: Malloc, h: Heap, size: nat): (r: (Ref, Heap)) {
    if size > LEN_LIMIT then (Null, h.(tries := h.tries + 1)) else Alloc(m, h)
  }

  /** `nodesize` of `xdr_array`: a 32-bit product. */
  function NodeSize(count: u32, elsize: u32): u32 {
    count * elsize % U32_SIZE
  }

  /** The block of an array holds its elements exactly if the product does not wrap. */
  lemma BlockHoldsElementsIff(count: u32, elsize: u32)
    ensures NodeSize(count, elsize) >= count * elsize <==> count * elsize < U32_SIZE
  {
    ModIsLess(count * elsize);
  }

  lemma ModIsLess(n: nat)
    ensures n % U32_SIZE == n <==> n < U32_SIZE
    ensures n % U32_SIZE <= n
  {
  }

  /** It does for every count an array accepts exactly if it does for the limit of the array. */
  lemma LimitExcludesWrapIff(max: u32, elsize: u32)
    ensures (forall count: u32 | count <= max :: NodeSize(count, elsize) >= count * elsize)
            <==> max * elsize < U32_SIZE
  {
    BlockHoldsElementsIff(max, elsize);
    if max * elsize < U32_SIZE {
      forall count: u32 | count <= max ensures NodeSize(count, elsize) >= count * elsize {
        assert count * elsize <= max * elsize;
        BlockHoldsElementsIff(count, elsize);
      }
    } else {
      assert NodeSize(max, elsize) < max * elsize;
    }
  }

  function Junk(m: Malloc, id: nat, size: nat): (s: seq<byte>)
    ensures |s| == size
  {
    if size == 0 then [] else Junk(m, id, size - 1) + [m.junk(id, size - 1)]
  }

  // ----- The primitives of the message buffers -----

  function SendWord(out: seq<byte>, w: u32): (r: Sent)
    ensures out <= r.out
  {
    if |out| >= MSGSIZE_MAX - 3 then Sent(false, out) else Sent(true, out + Word(w))
  }

  function Zeros(n: nat): (s: seq<byte>)
    ensures |s| == n
  {
    seq(n, _ => 0)
  }

  function Padded(s: seq<byte>): (r: seq<byte>)
    ensures |r| == RoundUp(|s|) && s <= r
  {
    s + Zeros(RoundUp(|s|) - |s|)
  }

  function SendBytes(out: seq<byte>, data: seq<byte>): (r: Sent)
    ensures out <= r.out
  {
    if |out| + |data| > MSGSIZE_MAX then Sent(false, out) else Sent(true, Padded(out + data))
  }

  /** A word can be read at `pos`. */
  predicate HasWord(inp: seq<byte>, pos: nat) {
    pos + 4 <= |inp|
  }

  function WordAt(inp: seq<byte>, pos: nat): u32
    requires HasWord(inp, pos)
  {
    Unword(inp[pos..pos + 4])
  }

  predicate HasBytes(inp: seq<byte>, pos: nat, len: nat) {
    pos + len <= |inp|
  }

  // ----- ENCODE -----

  /** The words a scalar routine sends. */
  function ScalarWords(k: Kind, v: int): (ws: seq<u32>)
    requires InRange(k, v)
    ensures |ws| == if k == Hyper then 2 else 1
  {
    match k
    case Int | Short => [ToU32(v)]
    case UInt | UShort | UChar => [v]
    case Bool => [if v != 0 then 1 else 0]
    case Hyper => [v / U32_SIZE, v % U32_SIZE]
  }

  function SendWords(out: seq<byte>, ws: seq<u32>): (r: Sent)
    ensures out <= r.out
    decreases |ws|
  {
    if ws == [] then Sent(true, out)
    else
      var s := SendWord(out, ws[0]);
      if !s.ok then s else SendWords(s.out, ws[1..])
  }

  lemma SendOneWord(out: seq<byte>, w: u32)
    ensures SendWords(out, [w]) == SendWord(out, w)
  {
    assert [w][1..] == [];
  }

  lemma SendTwoWords(out: seq<byte>, w1: u32, w2: u32)
    ensures SendWords(out, [w1, w2])
         == if SendWord(out, w1).ok then SendWord(SendWord(out, w1).out, w2) else SendWord(out, w1)
  {
    assert [w1, w2][1..] == [w2];
    if SendWord(out, w1).ok {
      SendOneWord(SendWord(out, w1).out, w2);
    }
  }

  /** `xdr_bytes` sends the size before it compares it with the limit. */
  function EncBytes(max: u32, size: u32, data: seq<byte>, out: seq<byte>): (r: Sent)
    requires size <= |data|
    ensures out <= r.out
  {
    var s := SendWord(out, size);
    if !s.ok || size > max then Sent(false, s.out) else SendBytes(s.out, data[..size])
  }

  function EncString(max: u32, chars: seq<byte>, out: seq<byte>): (r: Sent)
    requires 0 in chars && |chars| <= LEN_LIMIT
    ensures out <= r.out
  {
    var n := StrLen(chars);
    var s := SendWord(out, n);
    if !s.ok || n > max then Sent(false, s.out)
    else if n == 0 then s
    else SendBytes(s.out, chars[..n])
  }

  function Enc(env: Env, ty: Ty, o: Obj, out: seq<byte>): (r: Sent)
    requires HasTy(env, ty, o) && Sendable(ty, env, o)
    ensures out <= r.out
    decreases o, 0
  {
    match ty
    case Void => Sent(true, out)
    case Scalar(k) => SendWords(out, ScalarWords(k, o.num))
    case Opaque(n) => if n == 0 then Sent(true, out) else SendBytes(out, o.raw)
    case Bytes(max) => EncBytes(max, o.size, o.data, out)
    case String(max) => if o.str.Null? then Sent(false, out) else EncString(max, o.chars, out)
    case Vector(_, t) => EncAll(env, t, o.items, out)
    case Array(max, t) =>
      var s := SendWord(out, o.used);
      if !s.ok || o.used > max then Sent(false, s.out)
      else EncAll(env, t, o.elems, s.out)
    case Reference(t) => Enc(env, t, o.target, out)
    case Pointer(name) =>
      var s := SendWord(out, if o.ONull? then 0 else 1);
      if !s.ok || o.ONull? then s else Enc(env, env(name), o.target, s.out)
    case Pair(a, b) =>
      var s := Enc(env, a, o.first, out);
      if !s.ok then s else Enc(env, b, o.second, s.out)
  }

  function EncAll(env: Env, ty: Ty, es: seq<Obj>, out: seq<byte>): (r: Sent)
    requires forall e | e in es :: HasTy(env, ty, e) && Sendable(ty, env, e)
    ensures out <= r.out
    decreases es, 1
  {
    if es == [] then Sent(true, out)
    else
      var s := Enc(env, ty, es[0], out);
      if !s.ok then s else EncAll(env, ty, es[1..], s.out)
  }

  // ----- DECODE -----

  /** What a scalar routine stores for the word it received. */
  function ScalarOf(k: Kind, w: u32): (v: int)
    requires k != Hyper
    ensures InRange(k, v)
  {
    match k
    case Int => Signed32(w)
    case UInt => w
    case Short => Signed16(Signed32(w))
    case UShort => w % 0x10000
    case UChar => w % 0x100
    case Bool => if w == 0 then 0 else 1
  }

  datatype GotNum = GotNum(ok: bool, num: int, pos: nat)

  function DecScalar(k: Kind, v: int, inp: seq<byte>, pos: nat): (r: GotNum)
    requires InRange(k, v)
    ensures InRange(k, r.num) && pos <= r.pos && (r.pos > pos ==> r.pos <= |inp|)
  {
    if !HasWord(inp, pos) then GotNum(false, v, pos)
    else if k != Hyper then GotNum(true, ScalarOf(k, WordAt(inp, pos)), pos + 4)
    else if !HasWord(inp, pos + 4) then GotNum(false, v, pos + 4)
    else GotNum(true, WordAt(inp, pos) * U32_SIZE + WordAt(inp, pos + 4), pos + 8)
  }

  /** The bytes of the message the cursor has not passed. */
  function Left(inp: seq<byte>, pos: nat): nat {
    if pos <= |inp| then |inp| - pos else 0
  }

  /** Storage with every pointer in it NULL: what a caller hands to DECODE. */
  predicate Blank(env: Env, ty: Ty, o: Obj) {
    HasTy(env, ty, o) && Owned(o) == multiset{}
  }

  predicate BlankAll(env: Env, ty: Ty, es: seq<Obj>) {
    (forall e | e in es :: HasTy(env, ty, e)) && OwnedAll(es) == multiset{}
  }

  function DecBytes(max: u32, m: Malloc, o: Obj, inp: seq<byte>, pos: nat, h: Heap): (r: Got)
    requires o.OBytes? && o.buf.Null? && o.data == []
    ensures r.obj.OBytes? && if r.obj.buf.Null? then r.obj.data == [] else r.obj.size <= |r.obj.data| <= LEN_LIMIT
    ensures pos <= r.pos && Left(inp, r.pos) <= Left(inp, pos)
  {
    if !HasWord(inp, pos) then Got(false, o, pos, h)
    else
      var size := WordAt(inp, pos);
      var o' := OBytes(size, Null, []);
      if size > max then Got(false, o', pos + 4, h)
      else if size == 0 then Got(true, o', pos + 4, h)
      else
        var (p, h') := AllocBytes(m, h, size);
        if p.Null? then Got(false, o', pos + 4, h')
        else if !HasBytes(inp, pos + 4, size) then Got(false, OBytes(size, p, Junk(m, p.id, size)), pos + 4, h')
        else Got(true, OBytes(size, p, inp[pos + 4..pos + 4 + size]), RoundUp(pos + 4 + size), h')
  }

  function DecString(max: u32, m: Malloc, o: Obj, inp: seq<byte>, pos: nat, h: Heap): (r: Got)
    requires o.OString? && o.str.Null? && o.chars == []
    ensures r.obj.OString?
    ensures if r.obj.str.Null? then r.obj.chars == [] else 0 in r.obj.chars && |r.obj.chars| <= LEN_LIMIT
    ensures pos <= r.pos && Left(inp, r.pos) <= Left(inp, pos)
  {
    if !HasWord(inp, pos) then Got(false, o, pos, h)
    else
      var size := WordAt(inp, pos);
      if size > max then Got(false, o, pos + 4, h)
      else DecStringBody(m, o, inp, pos + 4, h, size)
  }

  /** The bytes of a string. For the longest size the node size wraps to zero: nothing is done. */
  function DecStringBody(m: Malloc, o: Obj, inp: seq<byte>, pos: nat, h: Heap, size: u32): (r: Got) {
    if size == U32_SIZE - 1 then Got(true, o, pos, h)
    else
      var (p, h') := AllocBytes(m, h, size + 1);
      if p.Null? then Got(false, o, pos, h')
      else if size == 0 then Got(true, OString(p, [0]), pos, h')
      else if !HasBytes(inp, pos, size) then Got(false, OString(p, Junk(m, p.id, size) + [0]), pos, h')
      else Got(true, OString(p, inp[pos..pos + size] + [0]), RoundUp(pos + size), h')
  }

  function Dec(env: Env, ty: Ty, m: Malloc, o: Obj, inp: seq<byte>, pos: nat, h: Heap): (r: Got)
    requires Blank(env, ty, o)
    ensures HasTy(env, ty, r.obj)
    ensures pos <= r.pos && Left(inp, r.pos) <= Left(inp, pos)
    decreases Left(inp, pos), ty, 0
  {
    match ty
    case Void => Got(true, o, pos, h)
    case Scalar(k) =>
      var r := DecScalar(k, o.num, inp, pos);
      Got(r.ok, OScalar(r.num), r.pos, h)
    case Opaque(n) =>
      if n == 0 then Got(true, o, pos, h)
      else if !HasBytes(inp, pos, n) then Got(false, o, pos, h)
      else Got(true, OOpaque(inp[pos..pos + n]), RoundUp(pos + n), h)
    case Bytes(max) => DecBytes(max, m, o, inp, pos, h)
    case String(max) => DecString(max, m, o, inp, pos, h)
    case Vector(_, t) =>
      var r := DecAll(env, t, m, o.items, inp, pos, h);
      Got(r.ok, OVector(r.objs), r.pos, r.heap)
    case Array(max, t) => DecArray(env, t, max, m, o, inp, pos, h)
    case Reference(t) => DecReference(env, t, m, inp, pos, h)
    case Pointer(name) =>
      if !HasWord(inp, pos) then Got(false, o, pos, h)
      else if WordAt(inp, pos) == 0 then Got(true, ONull, pos + 4, h)
      else DecReference(env, env(name), m, inp, pos + 4, h)
    case Pair(a, b) =>
      var r := Dec(env, a, m, o.first, inp, pos, h);
      if !r.ok then Got(false, OPair(r.obj, o.second), r.pos, r.heap)
      else
        var s := Dec(env, b, m, o.second, inp, r.pos, r.heap);
        Got(s.ok, OPair(r.obj, s.obj), s.pos, s.heap)
  }

  function DecArray(env: Env, ty: Ty, max: u32, m: Malloc, o: Obj, inp: seq<byte>, pos: nat, h: Heap): (r: Got)
    requires o.OArray? && o.arr.Null? && o.elems == []
    ensures r.obj.OArray? && if r.obj.arr.Null? then r.obj.elems == [] else r.obj.used == |r.obj.elems|
    ensures forall e | e in r.obj.elems :: HasTy(env, ty, e)
    ensures pos <= r.pos && Left(inp, r.pos) <= Left(inp, pos)
    decreases Left(inp, pos), ty, 0
  {
    if !HasWord(inp, pos) then Got(false, o, pos, h)
    else
      var c := WordAt(inp, pos);
      var o' := OArray(c, Null, []);
      if c > max then Got(false, o', pos + 4, h)
      else if c == 0 then Got(true, o', pos + 4, h)
      else
        var (p, h') := Alloc(m, h);
        if p.Null? then Got(false, o', pos + 4, h')
        else
          OwnedOfCopies(Zero(env, ty), c);
          var r := DecAll(env, ty, m, Copies(Zero(env, ty), c), inp, pos + 4, h');
          Got(r.ok, OArray(c, p, r.objs), r.pos, r.heap)
  }

  function DecReference(env: Env, ty: Ty, m: Malloc, inp: seq<byte>, pos: nat, h: Heap): (r: Got)
    ensures r.obj.ONull? || (r.obj.OAt? && HasTy(env, ty, r.obj.target))
    ensures pos <= r.pos && Left(inp, r.pos) <= Left(inp, pos)
    decreases Left(inp, pos), ty, 1
  {
    var (p, h') := Alloc(m, h);
    if p.Null? then Got(false, ONull, pos, h')
    else
      var r := Dec(env, ty, m, Zero(env, ty), inp, pos, h');
      Got(r.ok, OAt(p.id, r.obj), r.pos, r.heap)
  }

  /** The element loop of `xdr_vector` and `xdr_array`: it stops at the first failure. */
  function DecAll(env: Env, ty: Ty, m: Malloc, es: seq<Obj>, inp: seq<byte>, pos: nat, h: Heap): (r: GotAll)
    requires BlankAll(env, ty, es)
    ensures |r.objs| == |es| && forall e | e in r.objs :: HasTy(env, ty, e)
    ensures pos <= r.pos && Left(inp, r.pos) <= Left(inp, pos)
    decreases Left(inp, pos), ty, 1 + |es|
  {
    if es == [] then GotAll(true, [], pos, h)
    else
      OwnedByNone(es);
      var r := Dec(env, ty, m, es[0], inp, pos, h);
      if !r.ok then GotAll(false, [r.obj] + es[1..], r.pos, r.heap)
      else
        var s := DecAll(env, ty, m, es[1..], inp, r.pos, r.heap);
        GotAll(s.ok, [r.obj] + s.objs, s.pos, s.heap)
  }

  // ----- FREE -----

  function Release(h: Heap, id: nat): Heap {
    h.(freed := h.freed + [id])
  }

  function Free(env: Env, ty: Ty, o: Obj, h: Heap): (r: Freed)
    requires HasTy(env, ty, o)
    ensures HasTy(env, ty, r.obj)
    decreases o, 0
  {
    match ty
    case Void | Scalar(_) | Opaque(_) => Freed(true, o, h)
    case Bytes(_) =>
      if o.buf.Null? then Freed(true, o, h) else Freed(true, OBytes(o.size, Null, []), Release(h, o.buf.id))
    case String(max) =>
      if o.str.Null? then Freed(true, o, h)
      else if StrLen(o.chars) > max then Freed(false, o, h)
      else Freed(true, OString(Null, []), Release(h, o.str.id))
    case Vector(_, t) =>
      var r := FreeAll(env, t, o.items, h);
      Freed(r.ok, OVector(r.objs), r.heap)
    case Array(_, t) =>
      if o.arr.Null? then Freed(true, o, h)
      else
        var r := FreeAll(env, t, o.elems, h);
        Freed(r.ok, OArray(o.used, Null, []), Release(r.heap, o.arr.id))
    case Reference(t) =>
      if o.ONull? then Freed(true, o, h)
      else
        var r := Free(env, t, o.target, h);
        Freed(r.ok, ONull, Release(r.heap, o.id))
    case Pointer(name) =>
      if o.ONull? then Freed(true, o, h)
      else
        var r := Free(env, env(name), o.target, h);
        Freed(r.ok, ONull, Release(r.heap, o.id))
    case Pair(a, b) =>
      var r := Free(env, a, o.first, h);
      if !r.ok then Freed(false, OPair(r.obj, o.second), r.heap)
      else
        var s := Free(env, b, o.second, r.heap);
        Freed(s.ok, OPair(r.obj, s.obj), s.heap)
  }

  function FreeAll(env: Env, ty: Ty, es: seq<Obj>, h: Heap): (r: FreedAll)
    requires forall e | e in es :: HasTy(env, ty, e)
    ensures |r.objs| == |es| && forall e | e in r.objs :: HasTy(env, ty, e)
    decreases es, 1
  {
    if es == [] then FreedAll(true, [], h)
    else
      var r := Free(env, ty, es[0], h);
      if !r.ok then FreedAll(false, [r.obj] + es[1..], r.heap)
      else
        var s := FreeAll(env, ty, es[1..], r.heap);
        FreedAll(s.ok, [r.obj] + s.objs, s.heap)
  }
}
