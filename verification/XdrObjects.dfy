/**
 * The C objects an XDR routine works on: which shapes exist, which blocks of the heap an
 * object owns, and the value it stands for once block addresses are forgotten.
 */
module XdrObjects {
  import opened Words

  const MSGSIZE_MAX: nat := 18432

  /**
   * The longest run of bytes whose length can be added to a cursor without leaving the range of
   * a C `int`: the receive primitive compares `in_next + (int) len` with `in_len`.
   */
  const LEN_LIMIT: nat := 0x7FFF_FFFF - MSGSIZE_MAX - 3

  /** The length of a run of bytes in memory, be it in a static array or in a block of its own. */
  type Length = n: int | 0 <= n <= LEN_LIMIT

  /** The scalar routines that differ in what they send or keep. */
  datatype Kind = Int | UInt | Short | UShort | UChar | Bool | Hyper

  /**
   * What an `xdrproc_t` handles. `Pair` is the routine rpcgen writes for a structure: the
   * first member's routine and then the rest. A `Pointer` names the routine of its target, so
   * that structures may refer to themselves.
   */
  datatype Ty =
    | Void
    | Scalar(kind: Kind)
    | Opaque(len: Length)
    | Bytes(max: u32)
    | String(max: u32)
    | Vector(count: u32, elem: Ty)
    | Array(max: u32, elem: Ty)
    | Reference(target: Ty)
    | Pointer(name: string)
    | Pair(first: Ty, second: Ty)

  /** The routine behind each name. */
  type Env = string -> Ty

  datatype Ref = Null | At(id: nat)

  /** A C object together with the heap blocks it owns. */
  datatype Obj =
    | OVoid
    | OScalar(num: int)
    | OOpaque(raw: seq<byte>)
    | OBytes(size: u32, buf: Ref, data: seq<byte>)
    | OString(str: Ref, chars: seq<byte>)
    | OVector(items: seq<Obj>)
    | OArray(used: u32, arr: Ref, elems: seq<Obj>)
    | ONull
    | OAt(id: nat, target: Obj)
    | OPair(first: Obj, second: Obj)

  predicate InRange(k: Kind, v: int) {
    match k
    case Int => -0x8000_0000 <= v < 0x8000_0000
    case UInt => 0 <= v < U32_SIZE
    case Short => -0x8000 <= v < 0x8000
    case UShort => 0 <= v < 0x10000
    case UChar => 0 <= v < 0x100
    case Bool => -0x8000_0000 <= v < 0x8000_0000
    case Hyper => 0 <= v < U32_SIZE * U32_SIZE
  }

  /** `o` is laid out as `ty` says; non-NULL storage holds what its size field says. */
  predicate HasTy(env: Env, ty: Ty, o: Obj)
    decreases o
  {
    match ty
    case Void => o.OVoid?
    case Scalar(k) => o.OScalar? && InRange(k, o.num)
    case Opaque(n) => o.OOpaque? && |o.raw| == n
    case Bytes(_) => o.OBytes? && (if o.buf.Null? then o.data == [] else o.size <= |o.data| <= LEN_LIMIT)
    case String(_) => o.OString? && (if o.str.Null? then o.chars == [] else 0 in o.chars && |o.chars| <= LEN_LIMIT)
    case Vector(n, t) => o.OVector? && |o.items| == n && forall e | e in o.items :: HasTy(env, t, e)
    case Array(_, t) =>
      && o.OArray?
      && (if o.arr.Null? then o.elems == [] else o.used == |o.elems|)
      && forall e | e in o.elems :: HasTy(env, t, e)
    case Reference(t) => o.ONull? || (o.OAt? && HasTy(env, t, o.target))
    case Pointer(name) => o.ONull? || (o.OAt? && HasTy(env, env(name), o.target))
    case Pair(a, b) => o.OPair? && HasTy(env, a, o.first) && HasTy(env, b, o.second)
  }

  /**
   * `o` can be sent: nothing the routines dereference is NULL. A NULL string is allowed,
   * because `xdr_string` checks for it.
   */
  predicate Sendable(ty: Ty, env: Env, o: Obj)
    requires HasTy(env, ty, o)
    decreases o
  {
    match ty
    case Void | Scalar(_) | Opaque(_) | String(_) => true
    case Bytes(_) => o.buf.Null? ==> o.size == 0
    case Vector(_, t) => forall e | e in o.items :: Sendable(t, env, e)
    case Array(_, t) => (o.arr.Null? ==> o.used == 0) && forall e | e in o.elems :: Sendable(t, env, e)
    case Reference(t) => o.OAt? && Sendable(t, env, o.target)
    case Pointer(name) => o.OAt? ==> Sendable(env(name), env, o.target)
    case Pair(a, b) => Sendable(a, env, o.first) && Sendable(b, env, o.second)
  }

  /** What `memset(p, 0, size)` makes of the storage of an object. */
  function Zero(env: Env, ty: Ty): (o: Obj)
    ensures HasTy(env, ty, o) && Owned(o) == multiset{}
  {
    match ty
    case Void => OVoid
    case Scalar(_) => OScalar(0)
    case Opaque(n) => OOpaque(seq(n, _ => 0))
    case Bytes(_) => OBytes(0, Null, [])
    case String(_) => OString(Null, [])
    case Vector(n, t) =>
      OwnedOfCopies(Zero(env, t), n);
      OVector(Copies(Zero(env, t), n))
    case Array(_, _) => OArray(0, Null, [])
    case Reference(_) => ONull
    case Pointer(_) => ONull
    case Pair(a, b) => OPair(Zero(env, a), Zero(env, b))
  }

  function RefBag(r: Ref): multiset<nat> {
    if r.Null? then multiset{} else multiset{r.id}
  }

  /** The blocks `o` owns, directly or through what it points to. */
  function Owned(o: Obj): multiset<nat>
    decreases o, 0
  {
    match o
    case OBytes(_, b, _) => RefBag(b)
    case OString(b, _) => RefBag(b)
    case OVector(es) => OwnedAll(es)
    case OArray(_, b, es) => RefBag(b) + OwnedAll(es)
    case OAt(id, t) => multiset{id} + Owned(t)
    case OPair(a, b) => Owned(a) + Owned(b)
    case _ => multiset{}
  }

  function OwnedAll(es: seq<Obj>): multiset<nat>
    decreases es, 1
  {
    if es == [] then multiset{} else Owned(es[0]) + OwnedAll(es[1..])
  }

  /** `n` elements that are all `o`. */
  function Copies(o: Obj, n: nat): (es: seq<Obj>)
    ensures |es| == n && forall e | e in es :: e == o
  {
    seq(n, _ => o)
  }

  lemma {:induction false} OwnedOfCopies(o: Obj, n: nat)
    requires Owned(o) == multiset{}
    ensures OwnedAll(Copies(o, n)) == multiset{}
  {
    if n > 0 {
      OwnedOfCopies(o, n - 1);
      assert Copies(o, n)[1..] == Copies(o, n - 1);
    }
  }

  lemma {:induction false} OwnedByNone(es: seq<Obj>)
    requires OwnedAll(es) == multiset{}
    ensures forall e | e in es :: Owned(e) == multiset{}
  {
    if es != [] {
      OwnedByNone(es[1..]);
      assert forall e | e in es :: e == es[0] || e in es[1..];
      assert Owned(es[0]) <= OwnedAll(es);
    }
  }

  /** The value an object stands for. */
  datatype Val =
    | VVoid
    | VNum(num: int)
    | VBytes(bytes: seq<byte>)
    | VSeq(items: seq<Val>)
    | VNone
    | VSome(it: Val)
    | VPair(first: Val, second: Val)

  /** `strlen`: the offset of the first NUL. */
  function StrLen(s: seq<byte>): (n: nat)
    requires 0 in s
    ensures n < |s| && s[n] == 0 && forall i | 0 <= i < n :: s[i] != 0
  {
    StrLenFrom(s, 0)
  }

  function StrLenFrom(s: seq<byte>, k: nat): (n: nat)
    requires 0 in s && k < |s| && forall i | 0 <= i < k :: s[i] != 0
    ensures n < |s| && s[n] == 0 && forall i | 0 <= i < n :: s[i] != 0
    decreases |s| - k
  {
    if s[k] == 0 then k else StrLenFrom(s, k + 1)
  }

  lemma StrLenUnique(s: seq<byte>, n: nat)
    requires n < |s| && s[n] == 0 && forall i | 0 <= i < n :: s[i] != 0
    ensures StrLen(s) == n
  {
  }

  /** The number a scalar stands for: any non-zero C truth value is 1. */
  function Canonical(k: Kind, v: int): int {
    if k == Bool && v != 0 then 1 else v
  }

  function Value(env: Env, ty: Ty, o: Obj): Val
    requires HasTy(env, ty, o) && Sendable(ty, env, o)
    decreases o, 0
  {
    match ty
    case Void => VVoid
    case Scalar(k) => VNum(Canonical(k, o.num))
    case Opaque(_) => VBytes(o.raw)
    case Bytes(_) => VBytes(if o.buf.Null? then [] else o.data[..o.size])
    case String(_) => if o.str.Null? then VNone else VSome(VBytes(o.chars[..StrLen(o.chars)]))
    case Vector(_, t) => VSeq(Values(env, t, o.items))
    case Array(_, t) => VSeq(Values(env, t, o.elems))
    case Reference(t) => VSome(Value(env, t, o.target))
    case Pointer(name) => if o.ONull? then VNone else VSome(Value(env, env(name), o.target))
    case Pair(a, b) => VPair(Value(env, a, o.first), Value(env, b, o.second))
  }

  function Values(env: Env, ty: Ty, es: seq<Obj>): (vs: seq<Val>)
    requires forall e | e in es :: HasTy(env, ty, e) && Sendable(ty, env, e)
    ensures |vs| == |es|
    decreases es, 1
  {
    if es == [] then [] else [Value(env, ty, es[0])] + Values(env, ty, es[1..])
  }
}
