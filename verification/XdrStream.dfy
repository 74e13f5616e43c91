/** The XDR handle: message buffers, the cursors that move over them, and the allocator. */
module XdrStream {
  import opened Words
  import opened XdrObjects
  import opened XdrSpec

  datatype Op = Encode | Decode | Release

  /** What the routines see of a handle: mode, bytes sent, message received, receive cursor. */
  datatype Wire = Wire(op: Op, out: seq<byte>, inp: seq<byte>, pos: nat)

  /** The C allocator, with a log of every block released. */
  class Memory {
    const malloc: Malloc
    var next: nat
    var tries: nat
    var freed: seq<nat>

    constructor (malloc: Malloc)
      ensures View() == Heap(0, 0, []) && this.malloc == malloc
    {
      this.malloc := malloc;
      next, tries, freed := 0, 0, [];
    }

    function View(): Heap
      reads this
    {
      Heap(next, tries, freed)
    }

    method MemAlloc() returns (p: Ref)
      modifies this
      ensures (p, View()) == Alloc(malloc, old(View()))
    {
      p := if malloc.fails(tries) then Null else At(next);
      tries := tries + 1;
      if p.At? {
        next := next + 1;
      }
    }

    method MemAllocBytes(size: nat) returns (p: Ref)
      modifies this
      ensures (p, View()) == AllocBytes(malloc, old(View()), size)
    {
      if size > LEN_LIMIT {
        tries := tries + 1;
        return Null;
      }
      p := MemAlloc();
    }

    /** Releasing a block twice, or one never handed out, is not allowed. */
    method MemFree(id: nat)
      requires id < next && id !in freed
      modifies this
      ensures View() == XdrSpec.Release(old(View()), id)
    {
      freed := freed + [id];
    }
  }

  class Xdr {
    var op: Op
    var prog: u32
    var vers: u32
    var procNum: u32
    var xid: u32
    const outMsg: array<byte>
    var outNext: int
    const inMsg: array<byte>
    var inNext: int
    var inLen: int

    constructor (prog: u32, vers: u32)
      ensures Valid() && fresh(outMsg) && fresh(inMsg)
      ensures this.prog == prog && this.vers == vers && xid == 0 && Out() == [] && In() == []
    {
      op := Encode;
      this.prog, this.vers, procNum, xid := prog, vers, 0, 0;
      outMsg := new byte[MSGSIZE_MAX](_ => 0);
      inMsg := new byte[MSGSIZE_MAX](_ => 0);
      outNext, inNext, inLen := 0, 0, 0;
    }

    ghost predicate Valid()
      reads this
    {
      && outMsg.Length == MSGSIZE_MAX && inMsg.Length == MSGSIZE_MAX && outMsg != inMsg
      && 0 <= outNext <= MSGSIZE_MAX && outNext % 4 == 0
      && 0 <= inLen <= MSGSIZE_MAX && 0 <= inNext <= MSGSIZE_MAX + 3
    }

    function Out(): seq<byte>
      requires Valid()
      reads this, outMsg
    {
      outMsg[..outNext]
    }

    function In(): seq<byte>
      requires Valid()
      reads this, inMsg
    {
      inMsg[..inLen]
    }

    function View(): Wire
      requires Valid()
      reads this, outMsg, inMsg
    {
      Wire(op, Out(), In(), inNext)
    }

    /** `xdr_std_msg_start`: transaction id and message type at the head of the buffer. */
    method MsgStart(msgType: u32)
      requires Valid()
      modifies this`xid, this`outNext, outMsg
      ensures Valid()
      ensures xid == if msgType == RPC_MSG_CALL then (old(xid) + 1) % U32_SIZE else old(xid)
      ensures Out() == Word(xid) + Word(msgType)
    {
      if msgType == RPC_MSG_CALL {
        xid := (xid + 1) % U32_SIZE;
      }
      outNext := (RPC_OFFSET + 2) * 4;
      StoreWord(RPC_OFFSET, xid);
      StoreWord(RPC_OFFSET + 1, msgType);
      assert outMsg[0..4] == Word(xid) && outMsg[4..8] == Word(msgType);
      assert outMsg[..8] == outMsg[0..4] + outMsg[4..8];
    }

    /** `((uint32 *) out_msg)[i] = htonl(w)` */
    method StoreWord(i: nat, w: u32)
      requires Valid() && 4 * i + 4 <= MSGSIZE_MAX
      modifies outMsg
      ensures outMsg[4 * i..4 * i + 4] == Word(w)
      ensures forall k | 0 <= k < MSGSIZE_MAX && !(4 * i <= k < 4 * i + 4) :: outMsg[k] == old(outMsg[k])
    {
      var b := Word(w);
      forall k | 0 <= k < 4 {
        outMsg[4 * i + k] := b[k];
      }
    }

    method SendUint32(w: u32) returns (ok: bool)
      requires Valid()
      modifies this`outNext, outMsg
      ensures Valid() && SendWord(old(Out()), w) == Sent(ok, Out())
      ensures ok == (old(outNext) + 4 <= 18432) && outNext == old(outNext) + (if ok then 4 else 0)
      ensures ok ==> outMsg[old(outNext)..outNext]
                     == [w / 0x100_0000, w / 0x1_0000 % 0x100, w / 0x100 % 0x100, w % 0x100]
    {
      if outNext >= MSGSIZE_MAX - 3 {
        return false;
      }
      assert outNext == 4 * (outNext / 4);
      WordBytes(w);
      StoreWord(outNext / 4, w);
      outNext := outNext + 4;
      ghost var before := old(Out());
      assert outMsg[..old(outNext)] == before;
      assert Out() == before + outMsg[old(outNext)..outNext];
      return true;
    }

    method SendBytes(buf: seq<byte>) returns (ok: bool)
      requires Valid() && outNext + |buf| < U32_SIZE
      modifies this`outNext, outMsg
      ensures Valid() && XdrSpec.SendBytes(old(Out()), buf) == Sent(ok, Out())
      ensures ok == (old(outNext) + |buf| <= 18432)
      ensures ok ==> old(outNext) + |buf| <= outNext < old(outNext) + |buf| + 4
      ensures ok ==> outMsg[old(outNext)..old(outNext) + |buf|] == buf
      ensures ok ==> forall k | old(outNext) + |buf| <= k < outNext :: outMsg[k] == 0
    {
      if outNext + |buf| > MSGSIZE_MAX {
        return false;
      }
      ghost var before, start := Out(), outNext;
      var i := 0;
      while i < |buf|
        invariant 0 <= i <= |buf| && outNext == start + i
        invariant outMsg[..outNext] == before + buf[..i]
      {
        outMsg[outNext] := buf[i];
        outNext := outNext + 1;
        i := i + 1;
        assert outMsg[..outNext] == outMsg[..outNext - 1] + [buf[i - 1]];
        assert buf[..i] == buf[..i - 1] + [buf[i - 1]];
      }
      assert buf[..i] == buf;
      Pad();
      assert outMsg[start..start + |buf|] == Out()[..start + |buf|][start..] == (before + buf)[start..];
      return true;
    }

    /** Zero bytes up to the next word. */
    method Pad()
      requires outMsg.Length == MSGSIZE_MAX && 0 <= outNext <= MSGSIZE_MAX
      modifies this`outNext, outMsg
      ensures outNext == RoundUp(old(outNext)) <= MSGSIZE_MAX
      ensures outMsg[..outNext] == Padded(old(outMsg[..outNext]))
      ensures outMsg[..old(outNext)] == old(outMsg[..outNext])
      ensures forall k | old(outNext) <= k < outNext :: outMsg[k] == 0
    {
      ghost var data := outMsg[..outNext];
      while outNext % 4 != 0
        invariant |data| <= outNext <= RoundUp(|data|) <= MSGSIZE_MAX
        invariant outMsg[..|data|] == data
        invariant forall k | |data| <= k < outNext :: outMsg[k] == 0
        decreases RoundUp(|data|) - outNext
      {
        outMsg[outNext] := 0;
        outNext := outNext + 1;
      }
      assert outMsg[..outNext] == data + Zeros(outNext - |data|);
    }

    method RecvUint32() returns (ok: bool, w: u32)
      requires Valid()
      modifies this`inNext
      ensures Valid() && ok == HasWord(In(), old(inNext))
      ensures ok ==> w == WordAt(In(), old(inNext)) && inNext == old(inNext) + 4
      ensures ok ==> var b := inMsg[old(inNext)..inNext];
                     [w / 0x100_0000, w / 0x1_0000 % 0x100, w / 0x100 % 0x100, w % 0x100] == b
      ensures !ok ==> inNext == old(inNext)
    {
      if inNext + 4 > inLen {
        return false, 0;
      }
      assert In()[inNext..inNext + 4] == inMsg[inNext..inNext + 4];
      w := Unword(inMsg[inNext..inNext + 4]);
      WordBytes(w);
      WordOfUnword(inMsg[inNext..inNext + 4]);
      inNext := inNext + 4;
      return true, w;
    }

    method RecvBytes(len: u32) returns (ok: bool, data: seq<byte>)
      requires Valid() && inNext + len < 0x8000_0000
      modifies this`inNext
      ensures Valid() && ok == HasBytes(In(), old(inNext), len)
      ensures ok ==> data == In()[old(inNext)..old(inNext) + len] && inNext == RoundUp(old(inNext) + len)
      ensures !ok ==> inNext == old(inNext)
    {
      if inNext + len > inLen {
        return false, [];
      }
      data := inMsg[inNext..inNext + len];
      assert inMsg[..inLen][inNext..inNext + len] == data;
      inNext := RoundUp(inNext + len);
      return true, data;
    }

    /** `xdr_std_read`: a message of the router, here the bytes `msg`, fills the input buffer. */
    method Read(msg: seq<byte>) returns (ok: bool)
      requires Valid() && |msg| <= MSGSIZE_MAX
      modifies this`inNext, this`inLen, inMsg
      ensures Valid() && ok == (|msg| >= (RPC_OFFSET + 2) * 4)
      ensures if ok then In() == msg && inNext == (RPC_OFFSET + 2) * 4 else In() == [] && inNext == old(inNext)
    {
      forall i | 0 <= i < |msg| {
        inMsg[i] := msg[i];
      }
      inLen := |msg|;
      if |msg| < (RPC_OFFSET + 2) * 4 {
        inLen := 0; // the handle records a failure; nothing may be received from it
        return false;
      }
      inNext := (RPC_OFFSET + 2) * 4;
      return true;
    }
  }

  // ----- Where the tests of the byte movers are right -----

  /**
   * The 32-bit unsigned test of `xdr_std_send_bytes` refuses what does not fit, and nothing
   * else, exactly if the sum does not wrap.
   */
  lemma SendTestIsRightIff(outNext: nat, len: u32)
    requires outNext <= MSGSIZE_MAX
    ensures ((outNext + len) % U32_SIZE > MSGSIZE_MAX <==> outNext + len > MSGSIZE_MAX)
            <==> outNext + len < U32_SIZE
  {
  }

  /**
   * The signed test of `xdr_std_recv_bytes` is right exactly if the sum stays below 2^31, or
   * wraps all the way round and is still beyond the message, which it can be only if the
   * cursor was there before.
   */
  lemma ReceiveTestIsRightIff(inNext: nat, inLen: nat, len: u32)
    requires inNext <= MSGSIZE_MAX + 3 && inLen <= MSGSIZE_MAX
    ensures var sum := inNext + len;
            (Signed32(ToU32(inNext + Signed32(len))) > inLen <==> sum > inLen)
            <==> sum < 0x8000_0000 || sum > U32_SIZE + inLen
    ensures inNext + len > U32_SIZE + inLen ==> inNext > inLen
  {
  }

  /** The longest length whose sum with the farthest cursor, 18435, stays below 2^31. */
  lemma LongestSafeLength(len: nat)
    ensures len <= LEN_LIMIT <==> 18435 + len < 0x8000_0000
  {
  }

  const RPC_MSG_CALL: u32 := 0
  const RPC_MSG_REPLY: u32 := 1
}
