/**
 * One remote call: `clnt_call` on one side, `svc_dispatch` and the service routines on the
 * other, joined by a transport that copies bytes.
 */
module RpcCall {
  import opened Basics
  import opened Words
  import opened XdrObjects
  import opened XdrSpec
  import opened XdrLaws
  import opened XdrHeap
  import opened XdrFailures
  import opened XdrStream
  import opened XdrRoutines
  import opened XdrComposites
  import opened RpcHeaders
  import opened WireFormat

  const RPC_SUCCESS: int := 0
  const RPC_CANTENCODEARGS: int := 1
  const RPC_CANTDECODERES: int := 2
  const RPC_CANTRECV: int := 4
  const RPC_VERSMISMATCH: int := 6
  const RPC_AUTHERROR: int := 7

  const RPC_PROC_UNAVAIL: int := 3
  const RPC_GARBAGE_ARGS: int := 4
  const RPC_SYSTEM_ERR: int := 5

  /**
   * A service: which procedures it has, and for each the argument and result routines and what
   * is computed. No result is a local function that returns 0 or less, and gets no reply.
   */
  datatype Service = Service(
    known: u32 -> bool, args: u32 -> Ty, results: u32 -> Ty, compute: (u32, Val) -> Option<Obj>)

  /** The results a service computes can be sent. */
  ghost predicate ValidService(env: Env, sv: Service) {
    forall p: u32, v: Val ::
      sv.compute(p, v).Some? ==>
        var res := sv.compute(p, v).value;
        HasTy(env, sv.results(p), res) && Sendable(sv.results(p), env, res)
  }

  /** Every released block was handed out, and none was released twice. */
  ghost predicate Sound(h: Heap) {
    Live(multiset{}, h) && forall id | id in h.freed :: id < h.next
  }

  lemma DecodedIsLive(env: Env, ty: Ty, m: Malloc, o: Obj, inp: seq<byte>, pos: nat, h: Heap)
    requires Blank(env, ty, o) && Sound(h)
    ensures var r := Dec(env, ty, m, o, inp, pos, h); Sound(r.heap) && Live(Owned(r.obj), r.heap)
  {
    DecOwnsWhatItAllocates(env, ty, m, o, inp, pos, h);
    var r := Dec(env, ty, m, o, inp, pos, h);
    forall id: nat
      ensures (multiset(r.heap.freed) + Owned(r.obj))[id] <= 1
      ensures (multiset(r.heap.freed) + multiset{})[id] <= 1
      ensures Owned(r.obj)[id] > 0 ==> id < r.heap.next
    {
      IssuedOnce(h.next, r.heap.next, id);
      assert (multiset(h.freed) + multiset{})[id] <= 1;
      assert multiset(h.freed)[id] > 0 ==> id in h.freed;
    }
  }

  // ----- What a server replies -----

  /** A server's handle starts zeroed, and only a call takes a new transaction id. */
  const SERVER_XID: u32 := 0

  predicate IsError(stat: int) {
    RPC_ACCEPT_SUCCESS < stat <= RPC_PROG_LOCKED && stat != RPC_PROG_MISMATCH
  }

  function ErrorReply(stat: int): seq<byte>
    requires IsError(stat)
  {
    EncReply(Accepted(NO_AUTH, stat, 0, 0), MsgHead(SERVER_XID, RPC_MSG_REPLY)).out
  }

  /** Results go out behind the caller's transaction id; if they do not fit, a system error does. */
  function ResultsReply(env: Env, ty: Ty, res: Obj, callerXid: seq<byte>): seq<byte>
    requires HasTy(env, ty, res) && Sendable(ty, env, res)
  {
    var r := Enc(env, ty, res, ReplyHead(SERVER_XID));
    if r.ok then callerXid + r.out[4..] else ErrorReply(RPC_SYSTEM_ERR)
  }

  /** An error reply, byte by byte: transaction id 0, message type 1, accepted, no verifier, status. */
  lemma ErrorReplyBytes(stat: int)
    requires IsError(stat)
    ensures stat in {1, 3, 4, 5, 6}
    ensures ErrorReply(stat) == [0, 0, 0, 0, 0, 0, 0, 1, 0, 0, 0, 0, 0, 0, 0, 0, 0, 0, 0, 0, 0, 0, 0, stat]
  {
    var head := MsgHead(SERVER_XID, RPC_MSG_REPLY);
    SmallWord(SERVER_XID);
    SmallWord(RPC_MSG_REPLY);
    assert head == [0, 0, 0, 0, 0, 0, 0, 1];
    AcceptedBytes(stat, 0, 0, head);
  }

  lemma StartsWithReplyHead(out: seq<byte>)
    requires ReplyHead(SERVER_XID) <= out
    ensures |out| >= 24 && out[..4] == [0, 0, 0, 0]
    ensures out[4..24] == [0, 0, 0, 1, 0, 0, 0, 0, 0, 0, 0, 0, 0, 0, 0, 0, 0, 0, 0, 0]
  {
    ReplyHeadBytes(SERVER_XID);
    SmallWord(SERVER_XID);
    assert out[..24] == ReplyHead(SERVER_XID);
    assert out[4..24] == out[..24][4..] && out[..4] == out[..24][..4];
  }

  /** The bytes of results on the wire. */
  lemma ResultsReplyBytes(env: Env, ty: Ty, res: Obj, callerXid: seq<byte>)
    requires HasTy(env, ty, res) && Sendable(ty, env, res) && |callerXid| == 4
    ensures var reply, bytes := ResultsReply(env, ty, res, callerXid), Standard(env, ty, res);
            reply == if InLimits(env, ty, res) && 24 + |bytes| <= 18432
                     then callerXid + [0, 0, 0, 1, 0, 0, 0, 0, 0, 0, 0, 0, 0, 0, 0, 0, 0, 0, 0, 0] + bytes
                     else [0, 0, 0, 0, 0, 0, 0, 1, 0, 0, 0, 0, 0, 0, 0, 0, 0, 0, 0, 0, 0, 0, 0, 5]
  {
    var head := ReplyHead(SERVER_XID);
    EncIsStandard(env, ty, res, head);
    ReplyHeadBytes(SERVER_XID);
    ErrorReplyBytes(RPC_SYSTEM_ERR);
    WithoutXid(head, Standard(env, ty, res));
    Glue(callerXid, head[4..], Standard(env, ty, res));
  }

  /**
   * What serving a call comes to: an unknown procedure and arguments that cannot be decoded are
   * reported; otherwise the results are sent, if there are any, and exactly the blocks
   * allocated for the arguments are released. The blocks of arguments that cannot be decoded
   * are all the blocks allocated, and none of them is released.
   */
  ghost predicate Served(
      env: Env, sv: Service, procNum: u32, m: Malloc, inp: seq<byte>, pos: nat, callerXid: seq<byte>,
      replied: bool, reply: seq<byte>, before: Heap, after: Heap)
    requires ValidService(env, sv)
  {
    var ty := sv.args(procNum);
    if !sv.known(procNum) then
      replied && reply == ErrorReply(RPC_PROC_UNAVAIL) && after == before
    else
      var d := Dec(env, ty, m, Zero(env, ty), inp, pos, before);
      && before.next <= d.heap.next == after.next
      && if !d.ok then
           && replied && reply == ErrorReply(RPC_GARBAGE_ARGS)
           && after.freed == before.freed && Owned(d.obj) == Issued(before.next, after.next)
         else
           && Sendable(ty, env, d.obj)
           && multiset(after.freed) == multiset(before.freed) + Issued(before.next, after.next)
           && var res := sv.compute(procNum, Value(env, ty, d.obj));
              && replied == res.Some?
              && (replied ==> reply == ResultsReply(env, sv.results(procNum), res.value, callerXid))
  }

  /** The three error replies of a dispatch function, and when there is one, byte by byte. */
  lemma ServedReplies(
      env: Env, sv: Service, procNum: u32, m: Malloc, inp: seq<byte>, pos: nat, callerXid: seq<byte>,
      replied: bool, reply: seq<byte>, before: Heap, after: Heap)
    requires ValidService(env, sv) && |callerXid| == 4
    requires Served(env, sv, procNum, m, inp, pos, callerXid, replied, reply, before, after)
    ensures var ty := sv.args(procNum);
            var d := Dec(env, ty, m, Zero(env, ty), inp, pos, before);
            var head := [0, 0, 0, 0, 0, 0, 0, 1, 0, 0, 0, 0, 0, 0, 0, 0, 0, 0, 0, 0, 0, 0, 0];
            if !sv.known(procNum) then replied && reply == head + [3]
            else if !d.ok then replied && reply == head + [4]
            else
              && Sendable(ty, env, d.obj)
              && var res, rty := sv.compute(procNum, Value(env, ty, d.obj)), sv.results(procNum);
                 && (replied <==> res.Some?)
                 && (replied && !(InLimits(env, rty, res.value) && 24 + |Standard(env, rty, res.value)| <= 18432) ==>
                       reply == head + [5])
  {
    ErrorReplyBytes(RPC_PROC_UNAVAIL);
    ErrorReplyBytes(RPC_GARBAGE_ARGS);
    var ty := sv.args(procNum);
    var d := Dec(env, ty, m, Zero(env, ty), inp, pos, before);
    if sv.known(procNum) && d.ok {
      var res := sv.compute(procNum, Value(env, ty, d.obj));
      if res.Some? {
        ResultsReplyBytes(env, sv.results(procNum), res.value, callerXid);
      }
    }
  }

  /**
   * Of the blocks allocated while serving a call some are never released exactly if the
   * arguments of a known procedure could not be decoded and a block had been allocated before
   * that was noticed.
   */
  lemma BlocksStayIff(
      env: Env, sv: Service, procNum: u32, m: Malloc, inp: seq<byte>, pos: nat, callerXid: seq<byte>,
      replied: bool, reply: seq<byte>, before: Heap, after: Heap)
    requires ValidService(env, sv) && Sound(before)
    requires Served(env, sv, procNum, m, inp, pos, callerXid, replied, reply, before, after)
    ensures (exists id :: before.next <= id < after.next && id !in after.freed)
            <==> sv.known(procNum) &&
                 var d := Dec(env, sv.args(procNum), m, Zero(env, sv.args(procNum)), inp, pos, before);
                 !d.ok && d.heap.next > before.next
  {
    if before.next < after.next && after.freed == before.freed {
      assert before.next !in after.freed;
    }
    forall id | before.next <= id < after.next && multiset(after.freed)
                == multiset(before.freed) + Issued(before.next, after.next)
      ensures id in after.freed
    {
      IssuedOnce(before.next, after.next, id);
      assert multiset(after.freed)[id] > 0;
    }
  }

  /** As for a message of 44 bytes whose only argument claims to be a string of 5. */
  lemma CutStringKeepsItsBlock(env: Env, m: Malloc, inp: seq<byte>, h: Heap)
    requires |inp| == 44 && WordAt(inp, 40) == 5 && !m.fails(h.tries)
    ensures var d := Dec(env, String(10), m, Zero(env, String(10)), inp, 40, h);
            !d.ok && d.heap.next == h.next + 1 && Owned(d.obj) == multiset{h.next}
  {
    assert Dec(env, String(10), m, Zero(env, String(10)), inp, 40, h)
        == DecString(10, m, Zero(env, String(10)), inp, 40, h);
  }

  // ----- The server -----

  class Server {
    const xdr: Xdr
    const prog: u32
    const vers: u32
    var active: bool

    constructor (prog: u32, vers: u32)
      ensures Valid() && fresh(xdr) && fresh(xdr.outMsg) && fresh(xdr.inMsg)
      ensures this.prog == prog && this.vers == vers && !active
    {
      xdr := new Xdr(prog, vers);
      this.prog, this.vers, active := prog, vers, false;
    }

    ghost predicate Valid()
      reads this, xdr
    {
      xdr.Valid() && xdr.vers == vers && xdr.xid == SERVER_XID
    }

    /** The word at index `i` of the received message, as `ntohl` gives it. */
    function InWord(i: nat): u32
      requires xdr.Valid() && 4 * i + 4 <= MSGSIZE_MAX
      reads xdr, xdr.inMsg
    {
      Unword(xdr.inMsg[4 * i..4 * i + 4])
    }

    method GetArgs(mem: Memory, env: Env, ty: Ty, o: Obj) returns (ok: bool, o': Obj)
      requires Valid() && (active ==> MayRun(env, ty, o, View(xdr, mem)))
      modifies xdr`outNext, xdr`inNext, xdr.outMsg, mem
      ensures Valid() && (!active ==> !ok)
      ensures active ==> Run(env, mem.malloc, ty, o, old(View(xdr, mem))) == Ran(ok, o', View(xdr, mem))
    {
      if !active {
        return false, o;
      }
      ok, o' := XdrProc(xdr, mem, env, ty, o);
    }

    method FreeArgs(mem: Memory, env: Env, ty: Ty, o: Obj) returns (ok: bool, o': Obj)
      requires Valid() && (active ==> HasTy(env, ty, o) && Live(Owned(o), mem.View()))
      modifies xdr`op, xdr`outNext, xdr`inNext, xdr.outMsg, mem
      ensures Valid() && xdr.Out() == old(xdr.Out())
      ensures active ==> Freed(ok, o', mem.View()) == Free(env, ty, o, old(mem.View()))
      ensures !active ==> !ok && o' == o && xdr.View() == old(xdr.View()) && mem.View() == old(mem.View())
    {
      if !active {
        return false, o;
      }
      xdr.op := Release;
      ok, o' := XdrRelease(xdr, mem, env, ty, o);
    }

    /** On success the message is the reply head with the caller's transaction id, and the results. */
    method SendReply(mem: Memory, env: Env, ty: Ty, o: Obj) returns (ok: bool)
      requires Valid() && (active ==> HasTy(env, ty, o) && Sendable(ty, env, o))
      modifies xdr`op, xdr`xid, xdr`outNext, xdr`inNext, xdr.outMsg, mem
      ensures Valid() && mem.View() == old(mem.View())
      ensures active ==>
                var r := Enc(env, ty, o, ReplyHead(SERVER_XID));
                && ok == r.ok
                && (ok ==> |r.out| >= 4 && xdr.Out() == old(xdr.inMsg[0..4]) + r.out[4..])
      ensures ok ==> |xdr.Out()| >= 24 && xdr.Out()[..4] == old(xdr.inMsg[0..4])
      ensures ok ==> xdr.Out()[4..24] == [0, 0, 0, 1, 0, 0, 0, 0, 0, 0, 0, 0, 0, 0, 0, 0, 0, 0, 0, 0]
      ensures !active ==> !ok && xdr.View() == old(xdr.View())
    {
      if !active {
        return false;
      }
      ok := EncodeReply(mem, env, ty, o);
      ghost var sent := xdr.Out();
      if ok {
        CopyXid();
        assert xdr.Out()[4..24] == sent[4..24];
      }
    }

    /** The reply head and the results, under the server's own transaction id. */
    method EncodeReply(mem: Memory, env: Env, ty: Ty, o: Obj) returns (ok: bool)
      requires Valid() && HasTy(env, ty, o) && Sendable(ty, env, o)
      modifies xdr`op, xdr`xid, xdr`outNext, xdr`inNext, xdr.outMsg, mem
      ensures Valid() && mem.View() == old(mem.View())
      ensures Enc(env, ty, o, ReplyHead(SERVER_XID)) == Sent(ok, xdr.Out())
      ensures xdr.outNext >= 24 && xdr.Out()[..4] == [0, 0, 0, 0]
      ensures xdr.Out()[4..24] == [0, 0, 0, 1, 0, 0, 0, 0, 0, 0, 0, 0, 0, 0, 0, 0, 0, 0, 0, 0]
    {
      xdr.op := Encode;
      ReplyHeadIsSuccessHeader(SERVER_XID);
      ok := ReplyMsgStart(xdr, NO_AUTH);
      ok := XdrEncode(xdr, mem, env, ty, o);
      StartsWithReplyHead(xdr.Out());
    }

    /** The caller's transaction id replaces the server's own. */
    method CopyXid()
      requires xdr.Valid() && xdr.outNext >= 4
      modifies xdr.outMsg
      ensures xdr.Valid() && xdr.Out() == xdr.inMsg[0..4] + old(xdr.Out()[4..])
    {
      forall i | 0 <= i < 4 {
        xdr.outMsg[4 * RPC_OFFSET + i] := xdr.inMsg[4 * RPC_OFFSET + i];
      }
    }

    /**
     * `svcerr_decode`, `svcerr_systemerr` and `svcerr_noproc`, which differ in the status: the
     * transaction id stays the server's own.
     */
    method SvcErr(stat: int)
      requires Valid() && IsError(stat)
      modifies xdr`xid, xdr`outNext, xdr.outMsg
      ensures Valid()
      ensures active ==> xdr.Out() == ErrorReply(stat)
      ensures active ==>
                && xdr.Out() == [0, 0, 0, 0, 0, 0, 0, 1, 0, 0, 0, 0, 0, 0, 0, 0, 0, 0, 0, 0, 0, 0, 0, stat]
      ensures !active ==> xdr.View() == old(xdr.View())
    {
      if active {
        ErrorReplyBytes(stat);
        xdr.MsgStart(RPC_MSG_REPLY);
        var ok := SendReplyHeader(xdr, Accepted(NO_AUTH, stat, 0, 0));
      }
    }

    /**
     * The dispatch function of a service, as generated: decode, compute, reply, or report why
     * not, and release the arguments. Arguments that could not be decoded are not released.
     */
    method Serve(mem: Memory, env: Env, sv: Service, procNum: u32) returns (replied: bool)
      requires Valid() && active && xdr.op == Decode && ValidService(env, sv) && Sound(mem.View())
      modifies xdr`op, xdr`xid, xdr`outNext, xdr`inNext, xdr.outMsg, mem
      ensures Valid()
      ensures Served(env, sv, procNum, mem.malloc, old(xdr.In()), old(xdr.inNext), old(xdr.inMsg[0..4]),
                     replied, xdr.Out(), old(mem.View()), mem.View())
    {
      if !sv.known(procNum) {
        SvcErr(RPC_PROC_UNAVAIL);
        return true;
      }
      var ty := sv.args(procNum);
      ghost var inp, pos, h := xdr.In(), xdr.inNext, mem.View();
      DecodedIsLive(env, ty, mem.malloc, Zero(env, ty), inp, pos, h);
      DecOwnsWhatItAllocates(env, ty, mem.malloc, Zero(env, ty), inp, pos, h);
      var ok, args := GetArgs(mem, env, ty, Zero(env, ty));
      if !ok {
        SvcErr(RPC_GARBAGE_ARGS);
        return true;
      }
      DecodedIsSendable(env, ty, mem.malloc, Zero(env, ty), inp, pos, h);
      DecodeThenFree(env, ty, mem.malloc, Zero(env, ty), inp, pos, h);
      replied := ServeDecoded(mem, env, sv, procNum, args);
    }

    /** The rest of the dispatch function. */
    method ServeDecoded(mem: Memory, env: Env, sv: Service, procNum: u32, args: Obj) returns (replied: bool)
      requires Valid() && active && ValidService(env, sv)
      requires HasTy(env, sv.args(procNum), args) && Sendable(sv.args(procNum), env, args)
      requires Live(Owned(args), mem.View())
      modifies xdr`op, xdr`xid, xdr`outNext, xdr`inNext, xdr.outMsg, mem
      ensures Valid()
      ensures mem.View() == Free(env, sv.args(procNum), args, old(mem.View())).heap
      ensures var res := sv.compute(procNum, Value(env, sv.args(procNum), args));
              && replied == res.Some?
              && (replied ==>
                    xdr.Out() == ResultsReply(env, sv.results(procNum), res.value, old(xdr.inMsg[0..4])))
    {
      var ty := sv.args(procNum);
      replied := ReplyWith(mem, env, sv.results(procNum), sv.compute(procNum, Value(env, ty, args)));
      var ok, freed := FreeArgs(mem, env, ty, args);
    }

    /** The reply to decoded arguments: results, a system error if they do not fit, or none. */
    method ReplyWith(mem: Memory, env: Env, ty: Ty, res: Option<Obj>) returns (replied: bool)
      requires Valid() && active
      requires res.Some? ==> HasTy(env, ty, res.value) && Sendable(ty, env, res.value)
      modifies xdr`op, xdr`xid, xdr`outNext, xdr`inNext, xdr.outMsg, mem
      ensures Valid() && mem.View() == old(mem.View())
      ensures replied == res.Some?
      ensures replied ==> xdr.Out() == ResultsReply(env, ty, res.value, old(xdr.inMsg[0..4]))
    {
      if res.None? {
        return false;
      }
      var ok := SendReply(mem, env, ty, res.value);
      if !ok {
        SvcErr(RPC_SYSTEM_ERR);
      }
      return true;
    }

    /** `svc_dispatch` */
    method Dispatch(mem: Memory, env: Env, sv: Service) returns (replied: bool)
      requires Valid() && ValidService(env, sv) && Sound(mem.View())
      modifies this, xdr`op, xdr`xid, xdr`outNext, xdr`inNext, xdr.outMsg, mem
      ensures Valid()
      ensures var p := old(InWord(RPC_OFFSET + 5));
              if old(InWord(RPC_OFFSET + 1)) != RPC_MSG_CALL
                 || old(InWord(RPC_OFFSET + 3)) != prog || old(InWord(RPC_OFFSET + 4)) != vers
              then !replied && mem.View() == old(mem.View())
              else Served(env, sv, p, mem.malloc, old(xdr.In()), (RPC_OFFSET + 6 + 4) * 4, old(xdr.inMsg[0..4]),
                          replied, xdr.Out(), old(mem.View()), mem.View())
    {
      var p, v, procNum := InWord(RPC_OFFSET + 3), InWord(RPC_OFFSET + 4), InWord(RPC_OFFSET + 5);
      if InWord(RPC_OFFSET + 1) != RPC_MSG_CALL {
        return false;
      }
      if p != prog {
        return false;
      }
      if v != xdr.vers {
        return false;
      }
      xdr.inNext := (RPC_OFFSET + 6 + 4) * 4;
      active := true;
      xdr.op := Decode;
      replied := Serve(mem, env, sv, procNum);
      active := false;
    }
  }

  // ----- The client -----

  /** What the client makes of the head of a reply: a status to return, or results from `pos` on. */
  datatype Head = Refused(stat: int) | Ready(pos: nat)

  function ReceivedHead(xid: seq<byte>, inp: seq<byte>): Head
    requires |xid| == 4 && |inp| >= 8
  {
    if inp[..4] != xid then Refused(RPC_CANTRECV)
    else
      match DecReply(inp, 8)
      case NotParsed => Refused(RPC_CANTRECV)
      case Parsed(Denied(stat, _, _, _), _) => Refused(stat + RPC_VERSMISMATCH)
      case Parsed(Other(stat), _) => Refused(RPC_CANTRECV)
      case Parsed(Accepted(_, stat, _, _), pos) =>
        if stat != RPC_ACCEPT_SUCCESS then Refused(stat + RPC_AUTHERROR) else Ready(pos)
  }

  /** The outcome of the client's half that follows the arrival of a reply. */
  function Received(env: Env, ty: Ty, m: Malloc, xid: seq<byte>, inp: seq<byte>, h: Heap): (r: (int, Obj, Heap))
    requires |xid| == 4 && |inp| >= 8
  {
    match ReceivedHead(xid, inp)
    case Refused(stat) => (stat, Zero(env, ty), h)
    case Ready(pos) =>
      var d := Dec(env, ty, m, Zero(env, ty), inp, pos, h);
      (if d.ok then RPC_SUCCESS else RPC_CANTDECODERES, d.obj, d.heap)
  }

  /** Which status the client returns for which words behind the message type, numbers and all. */
  lemma HeadStatuses(xid: seq<byte>, inp: seq<byte>)
    requires |xid| == 4 && |inp| >= 36
    ensures var r := ReceivedHead(xid, inp);
            var reply, low, length, stat := WordAt(inp, 8), WordAt(inp, 12), WordAt(inp, 16), WordAt(inp, 20);
            if inp[..4] != xid then r == Refused(4)
            else if reply == 0 && length == 0 && stat <= 6 then
              r == if stat == 0 then Ready(24) else Refused(7 + stat)
            else if reply == 1 && low <= 1 then r == Refused(6 + low)
            else r == Refused(4)
  {
    HeaderRead(inp, 8);
  }

  /** The whole message of a call: it is sent exactly if the arguments obey their limits and fit. */
  lemma CallBytes(env: Env, ty: Ty, args: Obj, xid: u32, prog: u32, vers: u32, procNum: u32)
    requires HasTy(env, ty, args) && Sendable(ty, env, args)
    ensures var s, bytes := Enc(env, ty, args, CallHeader(xid, prog, vers, procNum)), Standard(env, ty, args);
            && (s.ok <==> InLimits(env, ty, args) && 40 + |bytes| <= 18432)
            && (s.ok ==> s.out == Word(xid) + [0, 0, 0, 0, 0, 0, 0, 2] + (Word(prog) + Word(vers) + Word(procNum))
                                  + [0, 0, 0, 0, 0, 0, 0, 0, 0, 0, 0, 0, 0, 0, 0, 0] + bytes)
  {
    EncIsStandard(env, ty, args, CallHeader(xid, prog, vers, procNum));
    CallHeaderParts(xid, prog, vers, procNum);
  }

  /** First half of `clnt_call`: the header and the arguments. */
  method ClntSend(x: Xdr, mem: Memory, env: Env, procNum: u32, ty: Ty, args: Obj) returns (ok: bool)
    requires x.Valid() && HasTy(env, ty, args) && Sendable(ty, env, args)
    modifies x`op, x`prog, x`procNum, x`xid, x`outNext, x`inNext, x.outMsg, mem
    ensures x.Valid() && mem.View() == old(mem.View())
    ensures x.xid == (old(x.xid) + 1) % U32_SIZE && x.prog == old(x.prog)
    ensures Enc(env, ty, args, CallHeader(x.xid, old(x.prog), x.vers, procNum)) == Sent(ok, x.Out())
    ensures x.outNext >= 40 && x.Out()[4..12] == [0, 0, 0, 0, 0, 0, 0, 2]
    ensures x.Out()[24..40] == [0, 0, 0, 0, 0, 0, 0, 0, 0, 0, 0, 0, 0, 0, 0, 0]
  {
    x.op := Encode;
    CallHeaderIsSent((x.xid + 1) % U32_SIZE, x.prog, x.vers, procNum);
    ok := CallMsgStart(x, x.prog, x.vers, procNum, NO_AUTH, NO_AUTH);
    if !ok {
      return false;
    }
    ok := XdrEncode(x, mem, env, ty, args);
    StartsWithCallHeader(x.xid, x.prog, x.vers, procNum, x.Out());
  }

  lemma StartsWithCallHeader(xid: u32, prog: u32, vers: u32, procNum: u32, out: seq<byte>)
    requires CallHeader(xid, prog, vers, procNum) <= out
    ensures |out| >= 40 && out[4..12] == [0, 0, 0, 0, 0, 0, 0, 2]
    ensures out[24..40] == [0, 0, 0, 0, 0, 0, 0, 0, 0, 0, 0, 0, 0, 0, 0, 0]
  {
    var c := CallHeader(xid, prog, vers, procNum);
    CallHeaderBytes(xid, prog, vers, procNum);
    assert out[..40] == c;
    assert out[4..12] == out[..40][4..12] && out[24..40] == out[..40][24..40];
  }

  /** Second half of `clnt_call`: transaction id, reply header, results. */
  method ClntReceive(x: Xdr, mem: Memory, env: Env, ty: Ty) returns (stat: int, res: Obj)
    requires x.Valid() && x.inNext == (RPC_OFFSET + 2) * 4 <= x.inLen && x.outNext >= 4
    modifies x`op, x`outNext, x`inNext, x.outMsg, mem
    ensures x.Valid()
    ensures (stat, res, mem.View())
         == Received(env, ty, mem.malloc, old(x.Out()[..4]), old(x.In()), old(mem.View()))
  {
    res := Zero(env, ty);
    var ok;
    ok, stat := ReceiveHead(x);
    if !ok {
      return;
    }
    x.op := Decode;
    ok, res := XdrDecode(x, mem, env, ty, res);
    stat := if ok then RPC_SUCCESS else RPC_CANTDECODERES;
  }

  /** Transaction id and reply header; unless all is well, `stat` is what the call returns. */
  method ReceiveHead(x: Xdr) returns (ok: bool, stat: int)
    requires x.Valid() && x.inNext == (RPC_OFFSET + 2) * 4 <= x.inLen && x.outNext >= 4
    modifies x`inNext
    ensures x.Valid()
    ensures ReceivedHead(x.Out()[..4], x.In()) == if ok then Ready(x.inNext) else Refused(stat)
  {
    assert x.In()[..4] == x.inMsg[..4] && x.Out()[..4] == x.outMsg[..4];
    if x.outMsg[..4] != x.inMsg[..4] {
      return false, RPC_CANTRECV;
    }
    ReadHeadersAreKnown(x.In(), x.inNext);
    var h;
    ok, h := RecvReplyHeader(x);
    if !ok {
      return false, RPC_CANTRECV;
    }
    if !h.Accepted? {
      return false, h.stat + RPC_VERSMISMATCH;
    } else if h.stat != RPC_ACCEPT_SUCCESS {
      return false, h.stat + RPC_AUTHERROR;
    }
    return true, RPC_SUCCESS;
  }

  // ----- End to end -----

  datatype Outcome = Returned(stat: int, res: Obj) | NoReply

  lemma CallHeaderWords(xid: u32, prog: u32, vers: u32, procNum: u32, msg: seq<byte>)
    requires CallHeader(xid, prog, vers, procNum) <= msg
    ensures msg[0..4] == Word(xid)
    ensures Unword(msg[4..8]) == RPC_MSG_CALL
    ensures Unword(msg[12..16]) == prog && Unword(msg[16..20]) == vers && Unword(msg[20..24]) == procNum
  {
    var c := CallHeader(xid, prog, vers, procNum);
    assert msg[..24] == c[..24] == CallWords(xid, prog, vers, procNum);
    assert msg[0..4] == msg[..24][0..4] == Word(xid);
    WordSent(msg, MsgHead(xid, RPC_MSG_CALL)[..4], RPC_MSG_CALL);
    var head := MsgHead(xid, RPC_MSG_CALL) + Word(RPC_MSG_VERSION);
    WordSent(msg, head, prog);
    WordSent(msg, head + Word(prog), vers);
    WordSent(msg, head + Word(prog) + Word(vers), procNum);
  }

  /** A word sent behind some bytes is read back there. */
  lemma WordSent(msg: seq<byte>, before: seq<byte>, w: u32)
    requires before + Word(w) <= msg
    ensures Unword(msg[|before|..|before| + 4]) == w
  {
    assert msg[|before|..|before| + 4] == (before + Word(w))[|before|..] == Word(w);
    UnwordOfWord(w);
  }

  /** What the client makes of an error reply. */
  function ErrorOutcome(stat: int, xid: u32): int {
    if xid == SERVER_XID then stat + RPC_AUTHERROR else RPC_CANTRECV
  }

  /**
   * A server reports errors under its own transaction id, so the client learns the reason only
   * if its own id is 0.
   */
  lemma ErrorReplyReceived(env: Env, ty: Ty, m: Malloc, stat: int, xid: u32, h: Heap)
    requires IsError(stat)
    ensures var reply := ErrorReply(stat);
            && 8 <= |reply| <= MSGSIZE_MAX
            && Received(env, ty, m, Word(xid), reply, h) == (ErrorOutcome(stat, xid), Zero(env, ty), h)
  {
    var head := Accepted(NO_AUTH, stat, 0, 0);
    var out := MsgHead(SERVER_XID, RPC_MSG_REPLY);
    NoAuthIsTwoZeros(out + Word(0));
    var reply := EncReply(head, out).out;
    ReplyRoundTrip(head, out, reply);
    assert reply[..4] == out[..4] == Word(SERVER_XID);
    UnwordOfWord(xid);
    UnwordOfWord(SERVER_XID);
  }

  /**
   * What becomes of results on their way to the client: the same value, or an error that needs
   * a failing allocation. Either way the object received owns what was allocated for it.
   */
  ghost predicate ResultsTaken(
      env: Env, ty: Ty, m: Malloc, res: Obj, stat: int, got: Obj, before: Heap, after: Heap)
    requires HasTy(env, ty, res) && Sendable(ty, env, res)
  {
    && HasTy(env, ty, got) && Grew(before, after, Owned(got))
    && if stat == RPC_SUCCESS then Sendable(ty, env, got) && Value(env, ty, got) == Value(env, ty, res)
       else stat == RPC_CANTDECODERES && MayFail(m)
  }

  /** A reply whose transaction id was replaced by the caller's is received as it was computed. */
  lemma SuccessReplyReceived(
      env: Env, ty: Ty, m: Malloc, res: Obj, xid: seq<byte>, reply: seq<byte>, h: Heap)
    requires HasTy(env, ty, res) && Sendable(ty, env, res) && |xid| == 4
    requires Enc(env, ty, res, ReplyHead(SERVER_XID)).ok
    requires reply == xid + Enc(env, ty, res, ReplyHead(SERVER_XID)).out[4..]
    ensures |reply| >= 8
    ensures var (stat, got, h') := Received(env, ty, m, xid, reply, h);
            ResultsTaken(env, ty, m, res, stat, got, h, h')
  {
    var sent := Enc(env, ty, res, ReplyHead(SERVER_XID)).out;
    assert reply[4..] == sent[4..];
    SuccessHeadReceived(xid, reply);
    assert reply[24..|sent|] == sent[24..];
    RoundTripUnlessFailing(env, ty, m, res, ReplyHead(SERVER_XID), Zero(env, ty), reply, h);
    DecOwnsWhatItAllocates(env, ty, m, Zero(env, ty), reply, 24, h);
  }

  lemma SuccessHeadReceived(xid: seq<byte>, reply: seq<byte>)
    requires |xid| == 4 && |reply| >= 24 && reply[..4] == xid && reply[4..24] == ReplyHead(SERVER_XID)[4..]
    ensures ReceivedHead(xid, reply) == Ready(24)
  {
    ReplyHeadIsSuccessHeader(SERVER_XID);
    assert reply[8..24] == reply[4..24][4..] == ReplyHead(SERVER_XID)[8..];
    ReplyRoundTrip(Accepted(NO_AUTH, RPC_ACCEPT_SUCCESS, 0, 0), MsgHead(SERVER_XID, RPC_MSG_REPLY), reply);
  }

  /**
   * The server's side of a call, given whether the arguments were decoded, for which only a
   * failing allocation can be a reason not to be.
   */
  ghost predicate Exchanged(
      env: Env, sv: Service, procNum: u32, args: Obj, xid: u32, called: bool, m: Malloc, decoded: bool,
      replied: bool, reply: seq<byte>, before: Heap, after: Heap)
    requires HasTy(env, sv.args(procNum), args) && Sendable(sv.args(procNum), env, args) && ValidService(env, sv)
  {
    var res := sv.compute(procNum, Value(env, sv.args(procNum), args));
    if !called then
      !replied && after == before
    else if !sv.known(procNum) then
      replied && reply == ErrorReply(RPC_PROC_UNAVAIL) && after == before
    else if !decoded then
      && replied && reply == ErrorReply(RPC_GARBAGE_ARGS)
      && MayFail(m) && before.next <= after.next && after.freed == before.freed
    else
      && before.next <= after.next
      && multiset(after.freed) == multiset(before.freed) + Issued(before.next, after.next)
      && replied == res.Some?
      && (replied ==> reply == ResultsReply(env, sv.results(procNum), res.value, Word(xid)))
  }

  /** The message arrives, is dispatched, and the reply is taken. */
  method Exchange(
      serv: Server, mem: Memory, env: Env, sv: Service, msg: seq<byte>,
      ghost xid: u32, ghost prog: u32, ghost vers: u32, ghost procNum: u32, ghost args: Obj)
      returns (replied: bool, reply: seq<byte>, ghost decoded: bool)
    requires serv.Valid() && ValidService(env, sv) && Sound(mem.View())
    requires HasTy(env, sv.args(procNum), args) && Sendable(sv.args(procNum), env, args)
    requires Enc(env, sv.args(procNum), args, CallHeader(xid, prog, vers, procNum)) == Sent(true, msg)
    requires |msg| <= MSGSIZE_MAX
    modifies serv, serv.xdr, serv.xdr.outMsg, serv.xdr.inMsg, mem
    ensures serv.Valid() && |reply| <= MSGSIZE_MAX
    ensures Exchanged(env, sv, procNum, args, xid, prog == serv.prog && vers == serv.vers, mem.malloc, decoded,
                      replied, reply, old(mem.View()), mem.View())
  {
    var ok := serv.xdr.Read(msg);
    CallHeaderWords(xid, prog, vers, procNum, msg);
    InWords(serv, msg);
    ghost var ty, h := sv.args(procNum), mem.View();
    decoded := Dec(env, ty, mem.malloc, Zero(env, ty), msg, 40, h).ok;
    RoundTripUnlessFailing(env, ty, mem.malloc, args, CallHeader(xid, prog, vers, procNum), Zero(env, ty), msg, h);
    replied := serv.Dispatch(mem, env, sv);
    reply := if replied then serv.xdr.Out() else [];
  }

  /** What the client returns for a reply: what comes of the results, or the outcome of an error. */
  ghost predicate ReplyOutcome(
      env: Env, ty: Ty, m: Malloc, error: Option<int>, res: Option<Obj>, xid: u32,
      stat: int, got: Obj, before: Heap, after: Heap)
    requires error.None? ==> res.Some? && HasTy(env, ty, res.value) && Sendable(ty, env, res.value)
  {
    if error.None? && Enc(env, ty, res.value, ReplyHead(SERVER_XID)).ok then
      ResultsTaken(env, ty, m, res.value, stat, got, before, after)
    else
      && got == Zero(env, ty) && after == before
      && stat == ErrorOutcome(if error.Some? then error.value else RPC_SYSTEM_ERR, xid)
  }

  /** The client's side of a reply: results, or the outcome of an error. */
  method TakeReply(
      x: Xdr, mem: Memory, env: Env, ty: Ty, reply: seq<byte>, ghost error: Option<int>, ghost res: Option<Obj>)
      returns (stat: int, got: Obj)
    requires x.Valid() && x.outNext >= 4 && x.Out()[..4] == Word(x.xid) && |reply| <= MSGSIZE_MAX
    requires error.Some? ==> IsError(error.value) && reply == ErrorReply(error.value)
    requires error.None? ==> res.Some? && HasTy(env, ty, res.value) && Sendable(ty, env, res.value)
    requires error.None? ==> reply == ResultsReply(env, ty, res.value, Word(x.xid))
    modifies x`op, x`inLen, x`outNext, x`inNext, x.outMsg, x.inMsg, mem
    ensures x.Valid()
    ensures ReplyOutcome(env, ty, mem.malloc, error, res, x.xid, stat, got, old(mem.View()), mem.View())
  {
    if error.None? && Enc(env, ty, res.value, ReplyHead(SERVER_XID)).ok {
      SuccessReplyReceived(env, ty, mem.malloc, res.value, Word(x.xid), reply, mem.View());
    } else {
      var e := if error.Some? then error.value else RPC_SYSTEM_ERR;
      ErrorReplyReceived(env, ty, mem.malloc, e, x.xid, mem.View());
    }
    var ok := x.Read(reply);
    stat, got := ClntReceive(x, mem, env, ty);
  }

  /** The heaps of the two sides, before and after a call. */
  datatype Heaps = Heaps(server: Heap, client: Heap)

  /**
   * What a call comes to, given the call head, whether the server is the one called, and the
   * client's transaction id: what comes of the results a local call would give, if both
   * messages fit; an encoding error if the arguments do not fit; what the client makes of an
   * error reply if the procedure is not there, the results do not fit, or the server has no
   * memory for the arguments; and otherwise no reply. The server releases every block it
   * allocated, unless it had no memory, and the client keeps those of the results only.
   */
  ghost predicate LikeALocalCall(
      env: Env, sv: Service, procNum: u32, args: Obj, callHead: seq<byte>, called: bool, xid: u32,
      sm: Malloc, cm: Malloc, outcome: Outcome, before: Heaps, after: Heaps)
    requires HasTy(env, sv.args(procNum), args) && Sendable(sv.args(procNum), env, args)
    requires ValidService(env, sv)
  {
    var ty, rty := sv.args(procNum), sv.results(procNum);
    var res := sv.compute(procNum, Value(env, ty, args));
    if !Enc(env, ty, args, callHead).ok then
      outcome == Returned(RPC_CANTENCODEARGS, Zero(env, rty)) && after == before
    else if !called then
      outcome == NoReply && after == before
    else if !sv.known(procNum) then
      outcome == Returned(ErrorOutcome(RPC_PROC_UNAVAIL, xid), Zero(env, rty)) && after == before
    else
      && before.server.next <= after.server.next
      && (|| (&& MayFail(sm) && after.server.freed == before.server.freed && after.client == before.client
              && outcome == Returned(ErrorOutcome(RPC_GARBAGE_ARGS, xid), Zero(env, rty)))
          || (&& multiset(after.server.freed)
                 == multiset(before.server.freed) + Issued(before.server.next, after.server.next)
              && if res.None? then outcome == NoReply && after.client == before.client
                 else outcome.Returned? &&
                      ReplyOutcome(env, rty, cm, None, res, xid, outcome.stat, outcome.res,
                                   before.client, after.client)))
  }

  /** The error the server reports, if any. */
  function Reported(sv: Service, procNum: u32, decoded: bool): Option<int> {
    if !sv.known(procNum) then Some(RPC_PROC_UNAVAIL)
    else if !decoded then Some(RPC_GARBAGE_ARGS)
    else None
  }

  lemma ReportedOrResults(
      env: Env, sv: Service, procNum: u32, args: Obj, xid: u32, called: bool, m: Malloc, decoded: bool,
      reply: seq<byte>, before: Heap, after: Heap)
    requires HasTy(env, sv.args(procNum), args) && Sendable(sv.args(procNum), env, args) && ValidService(env, sv)
    requires Exchanged(env, sv, procNum, args, xid, called, m, decoded, true, reply, before, after)
    ensures var error, ty := Reported(sv, procNum, decoded), sv.results(procNum);
            var res := sv.compute(procNum, Value(env, sv.args(procNum), args));
            && (error.Some? ==> IsError(error.value) && reply == ErrorReply(error.value))
            && (error.None? ==>
                  && res.Some? && HasTy(env, ty, res.value) && Sendable(ty, env, res.value)
                  && reply == ResultsReply(env, ty, res.value, Word(xid)))
  {
  }

  lemma CallConcluded(
      env: Env, sv: Service, procNum: u32, args: Obj, callHead: seq<byte>, called: bool, xid: u32,
      sm: Malloc, cm: Malloc, decoded: bool, replied: bool, reply: seq<byte>, stat: int, got: Obj,
      before: Heaps, after: Heaps)
    requires HasTy(env, sv.args(procNum), args) && Sendable(sv.args(procNum), env, args) && ValidService(env, sv)
    requires Enc(env, sv.args(procNum), args, callHead).ok
    requires Exchanged(env, sv, procNum, args, xid, called, sm, decoded, replied, reply, before.server, after.server)
    requires var res := sv.compute(procNum, Value(env, sv.args(procNum), args));
             if replied then
               && (Reported(sv, procNum, decoded).None? ==> res.Some?)
               && ReplyOutcome(env, sv.results(procNum), cm, Reported(sv, procNum, decoded), res, xid,
                               stat, got, before.client, after.client)
             else after.client == before.client
    ensures LikeALocalCall(env, sv, procNum, args, callHead, called, xid, sm, cm,
                           if replied then Returned(stat, got) else NoReply, before, after)
  {
  }

  /** The rest of a call whose message is ready. */
  method AwaitReply(
      x: Xdr, cmem: Memory, serv: Server, smem: Memory, env: Env, sv: Service, procNum: u32, ghost args: Obj)
      returns (outcome: Outcome)
    requires x.Valid() && serv.Valid() && ValidService(env, sv) && Sound(smem.View())
    requires x != serv.xdr && cmem != smem
    requires {x.outMsg, x.inMsg} !! {serv.xdr.outMsg, serv.xdr.inMsg}
    requires HasTy(env, sv.args(procNum), args) && Sendable(sv.args(procNum), env, args)
    requires Enc(env, sv.args(procNum), args, CallHeader(x.xid, x.prog, x.vers, procNum)) == Sent(true, x.Out())
    modifies x`op, x`inLen, x`outNext, x`inNext, x.outMsg, x.inMsg, cmem
    modifies serv, serv.xdr, serv.xdr.outMsg, serv.xdr.inMsg, smem
    ensures x.Valid() && serv.Valid()
    ensures LikeALocalCall(env, sv, procNum, args, CallHeader(x.xid, x.prog, x.vers, procNum),
                           (x.prog, x.vers) == (serv.prog, serv.vers), x.xid, smem.malloc, cmem.malloc, outcome,
                           old(Heaps(smem.View(), cmem.View())), Heaps(smem.View(), cmem.View()))
  {
    var rty, msg := sv.results(procNum), x.Out();
    ghost var res := sv.compute(procNum, Value(env, sv.args(procNum), args));
    ghost var called := (x.prog, x.vers) == (serv.prog, serv.vers);
    ghost var head, before := CallHeader(x.xid, x.prog, x.vers, procNum), Heaps(smem.View(), cmem.View());
    assert msg[..4] == Word(x.xid);
    ghost var decoded;
    var replied, reply;
    replied, reply, decoded := Exchange(serv, smem, env, sv, msg, x.xid, x.prog, x.vers, procNum, args);
    assert x.Out() == msg;
    var stat, got := RPC_SUCCESS, Zero(env, rty);
    if replied {
      ReportedOrResults(env, sv, procNum, args, x.xid, called, smem.malloc, decoded, reply, before.server, smem.View());
      stat, got := TakeReply(x, cmem, env, rty, reply, Reported(sv, procNum, decoded), res);
    }
    CallConcluded(env, sv, procNum, args, head, called, x.xid, smem.malloc, cmem.malloc, decoded, replied, reply,
                  stat, got, before, Heaps(smem.View(), cmem.View()));
    outcome := if replied then Returned(stat, got) else NoReply;
  }

  lemma StaysSound(before: Heap, after: Heap)
    requires Sound(before) && before.next <= after.next
    requires after.freed == before.freed ||
             multiset(after.freed) == multiset(before.freed) + Issued(before.next, after.next)
    ensures Sound(after)
  {
    forall id: nat ensures multiset(after.freed)[id] <= 1 && (id in after.freed ==> id < after.next) {
      IssuedOnce(before.next, after.next, id);
      assert (multiset(before.freed) + multiset{})[id] <= 1;
      assert multiset(before.freed)[id] > 0 ==> id in before.freed;
      assert id in after.freed ==> multiset(after.freed)[id] > 0;
    }
    assert multiset(after.freed) + multiset{} == multiset(after.freed);
  }

  /** So another call may follow. */
  lemma CallKeepsSound(
      env: Env, sv: Service, procNum: u32, args: Obj, callHead: seq<byte>, called: bool, xid: u32,
      sm: Malloc, cm: Malloc, outcome: Outcome, before: Heaps, after: Heaps)
    requires HasTy(env, sv.args(procNum), args) && Sendable(sv.args(procNum), env, args) && ValidService(env, sv)
    requires LikeALocalCall(env, sv, procNum, args, callHead, called, xid, sm, cm, outcome, before, after)
    requires Sound(before.server)
    ensures Sound(after.server)
  {
    StaysSound(before.server, after.server);
  }

  /**
   * A remote call behaves like a local one, over a transport that copies bytes and with any
   * allocators. The client gets RPC_SUCCESS with exactly the value the service computes from
   * the value of the arguments, if the server is the one called, has the procedure and a
   * result, both messages fit and no allocation fails. If the arguments do not fit, nothing is
   * sent. If the procedure is missing, the results do not fit or the server lacks memory, an
   * error reply comes, whose reason gets through only if the client's transaction id is 0.
   * If the client lacks memory the results cannot be decoded. Otherwise no reply comes.
   */
  method RemoteCall(
      x: Xdr, cmem: Memory, serv: Server, smem: Memory, env: Env, sv: Service, procNum: u32, args: Obj)
      returns (outcome: Outcome)
    requires x.Valid() && serv.Valid() && ValidService(env, sv) && Sound(smem.View())
    requires x != serv.xdr && cmem != smem
    requires {x.outMsg, x.inMsg} !! {serv.xdr.outMsg, serv.xdr.inMsg}
    requires HasTy(env, sv.args(procNum), args) && Sendable(sv.args(procNum), env, args)
    modifies x, x.outMsg, x.inMsg, cmem, serv, serv.xdr, serv.xdr.outMsg, serv.xdr.inMsg, smem
    ensures x.Valid() && serv.Valid() && Sound(smem.View())
    ensures LikeALocalCall(env, sv, procNum, args, CallHeader(x.xid, old(x.prog), x.vers, procNum),
                           (old(x.prog), x.vers) == (serv.prog, serv.vers), x.xid, smem.malloc, cmem.malloc, outcome,
                           old(Heaps(smem.View(), cmem.View())), Heaps(smem.View(), cmem.View()))
  {
    var ty, rty := sv.args(procNum), sv.results(procNum);
    var ok := ClntSend(x, cmem, env, procNum, ty, args);
    if !ok {
      return Returned(RPC_CANTENCODEARGS, Zero(env, rty));
    }
    ghost var before := Heaps(smem.View(), cmem.View());
    outcome := AwaitReply(x, cmem, serv, smem, env, sv, procNum, args);
    CallKeepsSound(env, sv, procNum, args, CallHeader(x.xid, x.prog, x.vers, procNum),
                   (x.prog, x.vers) == (serv.prog, serv.vers), x.xid, smem.malloc, cmem.malloc, outcome,
                   before, Heaps(smem.View(), cmem.View()));
  }

  /** Without failing allocations nothing but messages that do not fit keeps the results away. */
  lemma WithMemoryResultsArrive(
      env: Env, sv: Service, procNum: u32, args: Obj, callHead: seq<byte>, xid: u32, sm: Malloc, cm: Malloc,
      outcome: Outcome, before: Heaps, after: Heaps)
    requires HasTy(env, sv.args(procNum), args) && Sendable(sv.args(procNum), env, args) && ValidService(env, sv)
    requires LikeALocalCall(env, sv, procNum, args, callHead, true, xid, sm, cm, outcome, before, after)
    requires !MayFail(sm) && !MayFail(cm) && sv.known(procNum)
    requires sv.compute(procNum, Value(env, sv.args(procNum), args)).Some?
    ensures var rty := sv.results(procNum);
            var res := sv.compute(procNum, Value(env, sv.args(procNum), args)).value;
            && outcome.Returned?
            && (Enc(env, sv.args(procNum), args, callHead).ok && Enc(env, rty, res, ReplyHead(SERVER_XID)).ok ==>
                  && outcome.stat == RPC_SUCCESS && HasTy(env, rty, outcome.res) && Sendable(rty, env, outcome.res)
                  && Value(env, rty, outcome.res) == Value(env, rty, res))
            && (outcome.stat == RPC_SUCCESS ==>
                  Enc(env, sv.args(procNum), args, callHead).ok && Enc(env, rty, res, ReplyHead(SERVER_XID)).ok)
  {
  }

  /** The bytes of an object obey their limits and fit behind a header of `header` bytes. */
  predicate FitsBehind(env: Env, ty: Ty, o: Obj, header: nat)
    requires HasTy(env, ty, o) && Sendable(ty, env, o)
  {
    InLimits(env, ty, o) && header + |Standard(env, ty, o)| <= 18432
  }

  /**
   * A call in numbers: its outcome is settled by the limits and the sizes of the two messages in
   * the standard's format, the server and procedure called, what a local call returns, and, for
   * the reason of an error, the client's transaction id, unless an allocation fails.
   */
  lemma CallStatuses(
      env: Env, sv: Service, procNum: u32, args: Obj, prog: u32, vers: u32, called: bool, xid: u32,
      sm: Malloc, cm: Malloc, outcome: Outcome, before: Heaps, after: Heaps)
    requires HasTy(env, sv.args(procNum), args) && Sendable(sv.args(procNum), env, args) && ValidService(env, sv)
    requires LikeALocalCall(env, sv, procNum, args, CallHeader(xid, prog, vers, procNum), called, xid, sm, cm,
                            outcome, before, after)
    ensures var ty, rty := sv.args(procNum), sv.results(procNum);
            var res := sv.compute(procNum, Value(env, ty, args));
            if !FitsBehind(env, ty, args, 40) then outcome == Returned(1, Zero(env, rty))
            else if !called then outcome == NoReply
            else if !sv.known(procNum) then outcome == Returned(if xid == 0 then 10 else 4, Zero(env, rty))
            else
              || (MayFail(sm) && outcome == Returned(if xid == 0 then 11 else 4, Zero(env, rty)))
              || if res.None? then outcome == NoReply
                 else if !FitsBehind(env, rty, res.value, 24) then
                   outcome == Returned(if xid == 0 then 12 else 4, Zero(env, rty))
                 else
                   && outcome.Returned? && HasTy(env, rty, outcome.res)
                   && (|| (MayFail(cm) && outcome.stat == 2)
                       || (&& outcome.stat == 0 && Sendable(rty, env, outcome.res)
                           && Value(env, rty, outcome.res) == Value(env, rty, res.value)))
  {
    var ty, rty := sv.args(procNum), sv.results(procNum);
    var res := sv.compute(procNum, Value(env, ty, args));
    CallBytes(env, ty, args, xid, prog, vers, procNum);
    if res.Some? {
      EncIsStandard(env, rty, res.value, ReplyHead(SERVER_XID));
    }
  }

  lemma InWords(serv: Server, msg: seq<byte>)
    requires serv.xdr.Valid() && serv.xdr.In() == msg && |msg| >= 40
    ensures serv.xdr.inMsg[0..4] == msg[0..4]
    ensures serv.InWord(1) == Unword(msg[4..8]) && serv.InWord(3) == Unword(msg[12..16])
    ensures serv.InWord(4) == Unword(msg[16..20]) && serv.InWord(5) == Unword(msg[20..24])
  {
    var a := serv.xdr.inMsg;
    assert a[0..4] == msg[0..4] && a[4..8] == msg[4..8] && a[12..16] == msg[12..16];
    assert a[16..20] == msg[16..20] && a[20..24] == msg[20..24];
  }
}
