/** RPC call and reply headers: how they are composed from XDR primitives, and read back. */
module RpcHeaders {
  import opened Words
  import opened XdrObjects
  import opened XdrSpec
  import opened XdrLaws
  import opened XdrStream

  const RPC_MSG_VERSION: u32 := 2
  const AUTH_NONE: int := 0

  const RPC_MSG_ACCEPTED: int := 0
  const RPC_MSG_DENIED: int := 1

  const RPC_ACCEPT_SUCCESS: int := 0
  const RPC_PROG_MISMATCH: int := 2
  const RPC_PROG_LOCKED: int := 6

  const RPC_MISMATCH: int := 0
  const RPC_AUTH_ERROR: int := 1

  datatype Auth = Auth(flavor: int, length: u32, base: seq<byte>)

  /** An authenticator whose body is as long as it claims. */
  predicate ValidAuth(a: Auth) {
    InRange(Int, a.flavor) && a.length <= |a.base| && a.length <= LEN_LIMIT
  }

  const NO_AUTH: Auth := Auth(AUTH_NONE, 0, [])

  /**
   * A reply header; `low` and `high` mean something only for a version mismatch, `why` only for
   * an authentication error. `Other` is a header whose first field is neither status.
   */
  datatype Reply =
    | Accepted(verf: Auth, stat: int, low: u32, high: u32)
    | Denied(stat: int, low: u32, high: u32, why: int)
    | Other(stat: int)

  predicate ValidReply(h: Reply) {
    && InRange(Int, h.stat)
    && (h.Accepted? ==> ValidAuth(h.verf))
    && (h.Denied? ==> InRange(Int, h.why))
  }

  /** The statuses the header routines have a case for. */
  predicate KnownStatus(h: Reply) {
    match h
    case Accepted(_, stat, _, _) => RPC_ACCEPT_SUCCESS <= stat <= RPC_PROG_LOCKED
    case Denied(stat, _, _, _) => stat == RPC_MISMATCH || stat == RPC_AUTH_ERROR
    case Other(_) => false
  }

  /** The header with the fields that mean nothing for its status cleared. */
  function Meaning(h: Reply): Reply {
    match h
    case Accepted(verf, stat, low, high) =>
      if stat == RPC_PROG_MISMATCH then Accepted(verf.(base := []), stat, low, high)
      else Accepted(verf.(base := []), stat, 0, 0)
    case Denied(stat, low, high, why) =>
      if stat == RPC_MISMATCH then Denied(stat, low, high, 0) else Denied(stat, 0, 0, why)
    case Other(_) => h
  }

  // ----- Sending -----

  function EncAuth(a: Auth, out: seq<byte>): (r: Sent)
    requires ValidAuth(a)
    ensures out <= r.out
  {
    var s := SendWords(out, [ToU32(a.flavor), a.length]);
    if !s.ok || a.length == 0 then s else XdrSpec.SendBytes(s.out, a.base[..a.length])
  }

  function EncReply(h: Reply, out: seq<byte>): (r: Sent)
    requires ValidReply(h)
    ensures out <= r.out
  {
    match h
    case Accepted(verf, stat, low, high) =>
      var s := SendWord(out, ToU32(RPC_MSG_ACCEPTED));
      if !s.ok then s
      else
        var a := EncAuth(verf, s.out);
        if !a.ok then a
        else
          var t := SendWord(a.out, ToU32(stat));
          if !t.ok || !KnownStatus(h) then Sent(false, t.out)
          else if stat == RPC_PROG_MISMATCH then SendWords(t.out, [low, high])
          else t
    case Denied(stat, low, high, why) =>
      var s := SendWords(out, [ToU32(RPC_MSG_DENIED), ToU32(stat)]);
      if !s.ok || !KnownStatus(h) then Sent(false, s.out)
      else if stat == RPC_MISMATCH then SendWords(s.out, [low, high])
      else SendWord(s.out, ToU32(why))
    case Other(stat) => Sent(false, SendWord(out, ToU32(stat)).out)
  }

  // ----- Receiving -----

  datatype Parsed<T> = NotParsed | Parsed(value: T, pos: nat)

  /** A verifier with a body is refused whatever the body is. */
  function DecAuth(inp: seq<byte>, pos: nat): Parsed<Auth> {
    if !HasWord(inp, pos) || !HasWord(inp, pos + 4) || WordAt(inp, pos + 4) != 0 then NotParsed
    else Parsed(Auth(Signed32(WordAt(inp, pos)), 0, []), pos + 8)
  }

  function DecReply(inp: seq<byte>, pos: nat): Parsed<Reply> {
    if !HasWord(inp, pos) then NotParsed
    else
      var stat := Signed32(WordAt(inp, pos));
      if stat == RPC_MSG_ACCEPTED then DecAccepted(inp, pos + 4)
      else if stat == RPC_MSG_DENIED then DecDenied(inp, pos + 4)
      else NotParsed
  }

  function DecAccepted(inp: seq<byte>, pos: nat): Parsed<Reply> {
    var a := DecAuth(inp, pos);
    if a.NotParsed? || !HasWord(inp, a.pos) then NotParsed
    else
      var stat := Signed32(WordAt(inp, a.pos));
      if !(RPC_ACCEPT_SUCCESS <= stat <= RPC_PROG_LOCKED) then NotParsed
      else if stat != RPC_PROG_MISMATCH then Parsed(Accepted(a.value, stat, 0, 0), a.pos + 4)
      else if !HasWord(inp, a.pos + 8) then NotParsed
      else Parsed(Accepted(a.value, stat, WordAt(inp, a.pos + 4), WordAt(inp, a.pos + 8)), a.pos + 12)
  }

  function DecDenied(inp: seq<byte>, pos: nat): Parsed<Reply> {
    if !HasWord(inp, pos) then NotParsed
    else
      var stat := Signed32(WordAt(inp, pos));
      if stat == RPC_MISMATCH then
        if !HasWord(inp, pos + 8) then NotParsed
        else Parsed(Denied(stat, WordAt(inp, pos + 4), WordAt(inp, pos + 8), 0), pos + 12)
      else if stat == RPC_AUTH_ERROR then
        if !HasWord(inp, pos + 4) then NotParsed
        else Parsed(Denied(stat, 0, 0, Signed32(WordAt(inp, pos + 4))), pos + 8)
      else NotParsed
  }

  // ----- Laws -----

  lemma TwoWordsCarried(inp: seq<byte>, out: seq<byte>, w1: u32, w2: u32, sent: seq<byte>)
    requires SendWords(out, [w1, w2]).ok && SendWords(out, [w1, w2]).out <= sent && Carries(inp, |out|, sent)
    ensures HasWord(inp, |out|) && WordAt(inp, |out|) == w1
    ensures HasWord(inp, |out| + 4) && WordAt(inp, |out| + 4) == w2
    ensures |SendWords(out, [w1, w2]).out| == |out| + 8 && Carries(inp, |out| + 8, sent)
  {
    SendTwoWords(out, w1, w2);
    var mid := out + Word(w1);
    WordCarried(inp, out, w1, sent);
    WordCarried(inp, mid, w2, sent);
  }

  lemma SignedOfSent(v: int)
    requires InRange(Int, v)
    ensures Signed32(ToU32(v)) == v
  {
  }

  /**
   * Reply headers: whatever header was sent, the receiver reads back its meaning and stops
   * where the sender stopped, unless the verifier has a body, in which case it refuses.
   */
  lemma ReplyRoundTrip(h: Reply, out: seq<byte>, inp: seq<byte>)
    requires ValidReply(h) && |out| % 4 == 0
    requires EncReply(h, out).ok && Carries(inp, |out|, EncReply(h, out).out)
    ensures DecReply(inp, |out|)
         == if h.Accepted? && h.verf.length != 0 then NotParsed
            else Parsed(Meaning(h), |EncReply(h, out).out|)
  {
    if h.Accepted? && h.verf.length != 0 {
      VerifierBodyIsRefused(h, out, inp);
    } else if h.Accepted? {
      AcceptedRoundTrip(h, out, inp);
    } else {
      DeniedRoundTrip(h, out, inp);
    }
  }

  lemma DeniedRoundTrip(h: Reply, out: seq<byte>, inp: seq<byte>)
    requires ValidReply(h) && h.Denied?
    requires EncReply(h, out).ok && Carries(inp, |out|, EncReply(h, out).out)
    ensures DecReply(inp, |out|) == Parsed(Meaning(h), |EncReply(h, out).out|)
  {
    var sent := EncReply(h, out).out;
    var s := SendWords(out, [ToU32(RPC_MSG_DENIED), ToU32(h.stat)]).out;
    TwoWordsCarried(inp, out, ToU32(RPC_MSG_DENIED), ToU32(h.stat), sent);
    if h.stat == RPC_MISMATCH {
      TwoWordsCarried(inp, s, h.low, h.high, sent);
    } else {
      WordCarried(inp, s, ToU32(h.why), sent);
      SignedOfSent(h.why);
    }
  }

  lemma VerifierBodyIsRefused(h: Reply, out: seq<byte>, inp: seq<byte>)
    requires ValidReply(h) && h.Accepted? && h.verf.length != 0
    requires EncReply(h, out).ok && Carries(inp, |out|, EncReply(h, out).out)
    ensures DecReply(inp, |out|) == NotParsed
  {
    var sent := EncReply(h, out).out;
    WordCarried(inp, out, ToU32(RPC_MSG_ACCEPTED), sent);
    TwoWordsCarried(inp, out + Word(ToU32(RPC_MSG_ACCEPTED)), ToU32(h.verf.flavor), h.verf.length, sent);
  }

  lemma AcceptedRoundTrip(h: Reply, out: seq<byte>, inp: seq<byte>)
    requires ValidReply(h) && h.Accepted? && h.verf.length == 0
    requires EncReply(h, out).ok && Carries(inp, |out|, EncReply(h, out).out)
    ensures DecReply(inp, |out|) == Parsed(Meaning(h), |EncReply(h, out).out|)
  {
    var sent := EncReply(h, out).out;
    var s := out + Word(ToU32(RPC_MSG_ACCEPTED));
    WordCarried(inp, out, ToU32(RPC_MSG_ACCEPTED), sent);
    TwoWordsCarried(inp, s, ToU32(h.verf.flavor), h.verf.length, sent);
    SignedOfSent(h.verf.flavor);
    var a := EncAuth(h.verf, s).out;
    WordCarried(inp, a, ToU32(h.stat), sent);
    SignedOfSent(h.stat);
    if h.stat == RPC_PROG_MISMATCH {
      TwoWordsCarried(inp, a + Word(ToU32(h.stat)), h.low, h.high, sent);
    }
  }

  /** On any input at all: a header is read only if its status is known and its verifier empty. */
  lemma ReadHeadersAreKnown(inp: seq<byte>, pos: nat)
    ensures var r := DecReply(inp, pos);
            r.Parsed? ==>
              && ValidReply(r.value) && KnownStatus(r.value)
              && pos < r.pos <= |inp|
              && (r.value.Accepted? ==> WordAt(inp, pos + 8) == 0 && r.value.verf.length == 0)
  {
    if HasWord(inp, pos) {
      assert ToU32(Signed32(WordAt(inp, pos))) == WordAt(inp, pos);
    }
  }

  // ----- The routines -----

  method SendAuth(x: Xdr, a: Auth) returns (ok: bool)
    requires x.Valid() && ValidAuth(a)
    modifies x`outNext, x.outMsg
    ensures x.Valid() && EncAuth(a, old(x.Out())) == Sent(ok, x.Out())
  {
    SendTwoWords(x.Out(), ToU32(a.flavor), a.length);
    ok := x.SendUint32(ToU32(a.flavor));
    if !ok {
      return false;
    }
    ok := x.SendUint32(a.length);
    if ok && a.length != 0 {
      ok := x.SendBytes(a.base[..a.length]);
    }
  }

  method SendReplyHeader(x: Xdr, h: Reply) returns (ok: bool)
    requires x.Valid() && ValidReply(h)
    modifies x`outNext, x.outMsg
    ensures x.Valid() && EncReply(h, old(x.Out())) == Sent(ok, x.Out())
  {
    match h
    case Accepted(_, _, _, _) =>
      ok := x.SendUint32(ToU32(RPC_MSG_ACCEPTED));
      if ok {
        ok := SendAcceptedReplyHeader(x, h);
      }
    case Denied(_, _, _, _) =>
      SendTwoWords(x.Out(), ToU32(RPC_MSG_DENIED), ToU32(h.stat));
      ok := x.SendUint32(ToU32(RPC_MSG_DENIED));
      if ok {
        ok := SendDeniedReply(x, h);
      }
    case Other(stat) =>
      ok := x.SendUint32(ToU32(stat));
      ok := false;
  }

  method SendAcceptedReplyHeader(x: Xdr, h: Reply) returns (ok: bool)
    requires x.Valid() && ValidReply(h) && h.Accepted?
    modifies x`outNext, x.outMsg
    ensures x.Valid()
    ensures var a := EncAuth(h.verf, old(x.Out()));
            Sent(ok, x.Out()) ==
              if !a.ok then a
              else
                var t := SendWord(a.out, ToU32(h.stat));
                if !t.ok || !KnownStatus(h) then Sent(false, t.out)
                else if h.stat == RPC_PROG_MISMATCH then SendWords(t.out, [h.low, h.high])
                else t
  {
    ok := SendAuth(x, h.verf);
    if !ok {
      return false;
    }
    ok := x.SendUint32(ToU32(h.stat));
    if !ok {
      return false;
    }
    if h.stat == RPC_PROG_MISMATCH {
      SendTwoWords(x.Out(), h.low, h.high);
      ok := x.SendUint32(h.low);
      if ok {
        ok := x.SendUint32(h.high);
      }
    } else {
      ok := KnownStatus(h);
    }
  }

  method SendDeniedReply(x: Xdr, h: Reply) returns (ok: bool)
    requires x.Valid() && ValidReply(h) && h.Denied?
    modifies x`outNext, x.outMsg
    ensures x.Valid()
    ensures var s := SendWord(old(x.Out()), ToU32(h.stat));
            Sent(ok, x.Out()) ==
              if !s.ok || !KnownStatus(h) then Sent(false, s.out)
              else if h.stat == RPC_MISMATCH then SendWords(s.out, [h.low, h.high])
              else SendWord(s.out, ToU32(h.why))
  {
    ok := x.SendUint32(ToU32(h.stat));
    if !ok {
      return false;
    }
    if h.stat == RPC_MISMATCH {
      SendTwoWords(x.Out(), h.low, h.high);
      ok := x.SendUint32(h.low);
      if ok {
        ok := x.SendUint32(h.high);
      }
    } else if h.stat == RPC_AUTH_ERROR {
      ok := x.SendUint32(ToU32(h.why));
    } else {
      ok := false;
    }
  }

  method RecvAuth(x: Xdr) returns (ok: bool, a: Auth)
    requires x.Valid()
    modifies x`inNext
    ensures x.Valid()
    ensures DecAuth(x.In(), old(x.inNext)) == if ok then Parsed(a, x.inNext) else NotParsed
  {
    a := NO_AUTH;
    var w;
    ok, w := x.RecvUint32();
    if !ok {
      return;
    }
    var length;
    ok, length := x.RecvUint32();
    if !ok {
      return;
    }
    if length != 0 {
      if length <= LEN_LIMIT {
        var _, _ := x.RecvBytes(length);
      }
      return false, a; // the cursor is not used again after a refused header
    }
    a := Auth(Signed32(w), 0, []);
  }

  method RecvReplyHeader(x: Xdr) returns (ok: bool, h: Reply)
    requires x.Valid()
    modifies x`inNext
    ensures x.Valid()
    ensures DecReply(x.In(), old(x.inNext)) == if ok then Parsed(h, x.inNext) else NotParsed
  {
    h := Other(0);
    var w;
    ok, w := x.RecvUint32();
    if !ok {
      return;
    }
    if Signed32(w) == RPC_MSG_ACCEPTED {
      ok, h := RecvAcceptedReplyHeader(x);
    } else if Signed32(w) == RPC_MSG_DENIED {
      ok, h := RecvDeniedReply(x);
    } else {
      ok := false;
    }
  }

  method RecvAcceptedReplyHeader(x: Xdr) returns (ok: bool, h: Reply)
    requires x.Valid()
    modifies x`inNext
    ensures x.Valid()
    ensures DecAccepted(x.In(), old(x.inNext)) == if ok then Parsed(h, x.inNext) else NotParsed
  {
    h := Other(0);
    var a, w, low, high;
    ok, a := RecvAuth(x);
    if !ok {
      return;
    }
    ok, w := x.RecvUint32();
    if !ok {
      return;
    }
    var stat := Signed32(w);
    if stat == RPC_PROG_MISMATCH {
      ok, low := x.RecvUint32();
      if ok {
        ok, high := x.RecvUint32();
      }
      if ok {
        h := Accepted(a, stat, low, high);
      }
    } else {
      ok := RPC_ACCEPT_SUCCESS <= stat <= RPC_PROG_LOCKED;
      h := Accepted(a, stat, 0, 0);
    }
  }

  method RecvDeniedReply(x: Xdr) returns (ok: bool, h: Reply)
    requires x.Valid()
    modifies x`inNext
    ensures x.Valid()
    ensures DecDenied(x.In(), old(x.inNext)) == if ok then Parsed(h, x.inNext) else NotParsed
  {
    h := Other(0);
    var w, low, high;
    ok, w := x.RecvUint32();
    if !ok {
      return;
    }
    var stat := Signed32(w);
    if stat == RPC_MISMATCH {
      ok, low := x.RecvUint32();
      if ok {
        ok, high := x.RecvUint32();
      }
      if ok {
        h := Denied(stat, low, high, 0);
      }
    } else if stat == RPC_AUTH_ERROR {
      ok, w := x.RecvUint32();
      if ok {
        h := Denied(stat, 0, 0, Signed32(w));
      }
    } else {
      ok := false;
    }
  }

  // ----- Whole headers -----

  /** The head of a message: transaction id and message type. */
  function MsgHead(xid: u32, msgType: u32): (s: seq<byte>)
    ensures |s| == 8
  {
    Word(xid) + Word(msgType)
  }

  /** The six words before the credentials of a call. */
  function CallWords(xid: u32, prog: u32, vers: u32, procNum: u32): (s: seq<byte>)
    ensures |s| == (RPC_OFFSET + 6) * 4
  {
    MsgHead(xid, RPC_MSG_CALL) + Word(RPC_MSG_VERSION) + Word(prog) + Word(vers) + Word(procNum)
  }

  function EncCall(xid: u32, prog: u32, vers: u32, procNum: u32, cred: Auth, verf: Auth): Sent
    requires ValidAuth(cred) && ValidAuth(verf)
  {
    var s := EncAuth(cred, CallWords(xid, prog, vers, procNum));
    if s.ok then EncAuth(verf, s.out) else s
  }

  /** The ten words before the arguments of a call without credentials. */
  function CallHeader(xid: u32, prog: u32, vers: u32, procNum: u32): (s: seq<byte>)
    ensures |s| == (RPC_OFFSET + 6 + 4) * 4
  {
    CallWords(xid, prog, vers, procNum) + (Word(0) + Word(0)) + (Word(0) + Word(0))
  }

  /** Without credentials a call starts with exactly ten words, which always fit. */
  lemma CallHeaderIsSent(xid: u32, prog: u32, vers: u32, procNum: u32)
    ensures EncCall(xid, prog, vers, procNum, NO_AUTH, NO_AUTH) == Sent(true, CallHeader(xid, prog, vers, procNum))
  {
    var s := CallWords(xid, prog, vers, procNum);
    NoAuthIsTwoZeros(s);
    NoAuthIsTwoZeros(s + (Word(0) + Word(0)));
  }

  method CallMsgStart(x: Xdr, prog: u32, vers: u32, procNum: u32, cred: Auth, verf: Auth) returns (ok: bool)
    requires x.Valid() && ValidAuth(cred) && ValidAuth(verf)
    modifies x`prog, x`procNum, x`xid, x`outNext, x.outMsg
    ensures x.Valid() && x.prog == prog && x.procNum == procNum
    ensures x.xid == (old(x.xid) + 1) % U32_SIZE
    ensures EncCall(x.xid, prog, vers, procNum, cred, verf) == Sent(ok, x.Out())
  {
    x.prog := prog;
    x.procNum := procNum;
    SendCallWords(x, prog, vers, procNum);
    ok := SendAuth(x, cred);
    if ok {
      ok := SendAuth(x, verf);
    }
  }

  /** The part of a call's header before its credentials, which always fits. */
  method SendCallWords(x: Xdr, prog: u32, vers: u32, procNum: u32)
    requires x.Valid()
    modifies x`xid, x`outNext, x.outMsg
    ensures x.Valid() && x.xid == (old(x.xid) + 1) % U32_SIZE
    ensures x.Out() == CallWords(x.xid, prog, vers, procNum)
  {
    x.MsgStart(RPC_MSG_CALL);
    var ok := x.SendUint32(RPC_MSG_VERSION);
    ok := x.SendUint32(prog);
    ok := x.SendUint32(vers);
    ok := x.SendUint32(procNum);
  }

  lemma NoAuthIsTwoZeros(out: seq<byte>)
    requires |out| <= MSGSIZE_MAX - 8
    ensures EncAuth(NO_AUTH, out) == Sent(true, out + (Word(0) + Word(0)))
  {
    SendTwoWords(out, 0, 0);
    assert out + Word(0) + Word(0) == out + (Word(0) + Word(0));
  }

  /** The six words before the results of a successful reply. */
  function ReplyHead(xid: u32): (s: seq<byte>)
    ensures |s| == 24
  {
    MsgHead(xid, RPC_MSG_REPLY) + Word(0) + (Word(0) + Word(0)) + Word(0)
  }

  /** `xdr_reply_msg_start` writes what sending the header "accepted, no verifier, success" writes. */
  lemma ReplyHeadIsSuccessHeader(xid: u32)
    ensures EncReply(Accepted(NO_AUTH, RPC_ACCEPT_SUCCESS, 0, 0), MsgHead(xid, RPC_MSG_REPLY))
         == Sent(true, ReplyHead(xid))
  {
    NoAuthIsTwoZeros(MsgHead(xid, RPC_MSG_REPLY) + Word(0));
  }

  /** The bytes are those of starting a reply and sending the header "accepted, `verf`, success". */
  method ReplyMsgStart(x: Xdr, verf: Auth) returns (ok: bool)
    requires x.Valid() && ValidAuth(verf)
    modifies x`xid, x`outNext, x.outMsg
    ensures x.Valid() && x.xid == old(x.xid)
    ensures EncReply(Accepted(verf, RPC_ACCEPT_SUCCESS, 0, 0), MsgHead(x.xid, RPC_MSG_REPLY)) == Sent(ok, x.Out())
  {
    x.MsgStart(RPC_MSG_REPLY);
    ok := x.SendUint32(ToU32(RPC_MSG_ACCEPTED));
    ok := SendAuth(x, verf);
    if ok {
      ok := x.SendUint32(ToU32(RPC_ACCEPT_SUCCESS));
    }
  }

  // ----- The bytes -----

  /** Of the first 40 bytes of a call those that do not depend on it: message type 0, version 2. */
  lemma CallHeaderBytes(xid: u32, prog: u32, vers: u32, procNum: u32)
    ensures var c := CallHeader(xid, prog, vers, procNum);
            && |c| == 40 && c[4..12] == [0, 0, 0, 0, 0, 0, 0, 2]
            && c[12..24] == Word(prog) + Word(vers) + Word(procNum)
            && c[24..40] == [0, 0, 0, 0, 0, 0, 0, 0, 0, 0, 0, 0, 0, 0, 0, 0]
  {
    WordBytes(0);
    WordBytes(RPC_MSG_VERSION);
  }

  lemma CallHeaderParts(xid: u32, prog: u32, vers: u32, procNum: u32)
    ensures CallHeader(xid, prog, vers, procNum)
         == Word(xid) + [0, 0, 0, 0, 0, 0, 0, 2] + (Word(prog) + Word(vers) + Word(procNum))
            + [0, 0, 0, 0, 0, 0, 0, 0, 0, 0, 0, 0, 0, 0, 0, 0]
  {
    var c := CallHeader(xid, prog, vers, procNum);
    CallHeaderBytes(xid, prog, vers, procNum);
    CutInFour(c, 4, 12, 24);
    assert c[..4] == Word(xid);
  }

  lemma CutInFour(s: seq<byte>, i: nat, j: nat, k: nat)
    requires i <= j <= k <= |s|
    ensures s == s[..i] + s[i..j] + s[j..k] + s[k..]
  {
  }

  /** Message type 1, then four zero words: accepted, no verifier (two words), success. */
  lemma ReplyHeadBytes(xid: u32)
    ensures ReplyHead(xid)[..4] == Word(xid)
    ensures ReplyHead(xid)[4..] == [0, 0, 0, 1, 0, 0, 0, 0, 0, 0, 0, 0, 0, 0, 0, 0, 0, 0, 0, 0]
  {
    WordBytes(0);
    WordBytes(RPC_MSG_REPLY);
  }

  /** Every header without verifier: statuses 0 to 6 if accepted, 0 and 1 if denied. */
  lemma HeaderBytes(h: Reply, out: seq<byte>)
    requires ValidReply(h) && (h.Accepted? ==> h.verf == Auth(0, 0, []))
    requires |out| <= MSGSIZE_MAX - 24
    ensures var r := EncReply(h, out);
            match h
            case Accepted(_, stat, low, high) =>
              && (r.ok <==> 0 <= stat <= 6)
              && (r.ok ==> r.out == out + [0, 0, 0, 0, 0, 0, 0, 0, 0, 0, 0, 0, 0, 0, 0, stat]
                                    + if stat == 2 then Word(low) + Word(high) else [])
            case Denied(stat, low, high, why) =>
              && (r.ok <==> 0 <= stat <= 1)
              && (r.ok ==> r.out == out + [0, 0, 0, 1, 0, 0, 0, stat]
                                    + if stat == 0 then Word(low) + Word(high) else Word(ToU32(why)))
            case Other(_) => !r.ok
  {
    match h
    case Accepted(_, stat, low, high) => AcceptedBytes(stat, low, high, out);
    case Denied(stat, low, high, why) => DeniedBytes(stat, low, high, why, out);
    case Other(_) =>
  }

  lemma DeniedBytes(stat: int, low: u32, high: u32, why: int, out: seq<byte>)
    requires InRange(Int, stat) && InRange(Int, why) && |out| <= MSGSIZE_MAX - 24
    ensures var r := EncReply(Denied(stat, low, high, why), out);
            && (r.ok <==> 0 <= stat <= 1)
            && (r.ok ==> r.out == out + [0, 0, 0, 1, 0, 0, 0, stat]
                                  + if stat == 0 then Word(low) + Word(high) else Word(ToU32(why)))
  {
    var head := Word(1) + Word(ToU32(stat));
    SendTwoWords(out, 1, ToU32(stat));
    Glue(out, Word(1), Word(ToU32(stat)));
    SendTwoWords(out + head, low, high);
    Glue(out + head, Word(low), Word(high));
    if 0 <= stat <= 1 {
      SmallWord(1);
      SmallWord(stat);
      assert head == [0, 0, 0, 1, 0, 0, 0, stat];
    }
  }

  lemma AcceptedBytes(stat: int, low: u32, high: u32, out: seq<byte>)
    requires InRange(Int, stat) && |out| <= MSGSIZE_MAX - 24
    ensures var r := EncReply(Accepted(Auth(0, 0, []), stat, low, high), out);
            && (r.ok <==> 0 <= stat <= 6)
            && (r.ok ==> r.out == out + [0, 0, 0, 0, 0, 0, 0, 0, 0, 0, 0, 0, 0, 0, 0, stat]
                                  + if stat == 2 then Word(low) + Word(high) else [])
  {
    var auth := Word(0) + (Word(0) + Word(0));
    var head := auth + Word(ToU32(stat));
    NoAuthIsTwoZeros(out + Word(0));
    Glue(out, Word(0), Word(0) + Word(0));
    Glue(out, auth, Word(ToU32(stat)));
    SendTwoWords(out + head, low, high);
    Glue(out + head, Word(low), Word(high));
    if 0 <= stat <= 6 {
      SmallWord(0);
      SmallWord(stat);
      assert auth == [0, 0, 0, 0, 0, 0, 0, 0, 0, 0, 0, 0];
      assert head == [0, 0, 0, 0, 0, 0, 0, 0, 0, 0, 0, 0, 0, 0, 0, stat];
    }
  }

  lemma SmallWord(w: u32)
    requires w < 0x100
    ensures Word(w) == [0, 0, 0, w]
  {
    WordBytes(w);
  }

  lemma WithoutXid(head: seq<byte>, bytes: seq<byte>)
    requires |head| >= 4
    ensures (head + bytes)[4..] == head[4..] + bytes
  {
  }

  lemma Glue(out: seq<byte>, a: seq<byte>, b: seq<byte>)
    ensures out + a + b == out + (a + b)
  {
  }

  /** The receiver's reading of a header of up to 28 bytes, word by word. */
  lemma HeaderRead(inp: seq<byte>, pos: nat)
    requires pos + 28 <= |inp|
    ensures var first, r := WordAt(inp, pos), DecReply(inp, pos);
            var second, third, fourth := WordAt(inp, pos + 4), WordAt(inp, pos + 8), WordAt(inp, pos + 12);
            if first == 0 && third == 0 && fourth <= 6 then
              r.Parsed? && r.value.Accepted? && r.value.stat == fourth && r.value.verf.flavor == Signed32(second)
              && if fourth == 2 then
                   && r.value.low == WordAt(inp, pos + 16) && r.value.high == WordAt(inp, pos + 20)
                   && r.pos == pos + 24
                 else r.pos == pos + 16
            else if first == 1 && second == 0 then
              r == Parsed(Denied(0, third, fourth, 0), pos + 16)
            else if first == 1 && second == 1 then
              r == Parsed(Denied(1, 0, 0, Signed32(third)), pos + 12)
            else r.NotParsed?
  {
  }
}
