/**
 * Injection of predicted-orbit (XTRA) data: the data goes to the modem in numbered parts of at
 * most 1024 bytes, counted in 8 bits and measured in 16 bits, and is retried as a whole. The
 * modem is a script of answers, one for each part sent.
 */
module XtraInjection {
  import opened Basics
  import opened Words

  const BLOCK_SIZE: nat := 1024

  /** A request; its total of parts is an 8-bit field. */
  datatype Request = Request(totalSize: nat, totalParts: nat, part: nat, payload: seq<byte>)

  /** `Pending` is an injection still under way when the script of answers ends. */
  datatype Outcome = Delivered | Failed | Pending

  /** C division truncates, so no data makes one empty part. */
  function TotalParts(length: nat): (n: nat)
    ensures n >= 1 && 1024 * (n - 1) <= length <= 1024 * n
    ensures n == 1 || 1024 * (n - 1) < length
  {
    if length == 0 then 1 else (length - 1) / BLOCK_SIZE + 1
  }

  /** Whether the injection gets as far as its `k`-th request, counting from 0. */
  predicate Reached(data: seq<byte>, k: nat) {
    k < TotalParts(|data|) || TotalParts(|data|) > 255
  }

  /** The 8-bit part counter at the `k`-th request. */
  function PartNumber(k: nat): nat {
    if k == 0 then 1 else (PartNumber(k - 1) + 1) % 256
  }

  /** The 16-bit offset at the `k`-th request, every part before it being full. */
  function Offset(k: nat): nat {
    if k == 0 then 0 else (Offset(k - 1) + BLOCK_SIZE) % 0x1_0000
  }

  lemma {:induction false} BeforeWrapping(k: nat)
    ensures PartNumber(k) <= 255 && Offset(k) <= 0x1_0000 - 1024
    ensures k < 255 ==> PartNumber(k) == k + 1
    ensures k < 64 ==> Offset(k) == 1024 * k
  {
    if k > 0 {
      BeforeWrapping(k - 1);
    }
    WholeParts(k);
  }

  lemma {:induction false} WholeParts(k: nat)
    ensures Offset(k) % 1024 == 0
  {
    if k > 0 {
      WholeParts(k - 1);
    }
  }

  function RequestAt(data: seq<byte>, k: nat): Request
    requires Reached(data, k)
  {
    OffsetFits(data, k);
    var end := if BLOCK_SIZE > |data| - Offset(k) then |data| else Offset(k) + BLOCK_SIZE;
    Request(|data|, TotalParts(|data|) % 256, PartNumber(k), data[Offset(k)..end])
  }

  lemma OffsetFits(data: seq<byte>, k: nat)
    requires Reached(data, k)
    ensures Offset(k) <= |data|
    ensures k < TotalParts(|data|) - 1 || TotalParts(|data|) > 255 ==> Offset(k) + BLOCK_SIZE <= |data|
  {
    BeforeWrapping(k);
  }

  /** The counters without recursion. */
  lemma {:induction false} Wrapped(k: nat)
    ensures PartNumber(k) == (k + 1) % 256 && Offset(k) == 1024 * k % 0x1_0000
  {
    if k > 0 {
      Wrapped(k - 1);
      NextPart(k);
      NextOffset(1024 * (k - 1));
    }
  }

  lemma NextPart(k: nat)
    ensures (k % 256 + 1) % 256 == (k + 1) % 256
  {
  }

  lemma NextOffset(n: nat)
    ensures (n % 0x1_0000 + 1024) % 0x1_0000 == (n + 1024) % 0x1_0000
  {
    var r := n % 0x1_0000;
    assert n + 1024 == 0x1_0000 * (n / 0x1_0000) + (r + 1024);
    if r + 1024 >= 0x1_0000 {
      assert n + 1024 == 0x1_0000 * (n / 0x1_0000 + 1) + (r + 1024 - 0x1_0000);
    }
  }

  /** Request `k` of an injection in full: four fields, by position alone. */
  lemma RequestsAre(data: seq<byte>, answers: seq<bool>, sent: seq<Request>, outcome: Outcome, k: nat)
    requires IsAttempt(data, answers, sent, outcome) && k < |sent|
    ensures var r, from := sent[k], 1024 * k % 0x1_0000;
            && r.totalSize == |data|
            && r.totalParts == (if |data| == 0 then 1 else (|data| + 1023) / 1024) % 256
            && r.part == (k + 1) % 256
            && from <= |data| && r.payload == data[from..if |data| < from + 1024 then |data| else from + 1024]
  {
    Wrapped(k);
    OffsetFits(data, k);
    assert sent[k] == RequestAt(data, k);
  }

  predicate IsSent(data: seq<byte>, sent: seq<Request>) {
    forall k | 0 <= k < |sent| :: Reached(data, k) && sent[k] == RequestAt(data, k)
  }

  predicate Accepted(answers: seq<bool>, n: nat) {
    n <= |answers| && forall k | 0 <= k < n :: answers[k]
  }

  /** The parts sent while the modem accepts, and how it ends. */
  predicate IsAttempt(data: seq<byte>, answers: seq<bool>, sent: seq<Request>, outcome: Outcome) {
    var n, total := |sent|, TotalParts(|data|);
    && IsSent(data, sent)
    && match outcome
       case Delivered => n == total <= 255 && Accepted(answers, n)
       case Failed => 1 <= n <= |answers| && Accepted(answers, n - 1) && !answers[n - 1]
       case Pending => n == |answers| && Reached(data, n) && Accepted(answers, n)
  }

  /** `qct_loc_eng_inject_xtra_data_one` */
  method InjectOne(data: seq<byte>, answers: seq<bool>) returns (outcome: Outcome, sent: seq<Request>)
    ensures IsAttempt(data, answers, sent, outcome)
  {
    var length := |data|;
    var totalParts := TotalParts(length);
    var lenInjected := 0;
    var part := 1;
    sent := [];
    while part <= totalParts
      invariant Reached(data, |sent|) && IsSent(data, sent) && Accepted(answers, |sent|)
      invariant part == PartNumber(|sent|) && lenInjected == Offset(|sent|)
      decreases |answers| - |sent|
    {
      if |sent| == |answers| {
        return Pending, sent;
      }
      ghost var k := |sent|;
      OffsetFits(data, k);
      BeforeWrapping(k);
      var partLen := BLOCK_SIZE;
      if BLOCK_SIZE > length - lenInjected {
        partLen := length - lenInjected;
      }
      var accepted := answers[|sent|];
      sent := sent + [Request(length, totalParts % 256, part, data[lenInjected..lenInjected + partLen])];
      assert sent[k] == RequestAt(data, k);
      if part < totalParts {
        if !accepted {
          return Failed, sent;
        }
      } else {
        outcome := if accepted then Delivered else Failed;
        return;
      }
      lenInjected := (lenInjected + partLen) % 0x1_0000;
      part := (part + 1) % 256;
    }
    BeforeWrapping(|sent|);
    assert false;
    outcome := Pending;
  }

  /** The answers used up by the first `i` attempts. */
  function Used(attempts: seq<seq<Request>>, i: nat): nat
    requires i <= |attempts|
  {
    if i == 0 then 0 else Used(attempts, i - 1) + |attempts[i - 1]|
  }

  /** Attempts follow each other on one script: all but the last failed. */
  predicate IsRetry(data: seq<byte>, answers: seq<bool>, attempts: seq<seq<Request>>, outcome: Outcome) {
    && 1 <= |attempts| <= 3
    && (outcome == Failed ==> |attempts| == 3)
    && forall i | 0 <= i < |attempts| ::
         && Used(attempts, i) <= |answers|
         && IsAttempt(data, answers[Used(attempts, i)..], attempts[i],
                      if i == |attempts| - 1 then outcome else Failed)
  }

  lemma {:induction false} UsedPrefix(attempts: seq<seq<Request>>, next: seq<Request>, i: nat)
    requires i <= |attempts|
    ensures Used(attempts + [next], i) == Used(attempts, i)
  {
    if i > 0 {
      UsedPrefix(attempts, next, i - 1);
    }
  }

  /** `qct_loc_eng_inject_xtra_data`: at most three tries. */
  method Inject(data: seq<byte>, answers: seq<bool>) returns (outcome: Outcome, attempts: seq<seq<Request>>)
    ensures IsRetry(data, answers, attempts, outcome)
  {
    var tries, used := 0, 0;
    attempts, outcome := [], Failed;
    while tries < 3
      invariant 0 <= tries <= 3 && |attempts| == tries && outcome == Failed
      invariant used == Used(attempts, tries) <= |answers|
      invariant forall i | 0 <= i < tries ::
                  && Used(attempts, i) <= |answers|
                  && IsAttempt(data, answers[Used(attempts, i)..], attempts[i], Failed)
    {
      var sent;
      outcome, sent := InjectOne(data, answers[used..]);
      forall i | 0 <= i <= tries ensures Used(attempts + [sent], i) == Used(attempts, i) {
        UsedPrefix(attempts, sent, i);
      }
      attempts := attempts + [sent];
      used := used + |sent|;
      tries := tries + 1;
      if outcome != Failed {
        return;
      }
    }
  }

  // ----- What arrives -----

  function Payloads(sent: seq<Request>): seq<byte> {
    if sent == [] then [] else Payloads(sent[..|sent| - 1]) + sent[|sent| - 1].payload
  }

  /** Up to the first wrap of the offset, full parts bring the data as it is. */
  lemma {:induction false} FullParts(data: seq<byte>, sent: seq<Request>, m: nat)
    requires m <= |sent| && m < TotalParts(|data|) && m <= 64 && IsSent(data, sent)
    ensures 1024 * m <= |data| && Payloads(sent[..m]) == data[..1024 * m]
  {
    if m > 0 {
      FullParts(data, sent, m - 1);
      BeforeWrapping(m - 1);
      assert sent[m - 1] == RequestAt(data, m - 1);
      assert sent[..m][..m - 1] == sent[..m - 1];
      assert data[..1024 * m] == data[..1024 * (m - 1)] + data[1024 * (m - 1)..1024 * m];
    }
  }

  lemma {:induction false} PayloadsPrefix(sent: seq<Request>, m: nat, i: nat)
    requires m <= |sent| && i < |Payloads(sent[..m])|
    ensures i < |Payloads(sent)| && Payloads(sent)[i] == Payloads(sent[..m])[i]
  {
    if m == |sent| {
      assert sent[..m] == sent;
    } else {
      var init := sent[..|sent| - 1];
      assert init[..m] == sent[..m];
      PayloadsPrefix(init, m, i);
    }
  }

  /**
   * Up to 65536 bytes the parts make up the data: they are numbered from 1, carry its size and
   * their number, and all but the last have 1024 bytes.
   */
  lemma DeliveredInFull(data: seq<byte>, answers: seq<bool>, sent: seq<Request>)
    requires |data| <= 0x1_0000 && IsAttempt(data, answers, sent, Delivered)
    ensures Payloads(sent) == data
    ensures forall k | 0 <= k < |sent| :: sent[k].part == k + 1
    ensures forall k | 0 <= k < |sent| :: sent[k].totalSize == |data| && sent[k].totalParts == |sent|
    ensures forall k | 0 <= k < |sent| ::
              |sent[k].payload| == if k < |sent| - 1 then 1024 else |data| - 1024 * (|sent| - 1)
  {
    var last := TotalParts(|data|) - 1;
    forall k | 0 <= k <= last
      ensures sent[k].part == k + 1 && sent[k].totalSize == |data| && sent[k].totalParts == |sent|
      ensures |sent[k].payload| == if k < last then 1024 else |data| - 1024 * last
    {
      BeforeWrapping(k);
      assert sent[k] == RequestAt(data, k);
    }
    FullParts(data, sent, last);
    BeforeWrapping(last);
    assert data == data[..1024 * last] + data[1024 * last..];
  }

  function AllRequests(data: seq<byte>): (sent: seq<Request>)
    ensures |sent| == TotalParts(|data|)
    ensures IsSent(data, sent)
  {
    seq(TotalParts(|data|), k requires 0 <= k < TotalParts(|data|) => RequestAt(data, k))
  }

  /** Data whose byte 65536 differs from byte 0. */
  function Marked(length: nat): (data: seq<byte>)
    ensures |data| == length && forall i | 0 <= i < length :: data[i] == if i == 0x1_0000 then 1 else 0
  {
    seq(length, i => if i == 0x1_0000 then 1 else 0)
  }

  /** A delivered attempt sent exactly these requests. */
  lemma DeliveredAreAll(data: seq<byte>, answers: seq<bool>, sent: seq<Request>)
    requires IsAttempt(data, answers, sent, Delivered)
    ensures sent == AllRequests(data)
  {
  }

  /** All data of a length, whenever it is delivered, arrives as it is. */
  ghost predicate ArrivesIntact(length: nat) {
    forall data: seq<byte>, answers, sent |
      |data| == length && IsAttempt(data, answers, sent, Delivered) :: Payloads(sent) == data
  }

  /**
   * 65536 is the exact limit: beyond it, some data of every length that can be delivered at
   * all arrives as something else. More than 255 parts are never delivered.
   */
  lemma LimitIsExact(length: nat)
    ensures ArrivesIntact(length) <==> length <= 0x1_0000 || TotalParts(length) > 255
  {
    if length <= 0x1_0000 || TotalParts(length) > 255 {
      forall data: seq<byte>, answers, sent | |data| == length && IsAttempt(data, answers, sent, Delivered)
        ensures Payloads(sent) == data
      {
        if length <= 0x1_0000 {
          DeliveredInFull(data, answers, sent);
        }
      }
    } else {
      var data := Marked(length);
      var sent := AllRequests(data);
      var answers := seq(|sent|, _ => true);
      assert IsAttempt(data, answers, sent, Delivered);
      MarkIsLost(data);
    }
  }

  /** The same of the first requests of any injection, delivered or not. */
  lemma LimitOfRequests(length: nat)
    ensures (forall data: seq<byte> | |data| == length :: Payloads(AllRequests(data)) == data)
            <==> length <= 0x1_0000
  {
    if length <= 0x1_0000 {
      forall data: seq<byte> | |data| == length ensures Payloads(AllRequests(data)) == data {
        var sent := AllRequests(data);
        DeliveredInFull(data, seq(|sent|, _ => true), sent);
      }
    } else {
      var data := Marked(length);
      MarkIsLost(data);
      assert Payloads(AllRequests(data)) != data;
    }
  }

  lemma Part64StartsOver(data: seq<byte>, k: nat)
    requires |data| > 0x1_0000 && k == 64
    ensures |RequestAt(data, k).payload| > 0 && RequestAt(data, k).payload[0] == data[0]
  {
    OffsetWraps(k);
  }

  lemma OffsetWraps(k: nat)
    requires k == 64
    ensures Offset(k) == 0
  {
    BeforeWrapping(k - 1);
  }

  lemma MarkIsLost(data: seq<byte>)
    requires |data| > 0x1_0000 && data == Marked(|data|)
    ensures Payloads(AllRequests(data)) != data
  {
    var sent, k := AllRequests(data), 64;
    FullParts(data, sent, k);
    assert sent[..k + 1][..k] == sent[..k];
    Part64StartsOver(data, k);
    assert Payloads(sent[..k + 1]) == Payloads(sent[..k]) + sent[k].payload;
    PayloadsPrefix(sent, k + 1, 0x1_0000);
  }

  /** Up to 255 parts an attempt ends; beyond, while the modem accepts, it never does. */
  lemma NeverEndsBeyond255Parts(data: seq<byte>, answers: seq<bool>, sent: seq<Request>, outcome: Outcome)
    requires IsAttempt(data, answers, sent, outcome) && Accepted(answers, |answers|)
    ensures TotalParts(|data|) > 255 ==> outcome == Pending
    ensures TotalParts(|data|) <= 255 && |answers| >= TotalParts(|data|) ==> outcome == Delivered
  {
  }

  /** The retry wrapper succeeds exactly when one of its attempts had every part accepted. */
  lemma RetrySucceedsIff(data: seq<byte>, answers: seq<bool>, attempts: seq<seq<Request>>, outcome: Outcome)
    requires IsRetry(data, answers, attempts, outcome)
    ensures outcome == Delivered <==>
              && TotalParts(|data|) <= 255
              && exists i | 0 <= i < |attempts| ::
                   && |attempts[i]| == TotalParts(|data|)
                   && Used(attempts, i) <= |answers|
                   && Accepted(answers[Used(attempts, i)..], |attempts[i]|)
  {
    var last := |attempts| - 1;
    if outcome == Delivered {
      assert IsAttempt(data, answers[Used(attempts, last)..], attempts[last], Delivered);
    } else {
      forall i | 0 <= i < |attempts| && |attempts[i]| == TotalParts(|data|) <= 255
        ensures !Accepted(answers[Used(attempts, i)..], |attempts[i]|)
      {
        assert IsAttempt(data, answers[Used(attempts, i)..], attempts[i],
                         if i == last then outcome else Failed);
      }
    }
  }

  // ----- The same in terms of the modem's answers -----

  /** The offset of the first refusal, or the length. */
  function FirstRefusal(answers: seq<bool>): (k: nat)
    ensures k <= |answers| && Accepted(answers, k) && (k < |answers| ==> !answers[k])
  {
    if answers == [] || !answers[0] then 0 else 1 + FirstRefusal(answers[1..])
  }

  /** The offset straight after the `n`-th refusal, if there are that many; 0 is the beginning. */
  function AfterRefusals(answers: seq<bool>, n: nat): (start: Option<nat>)
    ensures start.Some? ==> start.value <= |answers|
  {
    if n == 0 then Some(0)
    else
      match AfterRefusals(answers, n - 1)
      case None => None
      case Some(start) =>
        var k := FirstRefusal(answers[start..]);
        if start + k == |answers| then None else Some(start + k + 1)
  }

  /** From some offset on, the modem accepts as many parts in a row as the data has. */
  predicate AllAcceptedFrom(data: seq<byte>, answers: seq<bool>, start: Option<nat>) {
    && start.Some? && start.value + TotalParts(|data|) <= |answers|
    && Accepted(answers[start.value..], TotalParts(|data|))
  }

  /** The attempts start at the beginning and straight after the refusals. */
  lemma {:induction false} AttemptsFollowRefusals(
      data: seq<byte>, answers: seq<bool>, attempts: seq<seq<Request>>, outcome: Outcome, i: nat)
    requires IsRetry(data, answers, attempts, outcome) && i < |attempts|
    ensures AfterRefusals(answers, i) == Some(Used(attempts, i))
  {
    if i > 0 {
      AttemptsFollowRefusals(data, answers, attempts, outcome, i - 1);
      var start, n := Used(attempts, i - 1), |attempts[i - 1]|;
      assert IsAttempt(data, answers[start..], attempts[i - 1], Failed);
      var k := FirstRefusal(answers[start..]);
      assert k == n - 1;
    }
  }

  /** An attempt at an offset from where all is accepted, with answers enough, is delivered. */
  lemma AcceptedIsDelivered(
      data: seq<byte>, answers: seq<bool>, start: nat, sent: seq<Request>, outcome: Outcome)
    requires start <= |answers| && IsAttempt(data, answers[start..], sent, outcome)
    requires TotalParts(|data|) <= 255 && AllAcceptedFrom(data, answers, Some(start))
    ensures outcome == Delivered
  {
    assert sent != [] ==> Reached(data, |sent| - 1);
  }

  /**
   * The wrapper succeeds exactly if the modem accepts as many parts in a row as the data has,
   * from the beginning or from straight after the first or the second refusal.
   */
  lemma RetrySucceedsOnAnswersIff(
      data: seq<byte>, answers: seq<bool>, attempts: seq<seq<Request>>, outcome: Outcome)
    requires IsRetry(data, answers, attempts, outcome)
    ensures outcome == Delivered <==>
              && TotalParts(|data|) <= 255
              && exists n: nat | n < 3 :: AllAcceptedFrom(data, answers, AfterRefusals(answers, n))
  {
    var last := |attempts| - 1;
    AttemptsFollowRefusals(data, answers, attempts, outcome, last);
    assert IsAttempt(data, answers[Used(attempts, last)..], attempts[last], outcome);
    if outcome == Delivered {
      assert AllAcceptedFrom(data, answers, AfterRefusals(answers, last));
    } else if TotalParts(|data|) <= 255 {
      forall n: nat | n < 3 ensures !AllAcceptedFrom(data, answers, AfterRefusals(answers, n)) {
        if n <= last {
          AttemptsFollowRefusals(data, answers, attempts, outcome, n);
          if AllAcceptedFrom(data, answers, AfterRefusals(answers, n)) {
            AcceptedIsDelivered(data, answers, Used(attempts, n), attempts[n], if n == last then outcome else Failed);
          }
        } else {
          NoMoreRefusals(answers, last, n);
        }
      }
    }
  }

  /** Where everything left is accepted there is no later refusal. */
  lemma {:induction false} NoMoreRefusals(answers: seq<bool>, last: nat, n: nat)
    requires last < n && AfterRefusals(answers, last).Some?
    requires var start := AfterRefusals(answers, last).value; Accepted(answers[start..], |answers| - start)
    ensures AfterRefusals(answers, n) == None
  {
    if n > last + 1 {
      NoMoreRefusals(answers, last, n - 1);
    }
  }
}
