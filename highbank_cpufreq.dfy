/**
 * The Calxeda Highbank cpufreq clock notifier: before the CPU clock speeds up,
 * and after it slows down, it asks the ECME over the mailbox to change the
 * core voltage, retrying a bounded number of times and vetoing the rate change
 * when the ECME never acknowledges.
 */
module HighbankCpufreq {
  import opened Mailbox

  /** Opcode of the "frequency change" IPC message. */
  const ChangeNote: Word := 0x8000_0001
  /** Words in one IPC message. */
  const IpcLen: nat := 7
  /** The bound the retry counter is compared against. */
  const VoltRetries: nat := 15
  /** Hertz per megahertz; the message carries whole megahertz. */
  const HzPerMhz: nat := 1_000_000

  /** Linux errno value returned for a send that timed out. */
  const ETimedOut: int := 110

  /** Clock notifier actions and notifier return codes of the Linux clock framework. */
  const PreRateChange: nat := 1
  const PostRateChange: nat := 2
  const NotifyDone: int := 0x0000
  const NotifyBad: int := 0x8002

  /**
   * Upper bound on the calls one notification makes. The counter is compared
   * before it is incremented, so the loop vetoes on the answer that finds it
   * at VoltRetries + 1, which is call number VoltRetries + 2.
   */
  const MaxCalls: nat := VoltRetries + 2

  // ---------------------------------------------------------------------------
  // hb_voltage_change

  /** The `unsigned long` rate passed where an `unsigned int` is expected. */
  function Narrow(rate: nat): (freq: Word)
    ensures rate < 0x1_0000_0000 ==> freq == rate
    ensures freq <= rate
  {
    rate % 0x1_0000_0000
  }

  /** The target frequency in whole megahertz, truncated. */
  function Mhz(freq: Word): (mhz: Word)
    ensures mhz * HzPerMhz <= freq < (mhz + 1) * HzPerMhz
    ensures mhz <= 4294
  {
    freq / HzPerMhz
  }

  /** The message as initialised: opcode, megahertz, and zero-filled tail. */
  function Message(freq: Word): (msg: seq<Word>)
    ensures |msg| == IpcLen
    ensures msg[0] == ChangeNote && msg[StatusSlot] == Mhz(freq)
    ensures forall k | 2 <= k < IpcLen :: msg[k] == 0
  {
    [ChangeNote, Mhz(freq), 0, 0, 0, 0, 0]
  }

  /** A `u32` read into a C `int` (two's complement reinterpretation). */
  function AsInt(w: Word): (r: int)
    ensures -0x8000_0000 <= r < 0x8000_0000
    ensures (r - w) % 0x1_0000_0000 == 0
    ensures r == 0 <==> w == 0
  {
    if w < 0x8000_0000 then w else w - 0x1_0000_0000
  }

  /** What slot 1 of the buffer holds once a granted send has returned. */
  function StatusAfterSend(freq: Word, a: Attempt): Word
    requires a.Granted?
  {
    a.reply.GetOr(Mhz(freq))
  }

  /**
   * The value hb_voltage_change returns for one round trip: the channel error,
   * -ETIMEDOUT when the send returns 0, and otherwise whatever slot 1 holds.
   * Zero, the only success, comes exactly from a nonzero send after which slot 1 is 0.
   */
  function VoltageResult(freq: Word, a: Attempt): (r: int)
    ensures r == 0 <==> a.Granted? && a.status != 0 && StatusAfterSend(freq, a) == 0
    ensures a.Refused? ==> r < 0
    ensures a.Granted? && a.status == 0 ==> r == -ETimedOut
  {
    match a
    case Refused(e) => e
    case Granted(status, _) =>
      if status != 0 then AsInt(StatusAfterSend(freq, a)) else -ETimedOut
  }

  /** For any real CPU frequency, success means exactly: the send returned nonzero and the responder wrote 0. */
  lemma AckedIffResponderWroteZero(freq: Word, a: Attempt)
    requires freq >= HzPerMhz
    ensures VoltageResult(freq, a) == 0 <==> a.Granted? && a.status != 0 && a.reply == Some(0)
  {
  }

  /**
   * Below 1 MHz the quirk shows: any nonzero send (a failure such as -ETIME
   * included) that leaves the buffer alone reads back the megahertz word, 0,
   * and so counts as success.
   */
  lemma FailedSendBelowOneMhzReadsAsSuccess(freq: Word, a: Attempt)
    requires freq < HzPerMhz && a.Granted? && a.status != 0 && a.reply.None?
    ensures VoltageResult(freq, a) == 0
  {
  }

  /** Two frequencies produce the same message exactly when they agree in whole megahertz. */
  lemma MessageDeterminedByMhz(f: Word, g: Word)
    ensures Message(f) == Message(g) <==> Mhz(f) == Mhz(g)
  {
  }

  /** A frequency that is a whole number of megahertz is carried exactly. */
  lemma WholeMhzCarriedExactly(mhz: nat)
    requires mhz <= 4294
    ensures mhz * HzPerMhz < 0x1_0000_0000
    ensures Mhz(mhz * HzPerMhz) == mhz
  {
  }

  /** How many messages one call sends, and so how many channels it frees: one exactly on a grant. */
  function Sent(a: Attempt): nat {
    if a.Granted? then 1 else 0
  }

  /**
   * hb_voltage_change: builds the message in a local buffer, takes a channel,
   * sends, reads slot 1 back after a nonzero send, and frees the channel.
   */
  method VoltageChange(mb: Endpoint, freq: Word) returns (ret: int)
    requires mb.Valid() && !mb.held
    modifies mb
    ensures mb.Valid() && !mb.held
    ensures mb.requests == old(mb.requests) + 1
    ensures ret == VoltageResult(freq, mb.script(old(mb.requests)))
    ensures mb.script(old(mb.requests)).Refused? ==>
              mb.submitted == old(mb.submitted) && mb.frees == old(mb.frees)
    ensures mb.script(old(mb.requests)).Granted? ==>
              mb.submitted == old(mb.submitted) + [Message(freq)] && mb.frees == old(mb.frees) + 1
    ensures old(mb.submitted) <= mb.submitted
    ensures forall k | |old(mb.submitted)| <= k < |mb.submitted| :: mb.submitted[k] == Message(freq)
    ensures |mb.submitted| == |old(mb.submitted)| + Sent(mb.script(old(mb.requests)))
    ensures mb.frees == old(mb.frees) + Sent(mb.script(old(mb.requests)))
  {
    var msg := new Word[IpcLen](_ => 0);
    msg[0], msg[1] := ChangeNote, freq / HzPerMhz;
    assert msg[..] == Message(freq);
    ret := -ETimedOut;

    var err := mb.RequestChannel();
    if err != 0 {
      return err;
    }

    var status := mb.SendMessage(msg);
    if status != 0 {
      ret := AsInt(msg[StatusSlot]);
    }

    mb.FreeChannel();
  }

  // ---------------------------------------------------------------------------
  // hb_cpufreq_clk_notify

  /**
   * Whether a notification asks for a voltage change: before an increase, so
   * that voltage leads a speed-up, and after a decrease, so that it lags a
   * slow-down. Any other action asks for nothing.
   */
  predicate RequestsVoltage(action: nat, oldRate: nat, newRate: nat): (r: bool)
    ensures r ==> newRate != oldRate
    ensures r && action == PreRateChange ==> newRate > oldRate
    ensures r && action == PostRateChange ==> newRate < oldRate
    ensures action != PreRateChange && action != PostRateChange ==> !r
  {
    if action == PreRateChange then newRate > oldRate
    else if action == PostRateChange then newRate < oldRate
    else false
  }

  /** Of the two notifications of one rate change, exactly one asks for voltage, unless the rate stays put. */
  lemma OneVoltageRequestPerRateChange(oldRate: nat, newRate: nat)
    ensures !(RequestsVoltage(PreRateChange, oldRate, newRate) && RequestsVoltage(PostRateChange, oldRate, newRate))
    ensures (RequestsVoltage(PreRateChange, oldRate, newRate) || RequestsVoltage(PostRateChange, oldRate, newRate))
            <==> oldRate != newRate
  {
  }

  /**
   * The answers the hb_voltage_change calls of one notification get: call
   * number n (from 0) carries `freq` and makes channel request `first + n`.
   */
  datatype Replies = Replies(script: nat -> Attempt, first: nat, freq: Word) {
    /** Whether call number n returns 0. */
    /** The answer to call n of the loop. */
    function Answer(n: nat): Attempt {
      script(first + n)
    }

    predicate Acked(n: nat) {
      VoltageResult(freq, Answer(n)) == 0
    }

    /** How many of calls 0..n-1 were granted a channel, and so sent a message. */
    function Grants(n: nat): (g: nat)
      ensures g <= n
    {
      if n == 0 then 0 else Grants(n - 1) + Sent(Answer(n - 1))
    }
  }

  /** Calls whose channel requests are all refused send nothing. */
  lemma {:induction false} RefusedCallsSendNothing(r: Replies, n: nat)
    requires forall j: nat :: j < n ==> r.Answer(j).Refused?
    ensures r.Grants(n) == 0
  {
    if n > 0 {
      RefusedCallsSendNothing(r, n - 1);
    }
  }

  /** How many calls a notification makes, and what it returns. */
  datatype Outcome = Outcome(calls: nat, verdict: int)

  /**
   * The retry loop entered with counter `i`: it stops on the first call that
   * returns 0, and vetoes on a nonzero answer when the counter already
   * exceeds the bound.
   */
  function Retry(r: Replies, i: nat): (o: Outcome)
    requires i <= VoltRetries + 1
    ensures i < o.calls <= MaxCalls
    ensures o.verdict == NotifyDone || o.verdict == NotifyBad
    ensures o.verdict == NotifyDone <==> r.Acked(o.calls - 1)
    ensures o.verdict == NotifyBad ==> o.calls == MaxCalls
    decreases VoltRetries + 1 - i
  {
    if r.Acked(i) then Outcome(i + 1, NotifyDone)
    else if i > VoltRetries then Outcome(i + 1, NotifyBad)
    else Retry(r, i + 1)
  }

  /** Entered at counter i, the loop makes calls up to and including the first acknowledged one. */
  lemma {:induction false} RetryStopsAtFirstAck(r: Replies, i: nat, k: nat)
    requires i <= k < MaxCalls
    requires r.Acked(k) && forall j: nat :: i <= j < k ==> !r.Acked(j)
    ensures Retry(r, i) == Outcome(k + 1, NotifyDone)
    decreases k - i
  {
    if i < k {
      RetryStopsAtFirstAck(r, i + 1, k);
    }
  }

  /** Entered at counter i with no call acknowledged, the loop makes all MaxCalls (17) calls and vetoes. */
  lemma RetryGivesUp(r: Replies, i: nat)
    requires i < MaxCalls
    requires forall j: nat :: i <= j < MaxCalls ==> !r.Acked(j)
    ensures Retry(r, i) == Outcome(MaxCalls, NotifyBad)
  {
  }

  /** Every call but the last was unacknowledged. */
  lemma {:induction false} RetryCallsBeforeLastFailed(r: Replies, i: nat)
    requires i <= VoltRetries + 1
    ensures forall j: nat :: i <= j < Retry(r, i).calls - 1 ==> !r.Acked(j)
    decreases VoltRetries + 1 - i
  {
    if !r.Acked(i) && i <= VoltRetries {
      RetryCallsBeforeLastFailed(r, i + 1);
    }
  }

  /** The notification as a whole: the decision table, then the retry loop from counter 0. */
  function Notify(action: nat, oldRate: nat, newRate: nat, r: Replies): (o: Outcome)
    ensures o.calls <= MaxCalls
    ensures o.verdict == NotifyDone || o.verdict == NotifyBad
    ensures o.calls == 0 <==> !RequestsVoltage(action, oldRate, newRate)
  {
    if RequestsVoltage(action, oldRate, newRate) then Retry(r, 0) else Outcome(0, NotifyDone)
  }

  /** If call k is the first acknowledged one and k < MaxCalls, the notification makes k + 1 calls and lets the change proceed. */
  lemma NotifyProceedsAtFirstAck(action: nat, oldRate: nat, newRate: nat, r: Replies, k: nat)
    requires RequestsVoltage(action, oldRate, newRate)
    requires k < MaxCalls && r.Acked(k) && forall j: nat :: j < k ==> !r.Acked(j)
    ensures Notify(action, oldRate, newRate, r) == Outcome(k + 1, NotifyDone)
  {
    RetryStopsAtFirstAck(r, 0, k);
  }

  /** If none of the first MaxCalls (17) calls is acknowledged, the notification makes exactly that many and vetoes. */
  lemma NotifyVetoesAfterSeventeen(action: nat, oldRate: nat, newRate: nat, r: Replies)
    requires RequestsVoltage(action, oldRate, newRate)
    requires forall j: nat :: j < MaxCalls ==> !r.Acked(j)
    ensures Notify(action, oldRate, newRate, r) == Outcome(MaxCalls, NotifyBad)
  {
  }

  /** A veto happens only after MaxCalls (17) calls of which none was acknowledged. */
  lemma NotifyVetoMeansAllFailed(action: nat, oldRate: nat, newRate: nat, r: Replies)
    requires Notify(action, oldRate, newRate, r).verdict == NotifyBad
    ensures Notify(action, oldRate, newRate, r).calls == MaxCalls
    ensures forall j: nat :: j < MaxCalls ==> !r.Acked(j)
  {
    RetryCallsBeforeLastFailed(r, 0);
  }

  /**
   * The loop of hb_cpufreq_clk_notify: call hb_voltage_change until it returns
   * 0, and veto when it returns nonzero with the counter above its bound.
   */
  method RetryVoltageChange(mb: Endpoint, rate: nat) returns (verdict: int)
    requires mb.Valid() && !mb.held
    modifies mb
    ensures mb.Valid() && !mb.held
    ensures verdict == Retry(Replies(mb.script, old(mb.requests), Narrow(rate)), 0).verdict
    ensures mb.requests == old(mb.requests) + Retry(Replies(mb.script, old(mb.requests), Narrow(rate)), 0).calls
    ensures old(mb.submitted) <= mb.submitted
    ensures forall k | |old(mb.submitted)| <= k < |mb.submitted| :: mb.submitted[k] == Message(Narrow(rate))
    ensures |mb.submitted| == |old(mb.submitted)|
              + Replies(mb.script, old(mb.requests), Narrow(rate)).Grants(mb.requests - old(mb.requests))
    ensures mb.frees == old(mb.frees)
              + Replies(mb.script, old(mb.requests), Narrow(rate)).Grants(mb.requests - old(mb.requests))
  {
    ghost var replies := Replies(mb.script, mb.requests, Narrow(rate));
    ghost var log := mb.submitted;
    ghost var freed := mb.frees;
    var i := 0;
    while true
      invariant i <= VoltRetries + 1
      invariant mb.Valid() && !mb.held
      invariant mb.requests == replies.first + i
      invariant forall j: nat :: j < i ==> !replies.Acked(j)
      invariant log <= mb.submitted
      invariant forall k | |log| <= k < |mb.submitted| :: mb.submitted[k] == Message(Narrow(rate))
      invariant |mb.submitted| == |log| + replies.Grants(i)
      invariant mb.frees == freed + replies.Grants(i)
      decreases VoltRetries + 1 - i
    {
      ghost var answer := replies.Answer(i);
      var ret := VoltageChange(mb, Narrow(rate));
      assert replies.Acked(i) <==> ret == 0;
      assert replies.Grants(i + 1) == replies.Grants(i) + Sent(answer);
      if ret == 0 {
        RetryStopsAtFirstAck(replies, 0, i);
        return NotifyDone;
      }
      var before := i;
      i := i + 1;
      if before > VoltRetries {
        RetryGivesUp(replies, 0);
        return NotifyBad;
      }
    }
  }

  /** hb_cpufreq_clk_notify for one notification carrying `action`, `oldRate` and `newRate`. */
  method ClkNotify(mb: Endpoint, action: nat, oldRate: nat, newRate: nat) returns (verdict: int)
    requires mb.Valid() && !mb.held
    modifies mb
    ensures mb.Valid() && !mb.held
    ensures verdict == Notify(action, oldRate, newRate, Replies(mb.script, old(mb.requests), Narrow(newRate))).verdict
    ensures mb.requests == old(mb.requests) + Notify(action, oldRate, newRate, Replies(mb.script, old(mb.requests), Narrow(newRate))).calls
    ensures old(mb.submitted) <= mb.submitted
    ensures forall k | |old(mb.submitted)| <= k < |mb.submitted| :: mb.submitted[k] == Message(Narrow(newRate))
    ensures |mb.submitted| == |old(mb.submitted)|
              + Replies(mb.script, old(mb.requests), Narrow(newRate)).Grants(mb.requests - old(mb.requests))
    ensures mb.frees == old(mb.frees)
              + Replies(mb.script, old(mb.requests), Narrow(newRate)).Grants(mb.requests - old(mb.requests))
    ensures !RequestsVoltage(action, oldRate, newRate) ==>
              mb.requests == old(mb.requests) && mb.submitted == old(mb.submitted) && mb.frees == old(mb.frees)
  {
    if RequestsVoltage(action, oldRate, newRate) {
      verdict := RetryVoltageChange(mb, newRate);
      return;
    }
    verdict := NotifyDone;
  }
}
