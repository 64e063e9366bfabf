/**
 * The PL320 inter-processor mailbox between the Cortex-A9 cores and the
 * EnergyCore Management Engine (ECME), as a mailbox client sees it: request a
 * channel, send one message and block until it is acknowledged or times out,
 * free the channel.
 *
 * The transport is foreign code, so it is an oracle here: the n-th channel
 * request (counting from 0) is answered by `script(n)`, which fixes whether
 * the channel is granted, what the send returns and what the responder leaves
 * in the status word of the caller's buffer.
 */
module Mailbox {

  /** A C `u32`. */
  type Word = w: int | 0 <= w < 0x1_0000_0000

  /** The codes an error pointer can carry: `IS_ERR` holds exactly for -MAX_ERRNO..-1. */
  type Errno = e: int | -4095 <= e <= -1 witness -1

  datatype Option<T> = None | Some(value: T) {
    function GetOr(default: T): T {
      match this
      case Some(v) => v
      case None => default
    }
  }

  /** What happens to one request/send/free round trip. */
  datatype Attempt =
      /** The channel request returned an error pointer. */
    | Refused(err: Errno)
      /**
       * The channel was granted; `status` is what the send returns (0 is the
       * timeout case) and `reply` is the word the responder wrote over slot 1
       * of the buffer (`None`: slot 1 was left as the client wrote it).
       */
    | Granted(status: int, reply: Option<Word>)

  /** The slot of the message buffer that the responder overwrites. */
  const StatusSlot: nat := 1

  class Endpoint {
    /** How the far side answers each successive channel request. */
    const script: nat -> Attempt
    /** Channel requests made so far; the next one is answered by `script(requests)`. */
    var requests: nat
    /** Whether a granted channel is currently held. */
    var held: bool
    /** Every buffer handed to a send, as it was when handed over. */
    var submitted: seq<seq<Word>>
    ghost var grants: nat
    ghost var frees: nat

    /** A held channel was granted by the last request, and every grant but the held one was freed. */
    ghost predicate Valid()
      reads this
    {
      (held ==> requests > 0 && script(requests - 1).Granted?) &&
      frees + (if held then 1 else 0) == grants
    }

    constructor (script: nat -> Attempt)
      ensures Valid() && !held
      ensures this.script == script && requests == 0 && submitted == []
      ensures grants == 0 && frees == 0
    {
      this.script := script;
      requests, held, submitted := 0, false, [];
      grants, frees := 0, 0;
    }

    /** mbox_request_channel: 0 stands for a valid channel, anything else is the error pointer's code. */
    method RequestChannel() returns (err: int)
      requires Valid() && !held
      modifies this
      ensures Valid()
      ensures requests == old(requests) + 1
      ensures submitted == old(submitted) && frees == old(frees)
      ensures script(old(requests)).Refused? ==>
                err == script(old(requests)).err && !held && grants == old(grants)
      ensures script(old(requests)).Granted? ==>
                err == 0 && held && grants == old(grants) + 1
    {
      var answer := script(requests);
      requests := requests + 1;
      match answer
      case Refused(e) =>
        err := e;
      case Granted(_, _) =>
        err := 0;
        held := true;
        grants := grants + 1;
    }

    /**
     * mbox_send_message on a held channel: the buffer is submitted as it is,
     * then the responder may overwrite its status slot in place.
     */
    method SendMessage(msg: array<Word>) returns (status: int)
      requires Valid() && held
      requires msg.Length > StatusSlot
      modifies this, msg
      ensures Valid() && held
      ensures requests == old(requests) && grants == old(grants) && frees == old(frees)
      ensures submitted == old(submitted) + [old(msg[..])]
      ensures status == script(requests - 1).status
      ensures msg[StatusSlot] == script(requests - 1).reply.GetOr(old(msg[StatusSlot]))
      ensures forall k | 0 <= k < msg.Length && k != StatusSlot :: msg[k] == old(msg[k])
    {
      submitted := submitted + [msg[..]];
      var answer := script(requests - 1);
      status := answer.status;
      if answer.reply.Some? {
        msg[StatusSlot] := answer.reply.value;
      }
    }

    /** mbox_free_channel: releases the held channel. */
    method FreeChannel()
      requires Valid() && held
      modifies this
      ensures Valid() && !held
      ensures requests == old(requests) && submitted == old(submitted)
      ensures grants == old(grants) && frees == old(frees) + 1
    {
      held := false;
      frees := frees + 1;
    }
  }
}
