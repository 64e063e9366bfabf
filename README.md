# Highbank cpufreq voltage coordination, in Dafny

This project models the clock-notifier part of the Calxeda Highbank cpufreq driver
(`drivers/cpufreq/highbank-cpufreq.c`). When the CPU clock changes rate, the
clock framework notifies the driver twice: once before the change and once
after it. Before a speed-up, and after a slow-down, the driver asks the
EnergyCore Management Engine (ECME) to change the core voltage. It does this
by sending a 7-word IPC message over the PL320 mailbox channel
`pl320:A9_to_M3`. It retries until the ECME acknowledges, and it vetoes the
rate change (`NOTIFY_BAD`) when the retries run out.

Two modules:

- `Mailbox` (`mailbox.dfy`) is the mailbox client interface, modelled as an
  oracle. The class `Endpoint` answers its n-th channel request with
  `script(n)`. An answer is one of two things:
  - a refusal carrying an error-pointer code in -4095..-1;
  - a grant, together with the send's return value and the word the
    responder writes over slot 1 of the caller's buffer. That word may be
    absent, in which case the buffer is left as it was.

  The endpoint logs every buffer handed to a send. It also keeps ghost
  counters of grants and frees, which tie each acquisition to its release.
- `HighbankCpufreq` (`highbank_cpufreq.dfy`) holds the driver:
  - `VoltageChange` is `hb_voltage_change`. It builds the message in a local
    array, requests a channel, sends, reads slot 1 back after a nonzero send,
    and frees the channel.
  - `ClkNotify` is `hb_cpufreq_clk_notify`. It applies the phase/direction
    test `RequestsVoltage`, then the retry loop `RetryVoltageChange`.
  - Each method is proved against a specification function:
    `VoltageResult` for `VoltageChange`, and `Retry`/`Notify` for the two
    loop methods. The driver's promises are lemmas about those functions.

The code as written makes up to 17 calls to `hb_voltage_change` per
notification, not 16. The constant's name `HB_CPUFREQ_VOLT_RETRIES` (15, at
line 27) reads as one first attempt plus 15 retries, that is 16 calls. But
the test `i++ > HB_CPUFREQ_VOLT_RETRIES` at lines 65 and 70 compares the counter before
incrementing it, so the 17th nonzero answer is the first to veto. The model
follows the code: `MaxCalls` is `VoltRetries + 2`, and
`NotifyVetoesAfterSeventeen` proves exactly 17 calls.

Three more points where the code is more specific than a plain
"acknowledged / rejected / channel error" reading:

- A send that returns 0 yields `-ETIMEDOUT`.
- Any nonzero send result, including a negative error, makes the driver
  return slot 1 of the buffer. If the responder left slot 1 alone, slot 1
  still holds the megahertz word. So a failed send counts as success for a
  target below 1 MHz (`FailedSendBelowOneMhzReadsAsSuccess`). It is retried
  for any real CPU frequency (`AckedIffResponderWroteZero`).
- Slot 1 is a `u32` returned through an `int`. The model reinterprets it as
  two's complement (`AsInt`).

Constants taken from the Linux headers, which are not part of this model:

- `ETIMEDOUT` = 110;
- `NOTIFY_DONE` = 0 and `NOTIFY_BAD` = 0x8002;
- `PRE_RATE_CHANGE` = 1 and `POST_RATE_CHANGE` = 2;
- `MAX_ERRNO` = 4095.

## Model

| member | source | states |
|---|---|---|
| `Mailbox.Endpoint.RequestChannel` | drivers/cpufreq/highbank-cpufreq.c:44-46 | Each request consumes the next scripted answer. A refusal returns its error code (in -4095..-1) and holds nothing. A grant returns 0 and holds the channel, counting one more grant |
| `Mailbox.Endpoint.SendMessage` | drivers/cpufreq/highbank-cpufreq.c:48-49 | The buffer is logged exactly as handed over. The scripted send status is returned. Only slot 1 may change, to the responder's word if it wrote one; all other slots keep their values |
| `Mailbox.Endpoint.FreeChannel` | drivers/cpufreq/highbank-cpufreq.c:51 | Releases the held channel and counts one more free, so frees again equal grants |
| `HighbankCpufreq.Narrow` | drivers/cpufreq/highbank-cpufreq.c:29 | The `unsigned long` rate passed as `unsigned int` keeps every rate below 2^32 unchanged and never grows |
| `HighbankCpufreq.Mhz` | drivers/cpufreq/highbank-cpufreq.c:31 | The megahertz word is the truncated quotient, `mhz * 10^6 <= freq < (mhz + 1) * 10^6`, and is at most 4294 |
| `HighbankCpufreq.Message` | drivers/cpufreq/highbank-cpufreq.c:25-31 | The message has exactly 7 words: opcode 0x80000001, the megahertz word, and five zero words from aggregate zero-fill |
| `HighbankCpufreq.MessageDeterminedByMhz` | drivers/cpufreq/highbank-cpufreq.c:31 | Two frequencies give the same message if and only if they agree in whole megahertz |
| `HighbankCpufreq.WholeMhzCarriedExactly` | drivers/cpufreq/highbank-cpufreq.c:31 | A whole number of megahertz up to 4294 fits in 32 bits and is carried exactly |
| `HighbankCpufreq.AsInt` | drivers/cpufreq/highbank-cpufreq.c:49 | Reading the `u32` status into an `int` gives a value in the 32-bit signed range, congruent to the word modulo 2^32, and zero exactly when the word is zero |
| `HighbankCpufreq.VoltageResult` | drivers/cpufreq/highbank-cpufreq.c:33-53 | The result is 0 exactly when the channel was granted, the send returned nonzero and slot 1 then holds 0. A refusal gives a negative value. A send returning 0 gives -ETIMEDOUT |
| `HighbankCpufreq.AckedIffResponderWroteZero` | drivers/cpufreq/highbank-cpufreq.c:44-53 | For a target of at least 1 MHz, success means exactly a granted channel, a nonzero send and a responder that wrote 0 into slot 1 |
| `HighbankCpufreq.FailedSendBelowOneMhzReadsAsSuccess` | drivers/cpufreq/highbank-cpufreq.c:48-49 | For every target below 1 MHz, a granted channel whose send returns nonzero (a failure such as -ETIME included) and whose responder leaves the buffer alone yields 0, success, because slot 1 still holds megahertz 0 |
| `HighbankCpufreq.VoltageChange` | drivers/cpufreq/highbank-cpufreq.c:29-54 | Exactly one channel request is made and the return value is `VoltageResult` of its answer. On refusal nothing is sent and nothing freed. On a grant exactly `Message(freq)` is sent and the channel is freed exactly once, so no channel stays held |
| `HighbankCpufreq.RequestsVoltage` | drivers/cpufreq/highbank-cpufreq.c:62-68 | A voltage request happens on PRE_RATE_CHANGE only when the rate rises, and on POST_RATE_CHANGE only when it falls. It never happens for any other action |
| `HighbankCpufreq.OneVoltageRequestPerRateChange` | drivers/cpufreq/highbank-cpufreq.c:62-68 | Of the pre and post notifications of one rate change, at most one requests voltage. One does exactly when the rate actually changes |
| `HighbankCpufreq.Retry` | drivers/cpufreq/highbank-cpufreq.c:60-66 | Entered with counter i, the loop makes between i+1 and 17 calls. It ends in NOTIFY_DONE exactly when its last call returned 0; otherwise it ends in NOTIFY_BAD after exactly 17 calls |
| `HighbankCpufreq.RetryStopsAtFirstAck` | drivers/cpufreq/highbank-cpufreq.c:64-66 | If call k (k < 17) is the first to return 0, the loop makes exactly k+1 calls and returns NOTIFY_DONE |
| `HighbankCpufreq.RetryGivesUp` | drivers/cpufreq/highbank-cpufreq.c:64-66 | If none of calls 0..16 returns 0, the loop makes exactly 17 calls and returns NOTIFY_BAD; there is never an 18th call |
| `HighbankCpufreq.RetryCallsBeforeLastFailed` | drivers/cpufreq/highbank-cpufreq.c:64-66 | Every call before the loop's last one returned nonzero |
| `HighbankCpufreq.Replies.Grants` | drivers/cpufreq/highbank-cpufreq.c:44-51 | Of n calls, at most n are granted a channel, so at most n messages are sent and n channels freed |
| `HighbankCpufreq.RefusedCallsSendNothing` | drivers/cpufreq/highbank-cpufreq.c:44-46 | Calls whose channel requests are all refused return before sending, so they send no message and free no channel |
| `HighbankCpufreq.Notify` | drivers/cpufreq/highbank-cpufreq.c:56-75 | A notification makes at most 17 calls and returns only NOTIFY_DONE or NOTIFY_BAD. It makes zero calls exactly when the phase/direction test asks for no voltage change |
| `HighbankCpufreq.NotifyProceedsAtFirstAck` | drivers/cpufreq/highbank-cpufreq.c:62-74 | When a voltage change is due and call k (k < 17) is the first answered 0, the notification makes k+1 calls and returns NOTIFY_DONE |
| `HighbankCpufreq.NotifyVetoesAfterSeventeen` | drivers/cpufreq/highbank-cpufreq.c:62-71 | When a voltage change is due and the first 17 calls all fail, the notification makes exactly 17 calls and returns NOTIFY_BAD |
| `HighbankCpufreq.NotifyVetoMeansAllFailed` | drivers/cpufreq/highbank-cpufreq.c:62-71 | A NOTIFY_BAD verdict comes only after exactly 17 calls, all of which failed |
| `HighbankCpufreq.RetryVoltageChange` | drivers/cpufreq/highbank-cpufreq.c:64-66 | The while loop returns `Retry`'s verdict and makes exactly `Retry`'s number of calls. It sends exactly one message per granted call among them, every one `Message` of the same narrowed rate, and frees exactly one channel per granted call, so no channel stays held |
| `HighbankCpufreq.ClkNotify` | drivers/cpufreq/highbank-cpufreq.c:56-75 | The notifier returns `Notify`'s verdict and makes exactly `Notify`'s number of calls. It sends exactly one message per granted call, all the identical message for the new rate, and frees exactly one channel per granted call, so no channel stays held. A notification that asks for no voltage change makes no request, sends nothing and frees nothing |

## Left out

- `hb_cpufreq_driver_init` (platform identification, the device-tree search for `operating-points`, the CPU device and clock lookup, notifier and platform-device registration), the `notifier_block` and the module macros: discovery and registration plumbing with no decision logic.
- The mailbox framework itself (`mbox_request_channel`, `mbox_send_message`, `mbox_free_channel`) is not part of this model. It is the `Endpoint` oracle, which fixes the request result, the send result and the overwritten slot 1. The oracle's answers do not depend on the message contents.
- The `mbox_client` settings (blocking send, 1-second `tx_tout`, no callbacks) and all timing: the notifier blocks the clock thread for up to one timeout per call, but nothing about elapsed time is stated beyond the number of calls.
- Mailbox.Endpoint.SendMessage: the responder may rewrite only slot 1 of the buffer; the remaining slots are kept. The PL320 write-back after the acknowledgement may in fact refill the whole buffer from the hardware FIFO. The buffer is local to `hb_voltage_change` and only slot 1 is read back, so no result of the driver depends on the other slots.
- `pr_err` logging and concurrency: the clock framework is assumed to serialise notifications, as the driver assumes.
- The `clk_notifier_data` pointer and the `notifier_block` argument are replaced by the three values the notifier reads: `action`, `old_rate` and `new_rate`.
