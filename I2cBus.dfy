/** The two-wire bus the driver owns, seen from the driver: a recorder of the
    transactions issued, in order, whose answers come from an oracle. The
    oracle stands for everything on the far side of the bus (the transport and
    the device); any transaction may fail with the transport's error `E`. */
module I2cBus {
  import opened Wrappers

  /** A 7-bit bus address. */
  type DeviceAddress = a: bv8 | a < 0x80

  /** `Write::write(address, bytes)` and `WriteRead::write_read(address, bytes,
      buffer)` with a buffer of `count` bytes. */
  datatype Transaction =
    | Write(device: DeviceAddress, bytes: seq<bv8>)
    | WriteRead(device: DeviceAddress, bytes: seq<bv8>, count: nat)

  /** The far side's answer to one transaction: a transport fault, or an
      acknowledgement together with the bytes the device clocks out (only the
      first `count` of them are taken by a `WriteRead`). */
  datatype Reply<+E> = Fault(error: E) | Ack(clocked: nat -> bv8)

  /** What a `write` returns for a reply. */
  function Completed<E>(reply: Reply<E>): (r: Result<(), E>)
    ensures r.Ok? <==> reply.Ack?
    ensures reply.Fault? ==> r.error == reply.error
  {
    match reply
    case Fault(e) => Err(e)
    case Ack(_) => Ok(())
  }

  /** What the buffer of a `write_read` of `n` bytes holds for a reply: the
      first `n` bytes clocked out, and nothing at all after a fault. */
  function Filled<E>(reply: Reply<E>, n: nat): (r: Result<seq<bv8>, E>)
    ensures r.Ok? <==> reply.Ack?
    ensures reply.Fault? ==> r.error == reply.error
    ensures r.Ok? ==> |r.value| == n && forall i :: 0 <= i < n ==> r.value[i] == reply.clocked(i)
  {
    match reply
    case Fault(e) => Err(e)
    case Ack(clocked) => Ok(seq(n, i requires 0 <= i => clocked(i)))
  }

  /** `ts` went out in order until the first fault: `issued` is the part that
      went out, every transaction but its last was acknowledged, and if it
      stops short of `ts` its last one was refused. `k` is the number of
      transactions the bus had carried before. */
  ghost predicate FailFast<E>(answer: (nat, Transaction) -> Reply<E>, k: nat,
                              ts: seq<Transaction>, issued: seq<Transaction>)
  {
    |issued| <= |ts| && issued == ts[..|issued|] &&
    (forall j :: 0 <= j < |issued| - 1 ==> answer(k + j, ts[j]).Ack?) &&
    (|issued| < |ts| ==> |issued| > 0 && answer(k + |issued| - 1, ts[|issued| - 1]).Fault?)
  }

  /** The outcome of a fail-fast run: the refusal that stopped it, if any. */
  function Outcome<E>(answer: (nat, Transaction) -> Reply<E>, k: nat,
                      issued: seq<Transaction>): Result<(), E>
  {
    if issued == [] then Ok(())
    else Completed(answer(k + |issued| - 1, issued[|issued| - 1]))
  }

  /** A fail-fast run is determined by the answers: no two different prefixes
      of `ts` both fit the description. */
  lemma FailFastUnique<E>(answer: (nat, Transaction) -> Reply<E>, k: nat, ts: seq<Transaction>,
                          issued1: seq<Transaction>, issued2: seq<Transaction>)
    requires FailFast(answer, k, ts, issued1) && FailFast(answer, k, ts, issued2)
    ensures issued1 == issued2
  {
    assert |issued1| == |issued2|;
  }

  /** A fail-fast run over a non-empty sequence succeeds exactly when all of
      it went out and the last transaction was acknowledged too. */
  lemma FailFastOutcome<E>(answer: (nat, Transaction) -> Reply<E>, k: nat,
                           ts: seq<Transaction>, issued: seq<Transaction>)
    requires ts != [] && FailFast(answer, k, ts, issued)
    ensures Outcome(answer, k, issued).Ok? <==>
      issued == ts && forall j :: 0 <= j < |ts| ==> answer(k + j, ts[j]).Ack?
  {
    if issued == ts {
      assert issued[|issued| - 1] == ts[|ts| - 1];
    }
  }

  /** What a fail-fast run leaves behind: the whole trace of the bus and the
      outcome. */
  datatype Run<+E> = Run(trace: seq<Transaction>, outcome: Result<(), E>)

  /** Issues `ts` in order, one call at a time, on a bus that has carried
      `trace`, and stops at the first fault, which becomes the outcome. */
  function RunFailFast<E>(answer: (nat, Transaction) -> Reply<E>, trace: seq<Transaction>,
                          ts: seq<Transaction>): Run<E>
  {
    RunFrom(answer, trace, ts, 0)
  }

  /** The rest of a fail-fast run of `ts` from its `j`-th transaction on. */
  function RunFrom<E>(answer: (nat, Transaction) -> Reply<E>, trace: seq<Transaction>,
                      ts: seq<Transaction>, j: nat): Run<E>
    requires j <= |ts|
    decreases |ts| - j
  {
    if j == |ts| then Run(trace, Ok(()))
    else match answer(|trace|, ts[j])
      case Fault(e) => Run(trace + [ts[j]], Err(e))
      case Ack(_) => RunFrom(answer, trace + [ts[j]], ts, j + 1)
  }

  /** One call of a caller that issues `ts` one call at a time: once `t`,
      the `j`-th transaction, is issued on top of `trace`, a fault ends the
      run with that fault and an acknowledgement leaves the rest to run. */
  lemma RunFromStep<E>(answer: (nat, Transaction) -> Reply<E>, trace: seq<Transaction>,
                       ts: seq<Transaction>, j: nat, t: Transaction)
    requires j < |ts| && t == ts[j]
    ensures RunFrom(answer, trace, ts, j) ==
      match answer(|trace|, t)
      case Fault(e) => Run(trace + [t], Err(e))
      case Ack(_) => RunFrom(answer, trace + [t], ts, j + 1)
  {
  }

  /** A trace that starts with `trace` and then `t` splits there. */
  lemma SplitAfter(s: seq<Transaction>, trace: seq<Transaction>, t: Transaction)
    requires |trace| < |s| && s[..|trace| + 1] == trace + [t]
    ensures s[..|trace|] == trace && s[|trace|..] == [t] + s[|trace| + 1..]
  {
    var k := |trace|;
    assert s[..k] == s[..k + 1][..k];
    assert s[k] == s[..k + 1][k];
  }

  /** An acknowledged transaction in front of a fail-fast run of the rest
      of `us` gives a fail-fast run of `us`, with the same outcome. */
  lemma FailFastCons<E>(answer: (nat, Transaction) -> Reply<E>, k: nat, us: seq<Transaction>,
                        rest: seq<Transaction>)
    requires us != [] && answer(k, us[0]).Ack? && FailFast(answer, k + 1, us[1..], rest)
    ensures FailFast(answer, k, us, [us[0]] + rest)
    ensures Outcome(answer, k, [us[0]] + rest) == Outcome(answer, k + 1, rest)
  {
    var issued := [us[0]] + rest;
    assert issued == us[..|issued|] by {
      assert rest == us[1..][..|rest|];
    }
    forall i | 0 <= i < |issued| - 1 ensures answer(k + i, us[i]).Ack? {
      if i > 0 {
        assert us[i] == us[1..][i - 1];
      }
    }
    if rest != [] {
      assert issued[|issued| - 1] == rest[|rest| - 1];
    }
  }

  /** The rest of the run from `j` appends to the trace a part of `ts[j..]`
      that meets the description of a fail-fast run, and its outcome is the
      reply to the last transaction that went out. */
  lemma {:induction false} RunFromIsFailFast<E>(answer: (nat, Transaction) -> Reply<E>,
                                                trace: seq<Transaction>, ts: seq<Transaction>, j: nat)
    requires j <= |ts|
    ensures var run, k := RunFrom(answer, trace, ts, j), |trace|;
      k <= |run.trace| && run.trace[..k] == trace &&
      FailFast(answer, k, ts[j..], run.trace[k..]) && run.outcome == Outcome(answer, k, run.trace[k..])
    decreases |ts| - j
  {
    var run, k, us := RunFrom(answer, trace, ts, j), |trace|, ts[j..];
    if j < |ts| && answer(k, ts[j]).Fault? {
      assert run.trace[k..] == [us[0]] == us[..1];
    } else if j < |ts| {
      var trace' := trace + [ts[j]];
      RunFromIsFailFast(answer, trace', ts, j + 1);
      assert ts[j + 1..] == us[1..];
      SplitAfter(run.trace, trace, ts[j]);
      FailFastCons(answer, k, us, run.trace[k + 1..]);
    }
  }

  /** The whole run appends to the trace a part of `ts` that meets the
      description of a fail-fast run, and its outcome is the reply to the
      last transaction that went out. */
  lemma RunFailFastIsFailFast<E>(answer: (nat, Transaction) -> Reply<E>,
                                 trace: seq<Transaction>, ts: seq<Transaction>)
    ensures var run, k := RunFailFast(answer, trace, ts), |trace|;
      k <= |run.trace| && run.trace[..k] == trace &&
      FailFast(answer, k, ts, run.trace[k..]) && run.outcome == Outcome(answer, k, run.trace[k..])
  {
    RunFromIsFailFast(answer, trace, ts, 0);
    assert ts[0..] == ts;
  }

  /** When every transaction of `ts` from the `j`-th on is acknowledged, all
      of them go out and the rest of the run succeeds. */
  lemma {:induction false} RunFromAllAcked<E>(answer: (nat, Transaction) -> Reply<E>,
                                              trace: seq<Transaction>, ts: seq<Transaction>, j: nat)
    requires j <= |ts| && forall i :: j <= i < |ts| ==> answer(|trace| + (i - j), ts[i]).Ack?
    ensures RunFrom(answer, trace, ts, j) == Run(trace + ts[j..], Ok(()))
    decreases |ts| - j
  {
    if j < |ts| {
      assert answer(|trace| + (j - j), ts[j]).Ack?;
      var trace' := trace + [ts[j]];
      forall i | j + 1 <= i < |ts| ensures answer(|trace'| + (i - (j + 1)), ts[i]).Ack? {
        assert answer(|trace| + (i - j), ts[i]).Ack?;
      }
      RunFromAllAcked(answer, trace', ts, j + 1);
      assert trace' + ts[j + 1..] == trace + ts[j..];
    } else {
      assert trace + ts[j..] == trace;
    }
  }

  /** When every transaction of `ts` is acknowledged, all of them go out and
      the run succeeds. */
  lemma RunFailFastAllAcked<E>(answer: (nat, Transaction) -> Reply<E>,
                               trace: seq<Transaction>, ts: seq<Transaction>)
    requires forall j :: 0 <= j < |ts| ==> answer(|trace| + j, ts[j]).Ack?
    ensures RunFailFast(answer, trace, ts) == Run(trace + ts, Ok(()))
  {
    RunFromAllAcked(answer, trace, ts, 0);
    assert ts[0..] == ts;
  }

  /** The bus: the transactions carried so far and the oracle that answers
      the next one. */
  class Bus<E> {
    var trace: seq<Transaction>
    const answer: (nat, Transaction) -> Reply<E>

    constructor (answer: (nat, Transaction) -> Reply<E>)
      ensures trace == [] && this.answer == answer
    {
      trace := [];
      this.answer := answer;
    }

    /** `write(device, bytes)`. */
    method Write(device: DeviceAddress, bytes: seq<bv8>) returns (r: Result<(), E>)
      modifies this
      ensures trace == old(trace) + [Transaction.Write(device, bytes)]
      ensures r == Completed(answer(|old(trace)|, Transaction.Write(device, bytes)))
    {
      r := Completed(answer(|trace|, Transaction.Write(device, bytes)));
      trace := trace + [Transaction.Write(device, bytes)];
    }

    /** `write_read(device, bytes, buffer)`: on success the whole buffer holds
        the bytes clocked out; after a fault its contents are undefined. */
    method WriteRead(device: DeviceAddress, bytes: seq<bv8>, buffer: array<bv8>) returns (r: Result<(), E>)
      modifies this, buffer
      ensures trace == old(trace) + [Transaction.WriteRead(device, bytes, buffer.Length)]
      ensures var reply := answer(|old(trace)|, Transaction.WriteRead(device, bytes, buffer.Length));
        r == Completed(reply) && (r.Ok? ==> Filled(reply, buffer.Length) == Ok(buffer[..]))
    {
      var t := Transaction.WriteRead(device, bytes, buffer.Length);
      var reply := answer(|trace|, t);
      r := Completed(reply);
      if reply.Ack? {
        forall i | 0 <= i < buffer.Length {
          buffer[i] := reply.clocked(i);
        }
        assert buffer[..] == Filled(reply, buffer.Length).value;
      }
      trace := trace + [t];
    }
  }
}
