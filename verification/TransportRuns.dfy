/** Any run of commands over either transport against a device that may answer with any thirteen
    status bytes (benchmarks/usb-bench-rs/src/bulk_only/native.rs and wasm.rs): which succeed. */
module TransportRuns {
  import opened UsbBase
  import opened BulkOnlyCodec
  import opened BotDevice
  import opened BulkTransport

  datatype Command = In(block: seq<byte>, length: u32) | Out(block: seq<byte>, data: Option<seq<byte>>)

  /** What the transports can be given: a command block, and a slice of the address space. */
  predicate Sendable(kind: Kind, c: Command) {
    1 <= |c.block| <= 16 && (c.Out? ==> Addressable(kind, BytesOf(c.data)))
  }

  /** A command after which host and device are out of step. */
  predicate LosesStep(kind: Kind, c: Command) {
    c.Out? && !InStep(kind, c.data)
  }

  /** A status wrapper that says that the command with this tag passed. */
  predicate Passes(status: seq<byte>, tag: u32) {
    && |status| == 13 && status[..4] == [0x55, 0x53, 0x42, 0x53] && status[12] == 0
    && tag as int == status[4] as int + 0x100 * status[5] as int + 0x1_0000 * status[6] as int + 0x100_0000 * status[7] as int
  }

  lemma NoErrorIffPasses(status: seq<byte>, tag: u32)
    requires |status| == 13
    ensures Verdict(status, tag).None? <==> Passes(status, tag)
  {
    CswVerdict(status, tag);
  }

  method Send(transport: Transport, c: Command) returns (ok: bool)
    requires transport.Valid() && Sendable(transport.kind, c)
    modifies transport, transport.device`phase, transport.device`disk
    ensures transport.device.Valid() && transport.commands == old(transport.commands) + 1
    ensures LosesStep(transport.kind, c) ==> !ok && transport.device.phase != Waiting
    ensures !LosesStep(transport.kind, c) ==>
              && transport.Valid()
              && (transport.device.foreign.Some? ==>
                    (ok <==> Passes(transport.device.foreign.value, TagOf(old(transport.commands)))))
  {
    if transport.device.foreign.Some? {
      NoErrorIffPasses(transport.device.foreign.value, TagOf(transport.commands));
    }
    match c {
      case In(block, length) =>
        var r := transport.CommandIn(block, length);
        return r.Ok?;
      case Out(block, data) =>
        var r := transport.CommandOut(block, data);
        return r.Ok?;
    }
  }

  /** Command number `n` of the transport, whatever the device answers it with, succeeds if and only
      if those bytes are a passing status wrapper with the tag of command `n`; up to the first command
      that leaves host and device out of step, which fails. */
  method RunCommands(transport: Transport, commands: seq<Command>, answers: seq<Option<seq<byte>>>)
    returns (ok: seq<bool>, ghost done: nat)
    requires transport.Valid() && |answers| == |commands|
    requires forall k :: 0 <= k < |commands| ==> Sendable(transport.kind, commands[k]) && ValidStatus(answers[k])
    modifies transport, transport.device
    ensures done <= |commands| && |ok| == done + (if done < |commands| then 1 else 0)
    ensures transport.commands == old(transport.commands) + |ok|
    ensures forall k :: 0 <= k < done ==> !LosesStep(transport.kind, commands[k])
    ensures forall k :: 0 <= k < done && answers[k].Some? ==>
              (ok[k] <==> Passes(answers[k].value, TagOf(old(transport.commands) + k)))
    ensures if done < |commands| then LosesStep(transport.kind, commands[done]) && !ok[done] else transport.Valid()
  {
    ok, done := [], 0;
    var k := 0;
    while k < |commands|
      invariant 0 <= k <= |commands| && |ok| == k && done == k
      invariant transport.Valid() && transport.commands == old(transport.commands) + k
      invariant forall i :: 0 <= i < k ==> !LosesStep(transport.kind, commands[i])
      invariant forall i :: 0 <= i < k && answers[i].Some? ==>
                  (ok[i] <==> Passes(answers[i].value, TagOf(old(transport.commands) + i)))
    {
      transport.device.AnswerWith(answers[k]);
      var passed := Send(transport, commands[k]);
      ok := ok + [passed];
      if LosesStep(transport.kind, commands[k]) {
        return;
      }
      k := k + 1;
      done := k;
    }
  }

  /** So an answer left over from any of the previous 2^32 - 1 commands never passes for command
      `n`, and one from exactly 2^32 commands ago does. */
  lemma StalePassesIff(status: seq<byte>, m: nat, n: nat)
    requires Passes(status, TagOf(m)) && m <= n
    ensures Passes(status, TagOf(n)) <==> (n - m) % TWO_TO_THE_32 == 0
    ensures m < n < m + TWO_TO_THE_32 ==> !Passes(status, TagOf(n))
  {
    TagsRepeatIff(m, n);
  }
}
