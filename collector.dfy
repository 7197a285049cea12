/**
 * The outbound entry points of dm_collector_c: enable_logs, disable_logs and
 * generate_diag_cfg, with generate_log_config_msgs doing the work.  They run
 * step by step against a Sink and are proved to send exactly what the plans
 * of module LogConfig describe.
 */
module Collector {
  import opened Wrappers
  import opened TypeIds
  import opened LogConfig
  import Bucketing

  /** The serial port or file object that send_msg writes to: everything
      written so far, one command per call. */
  class Sink {
    var sent: seq<Command>

    constructor ()
      ensures sent == []
    {
      sent := [];
    }

    /** send_msg: writes the HDLC frame of the encoded command; it never
        reports failure. */
    method SendMsg(c: Command)
      modifies this
      ensures sent == old(sent) + [c]
    {
      sent := sent + [c];
    }
  }

  /** The block repeated for every command: encode it, and send it only when
      the buffer is non-empty. */
  method EncodeAndSend(sink: Sink, c: Command, env: Env) returns (ok: bool)
    modifies sink
    ensures ok == Encodable(c, env.encode)
    ensures sink.sent == old(sink.sent) + (if ok then [c] else [])
  {
    var buf := env.encode(c.op, c.ids);
    if |buf| == 0 {
      return false;
    }
    sink.SendMsg(c);
    ok := true;
  }

  /** The loop over type_names: the ids of every string item in order, or
      None at the first name find_ids does not know. */
  method ResolveNames(names: seq<Item>, findIds: string -> seq<Id>) returns (r: Option<seq<Id>>)
    ensures r == Resolve(names, findIds)
  {
    var typeIds: seq<Id> := [];
    var i := 0;
    while i < |names|
      invariant 0 <= i <= |names|
      invariant Resolve(names[..i], findIds) == Some(typeIds)
    {
      assert names[..i + 1][..i] == names[..i];
      var item := names[i];
      if item.Name? {
        var found := findIds(item.name);
        if |found| == 0 {
          ResolveFailsIff(names[..i + 1], findIds);
          ResolveFailsIff(names, findIds);
          assert Unknown(names[..i + 1][i], findIds);
          return None;
        }
        typeIds := typeIds + found;
      }
      i := i + 1;
    }
    assert names[..i] == names;
    return Some(typeIds);
  }

  /** The search for Modem_debug_message: the index of the first occurrence
      of x, or |ids| when there is none. */
  method FindFirst(ids: seq<Id>, x: Id) returns (k: nat)
    ensures k <= |ids|
    ensures k < |ids| <==> x in ids
    ensures k < |ids| ==> k == FirstIndex(ids, x)
  {
    k := 0;
    while k < |ids| && ids[k] != x
      invariant 0 <= k <= |ids|
      invariant forall t :: 0 <= t < k ==> ids[t] != x
    {
      k := k + 1;
    }
  }

  /** The last loop of generate_log_config_msgs: one SET_MASK per bucket, in
      order, stopping at the first one that does not encode. */
  method SendSetMasks(sink: Sink, buckets: seq<seq<Id>>, env: Env) returns (ok: bool)
    modifies sink
    ensures sink.sent == old(sink.sent) + SendAll(SetMaskCommands(buckets), env.encode).sent
    ensures ok <==> SendAll(SetMaskCommands(buckets), env.encode).outcome == Done
  {
    ghost var cmds := SetMaskCommands(buckets);
    var b := 0;
    while b < |buckets|
      invariant 0 <= b <= |buckets|
      invariant sink.sent == old(sink.sent) + cmds[..b]
      invariant forall t :: 0 <= t < b ==> Encodable(cmds[t], env.encode)
    {
      assert cmds[b] == Command(SetMask, buckets[b]);
      ok := EncodeAndSend(sink, Command(SetMask, buckets[b]), env);
      if !ok {
        assert FirstUnencodable(cmds, env.encode) == b;
        return false;
      }
      assert cmds[..b + 1] == cmds[..b] + [cmds[b]];
      b := b + 1;
    }
    assert FirstUnencodable(cmds, env.encode) == |cmds|;
    assert cmds[..|cmds|] == cmds;
    return true;
  }

  /** The Modem_debug_message branch: when the debug id was found at k, erase
      it there and send DEBUG_LTE_ML1 and then DEBUG_WCDMA_L1 with the ids left,
      stopping at the first one that does not encode. */
  method SendDebugCommands(sink: Sink, typeIds: seq<Id>, k: nat, env: Env) returns (rest: seq<Id>, ok: bool)
    requires k <= |typeIds|
    requires k < |typeIds| <==> ModemDebugMessage in typeIds
    requires k < |typeIds| ==> k == FirstIndex(typeIds, ModemDebugMessage)
    modifies sink
    ensures rest == Remaining(typeIds)
    ensures sink.sent == old(sink.sent) + SendAll(DebugCommands(typeIds), env.encode).sent
    ensures ok <==> SendAll(DebugCommands(typeIds), env.encode).outcome == Done
  {
    ghost var debug := DebugCommands(typeIds);
    rest := typeIds;
    ok := true;
    if k < |typeIds| {
      rest := typeIds[..k] + typeIds[k + 1..];
      assert debug == [Command(DebugLteMl1, rest), Command(DebugWcdmaL1, rest)];
      ok := EncodeAndSend(sink, Command(DebugLteMl1, rest), env);
      if !ok {
        assert FirstUnencodable(debug, env.encode) == 0;
        return;
      }
      ok := EncodeAndSend(sink, Command(DebugWcdmaL1, rest), env);
      if !ok {
        assert FirstUnencodable(debug, env.encode) == 1;
        assert debug[..1] == [debug[0]];
        return;
      }
      assert FirstUnencodable(debug, env.encode) == 2;
      assert debug[..2] == debug;
    }
  }

  /** The call to sort_type_ids on the ids left after the debug branch. */
  method BucketIds(rest: seq<Id>, equip: Id -> int) returns (buckets: seq<seq<Id>>)
    ensures buckets == Buckets(rest, equip)
    ensures MaximalRuns(buckets, SortedSet(rest), equip)
  {
    var a := new Id[|rest|](t requires 0 <= t < |rest| => rest[t]);
    assert a[..] == rest;
    var n;
    n, buckets := Bucketing.SortTypeIds(a, equip);
  }

  /** generate_log_config_msgs. */
  method GenerateLogConfigMsgs(sink: Sink, names: seq<Item>, env: Env) returns (outcome: Outcome)
    modifies sink
    ensures sink.sent == old(sink.sent) + EnablePlan(names, env).sent
    ensures outcome == EnablePlan(names, env).outcome
  {
    var resolved := ResolveNames(names, env.findIds);
    if resolved.None? {
      return Failed(WrongTypeName);
    }
    var typeIds := resolved.value;
    ghost var debug := DebugCommands(typeIds);
    ghost var plan := SendAll(debug + SetMaskCommands(Buckets(Remaining(typeIds), env.equipId)), env.encode);
    assert EnablePlan(names, env) == plan;

    var k := FindFirst(typeIds, ModemDebugMessage);
    var rest, ok := SendDebugCommands(sink, typeIds, k, env);
    if !ok {
      SendAllStopsInPrefix(debug, SetMaskCommands(Buckets(rest, env.equipId)), env.encode);
      return Failed(EncodeFailed);
    }

    var buckets := BucketIds(rest, env.equipId);
    ok := SendSetMasks(sink, buckets, env);
    SendAllAfterPrefix(debug, SetMaskCommands(buckets), env.encode);
    outcome := if ok then Done else Failed(EncodeFailed);
  }

  /** enable_logs: generate_log_config_msgs on the serial port. */
  method EnableLogs(port: Sink, names: seq<Item>, env: Env) returns (outcome: Outcome)
    modifies port
    ensures port.sent == old(port.sent) + EnablePlan(names, env).sent
    ensures outcome == EnablePlan(names, env).outcome
  {
    outcome := GenerateLogConfigMsgs(port, names, env);
  }

  /** disable_logs: one DISABLE with no ids; False, with nothing sent, when it
      does not encode. */
  method DisableLogs(port: Sink, env: Env) returns (ok: bool)
    modifies port
    ensures ok == Encodable(DisableCommand, env.encode)
    ensures port.sent == old(port.sent) + (if ok then [Command(Disable, [])] else [])
  {
    ok := EncodeAndSend(port, DisableCommand, env);
  }

  /** generate_diag_cfg: DISABLE first, then the enable batch, into a file. */
  method GenerateDiagCfg(file: Sink, names: seq<Item>, env: Env) returns (outcome: Outcome)
    modifies file
    ensures file.sent == old(file.sent) + DiagCfgPlan(names, env).sent
    ensures outcome == DiagCfgPlan(names, env).outcome
  {
    var ok := EncodeAndSend(file, DisableCommand, env);
    if !ok {
      return Failed(EncodeFailed);
    }
    DiagCfgAfterDisable(old(file.sent), names, env);
    outcome := GenerateLogConfigMsgs(file, names, env);
  }
}
