/**
 * The log-config commands that generate_log_config_msgs, disable_logs and
 * generate_diag_cfg emit, stated as functions of their inputs.  The helpers
 * whose code is not part of this model (find_ids, get_equip_id and
 * encode_log_config) are the fields of an Env, so every fact proved here holds
 * whatever they compute.
 */
module LogConfig {
  import opened Wrappers
  import opened TypeIds
  import opened Bytes

  /** The LogConfigOp values the collector sends. */
  datatype LogConfigOp = Disable | SetMask | DebugLteMl1 | DebugWcdmaL1

  /** One send_msg call: the operation and the ids handed to encode_log_config.
      The bytes written are the HDLC frame of that encoding, a function of the
      command, so the order and content of the commands determine them. */
  datatype Command = Command(op: LogConfigOp, ids: seq<Id>)

  /** An element of the Python sequence of type names. */
  datatype Item = Name(name: string) | NonString

  datatype Error =
    | WrongTypeName   // ValueError "Wrong type name."
    | EncodeFailed    // RuntimeError "Log config msg failed to encode."

  datatype Outcome = Done | Failed(error: Error)

  /** The external helpers: find_ids (the ids a name resolves to, appended to
      the IdVector; their number is its return value), get_equip_id and
      encode_log_config (an empty buffer stands for a null or zero-length one). */
  datatype Env = Env(
    findIds: string -> seq<Id>,
    equipId: Id -> int,
    encode: (LogConfigOp, seq<Id>) -> seq<Byte>)

  /** What a call sends, in order, and how it ends. */
  datatype Emission = Emission(sent: seq<Command>, outcome: Outcome)

  const DisableCommand: Command := Command(Disable, [])

  // ---------------------------------------------------------------------------
  // Resolving names

  /** A string item that find_ids resolves to no id at all. */
  predicate Unknown(item: Item, findIds: string -> seq<Id>) {
    item.Name? && |findIds(item.name)| == 0
  }

  /** The ids the loop over type_names collects, or None when it stops at an
      unknown name.  Non-string items contribute nothing. */
  function Resolve(names: seq<Item>, findIds: string -> seq<Id>): Option<seq<Id>>
    decreases |names|
  {
    if |names| == 0 then Some([])
    else
      match Resolve(names[..|names| - 1], findIds)
      case None => None
      case Some(ids) =>
        var item := names[|names| - 1];
        if !item.Name? then Some(ids)
        else if |findIds(item.name)| == 0 then None
        else Some(ids + findIds(item.name))
  }

  /** Resolution fails exactly when some string item is unknown. */
  lemma {:induction false} ResolveFailsIff(names: seq<Item>, findIds: string -> seq<Id>)
    ensures Resolve(names, findIds).None?
            <==> exists i :: 0 <= i < |names| && Unknown(names[i], findIds)
    decreases |names|
  {
    if |names| > 0 {
      var init := names[..|names| - 1];
      ResolveFailsIff(init, findIds);
      assert forall i :: 0 <= i < |init| ==> init[i] == names[i];
      if exists i :: 0 <= i < |names| && Unknown(names[i], findIds) {
        var i :| 0 <= i < |names| && Unknown(names[i], findIds);
        if i < |init| {
          assert Unknown(init[i], findIds);
        }
      }
    }
  }

  /** The string items of names, in order. */
  function Strings(names: seq<Item>): (r: seq<Item>)
    ensures forall item :: item in r ==> item.Name?
    decreases |names|
  {
    if |names| == 0 then []
    else
      var last := names[|names| - 1];
      Strings(names[..|names| - 1]) + (if last.Name? then [last] else [])
  }

  /** Items that are not strings are skipped: resolving only the string items
      gives the same outcome and the same ids. */
  lemma {:induction false} ResolveIgnoresNonStrings(names: seq<Item>, findIds: string -> seq<Id>)
    ensures Resolve(Strings(names), findIds) == Resolve(names, findIds)
    decreases |names|
  {
    if |names| > 0 {
      var init := names[..|names| - 1];
      var last := names[|names| - 1];
      ResolveIgnoresNonStrings(init, findIds);
      if last.Name? {
        var s := Strings(init) + [last];
        assert Strings(names) == s;
        assert s[..|s| - 1] == Strings(init);
      } else {
        assert Strings(names) == Strings(init);
      }
    }
  }

  // ---------------------------------------------------------------------------
  // Sending a batch with early exit

  /** encode_log_config gives a non-empty buffer for c. */
  predicate Encodable(c: Command, encode: (LogConfigOp, seq<Id>) -> seq<Byte>) {
    |encode(c.op, c.ids)| > 0
  }

  /** Index of the first command whose encoding is empty, or |cmds|. */
  function FirstUnencodable(cmds: seq<Command>, encode: (LogConfigOp, seq<Id>) -> seq<Byte>): (k: nat)
    ensures k <= |cmds|
    ensures forall t :: 0 <= t < k ==> Encodable(cmds[t], encode)
    ensures k < |cmds| ==> !Encodable(cmds[k], encode)
  {
    if |cmds| == 0 || !Encodable(cmds[0], encode) then 0
    else 1 + FirstUnencodable(cmds[1..], encode)
  }

  /** Encoding and sending cmds one by one, giving up at the first command
      that does not encode: what was sent stays sent. */
  function SendAll(cmds: seq<Command>, encode: (LogConfigOp, seq<Id>) -> seq<Byte>): (e: Emission)
    ensures |e.sent| <= |cmds| && e.sent == cmds[..|e.sent|]
    ensures forall c :: c in e.sent ==> Encodable(c, encode)
    ensures e.outcome == Done <==> e.sent == cmds
    ensures e.outcome != Done ==> e.outcome == Failed(EncodeFailed) && !Encodable(cmds[|e.sent|], encode)
  {
    var k := FirstUnencodable(cmds, encode);
    Emission(cmds[..k], if k == |cmds| then Done else Failed(EncodeFailed))
  }

  /** Once every command of pre has been sent, the batch continues with
      post as if it had started there. */
  lemma SendAllAfterPrefix(pre: seq<Command>, post: seq<Command>, encode: (LogConfigOp, seq<Id>) -> seq<Byte>)
    requires forall c :: c in pre ==> Encodable(c, encode)
    ensures SendAll(pre + post, encode)
            == Emission(pre + SendAll(post, encode).sent, SendAll(post, encode).outcome)
  {
    var k := FirstUnencodable(pre + post, encode);
    var j := FirstUnencodable(post, encode);
    assert forall t :: 0 <= t < |post| ==> (pre + post)[|pre| + t] == post[t];
    assert forall t :: 0 <= t < |pre| ==> (pre + post)[t] == pre[t];
    assert k == |pre| + j;
    assert (pre + post)[..k] == pre + post[..j];
  }

  /** A failure inside pre ends the batch before post is reached. */
  lemma SendAllStopsInPrefix(pre: seq<Command>, post: seq<Command>, encode: (LogConfigOp, seq<Id>) -> seq<Byte>)
    requires FirstUnencodable(pre, encode) < |pre|
    ensures SendAll(pre + post, encode) == SendAll(pre, encode)
  {
    var k := FirstUnencodable(pre, encode);
    var all := pre + post;
    assert all[k] == pre[k];
    assert forall t :: 0 <= t < k ==> Encodable(all[t], encode) by {
      forall t | 0 <= t < k ensures Encodable(all[t], encode) {
        assert all[t] == pre[t];
      }
    }
    assert FirstUnencodable(all, encode) == k;
    assert all[..k] == pre[..k];
  }

  // ---------------------------------------------------------------------------
  // The Modem_debug_message special case

  /** Position of the first occurrence of x in s. */
  function FirstIndex(s: seq<Id>, x: Id): (k: nat)
    requires x in s
    ensures k < |s| && s[k] == x
    ensures forall t :: 0 <= t < k ==> s[t] != x
  {
    if s[0] == x then 0 else 1 + FirstIndex(s[1..], x)
  }

  /** vector::erase at the first occurrence of x. */
  function EraseFirst(s: seq<Id>, x: Id): seq<Id>
    requires x in s
  {
    var k := FirstIndex(s, x);
    s[..k] + s[k + 1..]
  }

  /** Erasing removes one copy of x and keeps every other id, with its
      multiplicity; so x survives exactly when it occurred at least twice. */
  lemma EraseFirstRemovesOne(s: seq<Id>, x: Id)
    requires x in s
    ensures multiset(EraseFirst(s, x)) == multiset(s) - multiset{x}
    ensures x in EraseFirst(s, x) <==> multiset(s)[x] >= 2
  {
    var k := FirstIndex(s, x);
    var before, after := s[..k], s[k + 1..];
    assert s == before + [x] + after;
    assert multiset(s) == multiset(before) + multiset{x} + multiset(after);
    var e := EraseFirst(s, x);
    assert e == before + after;
    assert multiset(e) == multiset(before) + multiset(after);
    assert multiset(e)[x] == multiset(s)[x] - 1;
    assert x in e <==> multiset(e)[x] > 0;
  }

  /** The ids left after the debug id (if any) has been erased once. */
  function Remaining(ids: seq<Id>): seq<Id> {
    if ModemDebugMessage in ids then EraseFirst(ids, ModemDebugMessage) else ids
  }

  /** The two subsystem commands that stand for Modem_debug_message. */
  function DebugCommands(ids: seq<Id>): seq<Command> {
    if ModemDebugMessage in ids then
      var rest := Remaining(ids);
      [Command(DebugLteMl1, rest), Command(DebugWcdmaL1, rest)]
    else []
  }

  /** The buckets sort_type_ids produces for ids. */
  function Buckets(ids: seq<Id>, equip: Id -> int): seq<seq<Id>> {
    Runs(SortedSet(ids), equip)
  }

  function SetMaskCommands(buckets: seq<seq<Id>>): seq<Command> {
    seq(|buckets|, i requires 0 <= i < |buckets| => Command(SetMask, buckets[i]))
  }

  /** Every command generate_log_config_msgs would send for the resolved ids
      if every encoding succeeded. */
  function EnableCommands(ids: seq<Id>, equip: Id -> int): seq<Command> {
    DebugCommands(ids) + SetMaskCommands(Buckets(Remaining(ids), equip))
  }

  /** generate_log_config_msgs (and so enable_logs). */
  function EnablePlan(names: seq<Item>, env: Env): Emission {
    match Resolve(names, env.findIds)
    case None => Emission([], Failed(WrongTypeName))
    case Some(ids) => SendAll(EnableCommands(ids, env.equipId), env.encode)
  }

  /** generate_diag_cfg: a DISABLE command, then generate_log_config_msgs. */
  function DiagCfgPlan(names: seq<Item>, env: Env): Emission {
    if !Encodable(DisableCommand, env.encode) then Emission([], Failed(EncodeFailed))
    else
      var e := EnablePlan(names, env);
      Emission([DisableCommand] + e.sent, e.outcome)
  }

  // ---------------------------------------------------------------------------
  // Properties of the plans

  /** An unknown name aborts the batch before anything is sent, and it is the
      only way to get the wrong-type-name error. */
  lemma UnknownNameSendsNothing(names: seq<Item>, env: Env)
    ensures EnablePlan(names, env).outcome == Failed(WrongTypeName)
            <==> exists i :: 0 <= i < |names| && Unknown(names[i], env.findIds)
    ensures EnablePlan(names, env).outcome == Failed(WrongTypeName) ==> EnablePlan(names, env).sent == []
  {
    ResolveFailsIff(names, env.findIds);
  }

  /** With the debug id among the resolved ids, the batch opens with
      DEBUG_LTE_ML1 and then DEBUG_WCDMA_L1, both carrying the ids left after
      erasing its first occurrence, and every later command is a SET_MASK;
      without it, every command is a SET_MASK. */
  lemma DebugCommandsLead(ids: seq<Id>, equip: Id -> int)
    ensures var cmds := EnableCommands(ids, equip);
      ModemDebugMessage in ids ==>
        && |cmds| >= 2
        && cmds[0] == Command(DebugLteMl1, EraseFirst(ids, ModemDebugMessage))
        && cmds[1] == Command(DebugWcdmaL1, EraseFirst(ids, ModemDebugMessage))
        && forall t :: 2 <= t < |cmds| ==> cmds[t].op == SetMask
    ensures var cmds := EnableCommands(ids, equip);
      ModemDebugMessage !in ids ==> forall t :: 0 <= t < |cmds| ==> cmds[t].op == SetMask
  {
  }

  /** The SET_MASK commands are the buckets in order: each carries a
      non-empty, strictly increasing run of ids sharing one equipment id,
      neighbouring commands differ in equipment id, and together they carry
      exactly the remaining ids, each once. */
  lemma SetMaskCommandsGroupByEquipment(ids: seq<Id>, equip: Id -> int)
    ensures var cmds := EnableCommands(ids, equip);
      var d := |DebugCommands(ids)|;
      var masks := cmds[d..];
      && (forall t :: 0 <= t < |masks| ==> masks[t].op == SetMask)
      && (forall t :: 0 <= t < |masks| ==>
            |masks[t].ids| > 0 && Uniform(masks[t].ids, equip) && StrictlyIncreasing(masks[t].ids))
      && (forall t :: 0 < t < |masks| ==>
            equip(masks[t - 1].ids[|masks[t - 1].ids| - 1]) != equip(masks[t].ids[0]))
      && Flatten(seq(|masks|, t requires 0 <= t < |masks| => masks[t].ids)) == SortedSet(Remaining(ids))
  {
    var buckets := Buckets(Remaining(ids), equip);
    var sorted := SortedSet(Remaining(ids));
    var cmds := EnableCommands(ids, equip);
    assert cmds[|DebugCommands(ids)|..] == SetMaskCommands(buckets);
    RunsAreMaximal(sorted, equip);
    SetMasksOfRuns(buckets, sorted, equip);
  }

  /** SET_MASK commands made from the maximal runs of strictly increasing ids. */
  lemma SetMasksOfRuns(buckets: seq<seq<Id>>, sorted: seq<Id>, equip: Id -> int)
    requires MaximalRuns(buckets, sorted, equip) && StrictlyIncreasing(sorted)
    ensures var masks := SetMaskCommands(buckets);
      && (forall t :: 0 <= t < |masks| ==> masks[t].op == SetMask)
      && (forall t :: 0 <= t < |masks| ==>
            |masks[t].ids| > 0 && Uniform(masks[t].ids, equip) && StrictlyIncreasing(masks[t].ids))
      && (forall t :: 0 < t < |masks| ==>
            equip(masks[t - 1].ids[|masks[t - 1].ids| - 1]) != equip(masks[t].ids[0]))
      && Flatten(seq(|masks|, t requires 0 <= t < |masks| => masks[t].ids)) == sorted
  {
    var masks := SetMaskCommands(buckets);
    assert seq(|masks|, t requires 0 <= t < |masks| => masks[t].ids) == buckets;
    BucketsIncreasing(buckets);
  }

  /** The debug id reaches a SET_MASK command exactly when it was resolved at
      least twice: only its first occurrence is erased. */
  lemma DebugIdInSetMaskIff(ids: seq<Id>, equip: Id -> int)
    ensures var masks := SetMaskCommands(Buckets(Remaining(ids), equip));
      (exists t :: 0 <= t < |masks| && ModemDebugMessage in masks[t].ids)
      <==> multiset(ids)[ModemDebugMessage] >= 2
  {
    var buckets := Buckets(Remaining(ids), equip);
    var masks := SetMaskCommands(buckets);
    RunsAreMaximal(SortedSet(Remaining(ids)), equip);
    FlattenMembership(buckets, ModemDebugMessage);
    assert forall t :: 0 <= t < |masks| ==> masks[t].ids == buckets[t];
    if ModemDebugMessage in ids {
      EraseFirstRemovesOne(ids, ModemDebugMessage);
    } else {
      assert multiset(ids)[ModemDebugMessage] == 0;
    }
  }

  /** generate_diag_cfg sends DISABLE with no ids first, and nothing at all
      when DISABLE does not encode; no later command is a DISABLE. */
  lemma DiagCfgStartsWithDisable(names: seq<Item>, env: Env)
    ensures var e := DiagCfgPlan(names, env);
      && (e.sent == [] <==> !Encodable(DisableCommand, env.encode))
      && (e.sent != [] ==> e.sent[0] == Command(Disable, []))
      && (forall t :: 1 <= t < |e.sent| ==> e.sent[t].op != Disable)
      && (!Encodable(DisableCommand, env.encode) ==> e.outcome == Failed(EncodeFailed))
  {
    if Encodable(DisableCommand, env.encode) {
      var inner := EnablePlan(names, env);
      DiagCfgPlanUnfold(names, env);
      EnableNeverDisables(names, env);
      var e := DiagCfgPlan(names, env);
      assert forall t :: 1 <= t < |e.sent| ==> e.sent[t] == inner.sent[t - 1];
    }
  }

  /** generate_diag_cfg, once DISABLE has been sent: the definition of
      DiagCfgPlan in the encodable case, as a lemma the callers invoke instead
      of unfolding the plan inside larger proofs (which is costly). */
  lemma DiagCfgPlanUnfold(names: seq<Item>, env: Env)
    requires Encodable(DisableCommand, env.encode)
    ensures DiagCfgPlan(names, env)
            == Emission([DisableCommand] + EnablePlan(names, env).sent, EnablePlan(names, env).outcome)
  {
  }

  /** What has been sent once DISABLE is out and the enable batch follows. */
  lemma DiagCfgAfterDisable(before: seq<Command>, names: seq<Item>, env: Env)
    requires Encodable(DisableCommand, env.encode)
    ensures (before + [DisableCommand]) + EnablePlan(names, env).sent == before + DiagCfgPlan(names, env).sent
    ensures EnablePlan(names, env).outcome == DiagCfgPlan(names, env).outcome
  {
    var e := EnablePlan(names, env);
    var d := DiagCfgPlan(names, env);
    DiagCfgPlanUnfold(names, env);
    assert d.sent == [DisableCommand] + e.sent;
    AppendAssoc(before, [DisableCommand], e.sent);
  }

  /** Associativity, stated as its own lemma so that DiagCfgAfterDisable does
      not search for it among the plan definitions (which is costly). */
  lemma AppendAssoc<T>(a: seq<T>, b: seq<T>, c: seq<T>)
    ensures (a + b) + c == a + (b + c)
  {
  }

  /** The enable batch never sends a DISABLE. */
  lemma EnableNeverDisables(names: seq<Item>, env: Env)
    ensures forall t :: 0 <= t < |EnablePlan(names, env).sent| ==> EnablePlan(names, env).sent[t].op != Disable
  {
    match Resolve(names, env.findIds)
    case None =>
    case Some(ids) =>
      var cmds := EnableCommands(ids, env.equipId);
      var sent := SendAll(cmds, env.encode).sent;
      DebugCommandsLead(ids, env.equipId);
      assert forall t :: 0 <= t < |sent| ==> sent[t] == cmds[t];
  }

  /** Unlike enable_logs, generate_diag_cfg has already written DISABLE when
      an unknown name aborts the rest of the batch. */
  lemma DiagCfgUnknownNameAfterDisable(names: seq<Item>, env: Env)
    requires Encodable(DisableCommand, env.encode)
    requires exists i :: 0 <= i < |names| && Unknown(names[i], env.findIds)
    ensures DiagCfgPlan(names, env) == Emission([DisableCommand], Failed(WrongTypeName))
  {
    ResolveFailsIff(names, env.findIds);
  }
}
