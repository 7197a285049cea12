# dm_collector_c: log-config command planning and packet dispatch

A Dafny model of the sequential logic in `dm_collector_c`, the extension module
that collects and decodes diagnostic logs from Qualcomm chipsets over the DIAG
interface. It covers three pieces of that logic.

- **Id bucketing (`sort_type_ids`).** The requested log type ids are sorted in
  place, `std::unique` drops the duplicates and the vector is resized. The
  result is then cut into maximal runs that share an equipment id (module
  `Bucketing`, on an `array`). The reference definitions are in module
  `TypeIds`: `SortedSet`, `Unique`, `Runs` and `MaximalRuns`. The code is
  proved equal to them, and they are proved to have the promised properties:
  strictly increasing order, the same values as the input, non-empty uniform
  buckets, adjacent buckets with different equipment ids, and a concatenation
  equal to the sorted ids. The runs are also proved unique.
- **Command planning (`generate_log_config_msgs`, `enable_logs`,
  `disable_logs`, `generate_diag_cfg`).** Module `LogConfig` states, as
  functions of the inputs, which commands `generate_log_config_msgs` (and so
  `enable_logs`) and `generate_diag_cfg` send and how they end: `EnablePlan`
  and `DiagCfgPlan`. Module `Collector` runs the same steps imperatively
  against a `Sink` object whose `sent` field records every `send_msg` call as
  a `Command(op, ids)`. Each of these methods is proved to send exactly what
  its plan says. `disable_logs` sends at most one command and has no plan
  function: `Collector.DisableLogs` states its effect directly. The lemmas in
  `LogConfig` prove the behaviour:
  - an unknown name aborts the batch before anything is sent;
  - items that are not strings are skipped;
  - the debug id brings in two subsystem commands ahead of every SET_MASK;
  - there is one SET_MASK per bucket;
  - the batch stops at the first command whose encoding is empty;
  - DISABLE comes first in a diag config.
- **Inbound dispatch (`receive_log_packet`).** Module `Receive` has pure
  functions over byte sequences. A missing frame or a bad CRC gives nothing. A
  log packet is decoded from offset 2. A debug packet is decoded with a
  synthesised 14-byte header in front. Anything else gives nothing.

The helpers whose code is not part of this model are parameters:
`find_ids`, `get_equip_id`, `encode_log_config`, `is_log_packet`,
`is_debug_packet` and `decode_log_packet`. The first three travel together
as `LogConfig.Env`. The properties hold whatever these helpers compute, with
one exception: `is_log_packet` must reject frames shorter than two bytes
(see `Receive.ReceiveLogPacket` under "Left out"). The frame that
`get_next_frame` delivers is an input value (`Receive.FrameRead`). An empty
buffer from `encode_log_config` stands for a null or zero-length
`BinaryBuffer`.

`Modem_debug_message` is `0x1FEB`. `consts.h` is not part of this model. The
value is the type id that the synthetic debug header carries in its bytes 4–5
(`0xeb, 0x1f`, little-endian); `Receive.DebugRecordHeaderFields` connects
the two.

Four consequences of the code that are easy to miss:
- `generate_log_config_msgs` erases only the first occurrence of
  `Modem_debug_message`, so an id resolved twice reaches a SET_MASK command
  (`LogConfig.DebugIdInSetMaskIff`).
- `generate_diag_cfg` sends DISABLE before it resolves the names, so an
  unknown name leaves DISABLE written
  (`LogConfig.DiagCfgUnknownNameAfterDisable`).
- The synthetic debug header patches only byte 2 with `(size + 14) mod 256`,
  and byte 3 stays 0. So its 16-bit length field equals the record length
  only for frames shorter than 242 bytes (`Receive.DebugRecordHeaderFields`).
- The debug commands carry the resolved ids after the erase, unsorted and
  possibly with duplicates. Only the SET_MASK ids are sorted and
  deduplicated.

## Model

| member | source | states |
|---|---|---|
| `TypeIds.InsertSorted` | dm_collector_c/dm_collector_c.cpp:80-82 | inserting into a strictly increasing sequence keeps it strictly increasing and adds exactly the one value |
| `TypeIds.SortedSet` | dm_collector_c/dm_collector_c.cpp:80-82 | the sorted, deduplicated ids are strictly increasing and hold exactly the values of the input |
| `TypeIds.StrictlyIncreasingUnique` | dm_collector_c/dm_collector_c.cpp:80-82 | two strictly increasing sequences with the same values are equal, so sort plus unique has one possible result |
| `TypeIds.SortedSetCharacterized` | dm_collector_c/dm_collector_c.cpp:80-82 | any strictly increasing sequence with the values of s is SortedSet(s) |
| `TypeIds.Unique` | dm_collector_c/dm_collector_c.cpp:81 | std::unique never lengthens the sequence and keeps its last value |
| `TypeIds.Keep` | dm_collector_c/dm_collector_c.cpp:81 | definition: one step of std::unique, which appends the next value unless it equals the last value kept |
| `TypeIds.UniqueNeighboursDiffer` | dm_collector_c/dm_collector_c.cpp:81 | std::unique leaves no two equal neighbours, whatever the input |
| `TypeIds.UniqueOfDistinctNeighbours` | dm_collector_c/dm_collector_c.cpp:81 | a sequence without equal neighbours is left unchanged by std::unique |
| `TypeIds.UniqueIdempotent` | dm_collector_c/dm_collector_c.cpp:81 | applying std::unique twice gives the same as applying it once |
| `TypeIds.UniqueOfSorted` | dm_collector_c/dm_collector_c.cpp:80-82 | std::unique on sorted ids gives a strictly increasing sequence with the same values |
| `TypeIds.FlattenAppend` | dm_collector_c/dm_collector_c.cpp:89-90 | pushing a bucket appends its ids to the concatenation of the buckets |
| `TypeIds.FlattenMembership` | dm_collector_c/dm_collector_c.cpp:84-98 | an id is in the concatenated buckets exactly when it is in one of them |
| `TypeIds.RunLength` | dm_collector_c/dm_collector_c.cpp:87-94 | the first run is non-empty, uniform in equipment id, and followed by an id of another equipment id |
| `TypeIds.Runs` | dm_collector_c/dm_collector_c.cpp:84-98 | definition: the reference buckets, cut after each maximal equipment run; RunsAreMaximal and MaximalRunsUnique prove its properties |
| `TypeIds.RunsAreMaximal` | dm_collector_c/dm_collector_c.cpp:84-98 | the reference buckets are non-empty, uniform, differ at every boundary, and concatenate to the input |
| `TypeIds.MaximalRunsUnique` | dm_collector_c/dm_collector_c.cpp:84-98 | any split with those properties is the reference split, so the buckets are determined by the ids |
| `Bucketing.SwapDown` | dm_collector_c/dm_collector_c.cpp:80 | one step of the in-place sort swaps two neighbours and keeps the multiset of ids |
| `Bucketing.SortInPlace` | dm_collector_c/dm_collector_c.cpp:80 | the array ends sorted and a permutation of its old contents |
| `Bucketing.UniqueInPlace` | dm_collector_c/dm_collector_c.cpp:81-82 | after compaction and resize the kept prefix is exactly Unique of the old contents |
| `Bucketing.CompactStep` | dm_collector_c/dm_collector_c.cpp:81-82 | one turn of the compaction loop writes the next value after the kept prefix exactly when it differs from the last kept value, and the kept prefix stays Unique of the values read |
| `Bucketing.CloseBucket` | dm_collector_c/dm_collector_c.cpp:88-97 | pushing the slice type_ids[i..j] keeps the buckets a maximal-run split of the processed prefix |
| `Bucketing.SplitRuns` | dm_collector_c/dm_collector_c.cpp:84-98 | the loop's buckets are non-empty, uniform, differ at every boundary, and concatenate to the ids; empty ids give no bucket |
| `Bucketing.SortTypeIds` | dm_collector_c/dm_collector_c.cpp:78-100 | type_ids becomes strictly increasing with the same values, and out_vectors becomes its maximal equipment runs |
| `LogConfig.Resolve` | dm_collector_c/dm_collector_c.cpp:172-189 | definition: the ids of the string items concatenated in order, or None at the first string that find_ids resolves to nothing; ResolveFailsIff and ResolveIgnoresNonStrings prove its properties |
| `LogConfig.ResolveFailsIff` | dm_collector_c/dm_collector_c.cpp:172-189 | resolving the names fails exactly when some string item resolves to no id |
| `LogConfig.Strings` | dm_collector_c/dm_collector_c.cpp:174-186 | the filtered items are all strings |
| `LogConfig.ResolveIgnoresNonStrings` | dm_collector_c/dm_collector_c.cpp:184-186 | non-string items are skipped: resolving only the strings gives the same result |
| `LogConfig.FirstUnencodable` | dm_collector_c/dm_collector_c.cpp:221-232 | every command before the index encodes, and the command at the index does not |
| `LogConfig.SendAll` | dm_collector_c/dm_collector_c.cpp:221-232 | what is sent is a prefix of the batch with non-empty encodings, all of it exactly on success, and on failure the next command is the one that failed to encode |
| `LogConfig.SendAllAfterPrefix` | dm_collector_c/dm_collector_c.cpp:198-232 | after the debug commands are sent, the batch goes on as the SET_MASK batch alone |
| `LogConfig.SendAllStopsInPrefix` | dm_collector_c/dm_collector_c.cpp:201-216 | a debug command that fails to encode ends the batch before any SET_MASK |
| `LogConfig.FirstIndex` | dm_collector_c/dm_collector_c.cpp:192-197 | the search stops at the first occurrence of the debug id |
| `LogConfig.EraseFirst` | dm_collector_c/dm_collector_c.cpp:200 | definition: vector::erase at the first occurrence of the id; EraseFirstRemovesOne proves what it removes |
| `LogConfig.Remaining` | dm_collector_c/dm_collector_c.cpp:192-200 | definition: the resolved ids with the first Modem_debug_message erased, or unchanged when it is absent |
| `LogConfig.EraseFirstRemovesOne` | dm_collector_c/dm_collector_c.cpp:198-200 | the erase removes exactly one copy of the debug id, so the id survives exactly when it occurred twice or more |
| `LogConfig.UnknownNameSendsNothing` | dm_collector_c/dm_collector_c.cpp:172-189 | the wrong-type-name error happens exactly when some name is unknown, and then nothing is sent |
| `LogConfig.DebugCommands` | dm_collector_c/dm_collector_c.cpp:198-218 | definition: DEBUG_LTE_ML1 then DEBUG_WCDMA_L1, both carrying the remaining ids, when the debug id was resolved; none otherwise |
| `LogConfig.EnableCommands` | dm_collector_c/dm_collector_c.cpp:198-232 | definition: the debug commands followed by one SET_MASK per bucket of the remaining ids, the batch as it would be sent if every encoding succeeded |
| `LogConfig.EnablePlan` | dm_collector_c/dm_collector_c.cpp:165-235 | definition: the wrong-type-name error with nothing sent when resolution fails, otherwise SendAll of EnableCommands; UnknownNameSendsNothing, DebugCommandsLead and EnableNeverDisables prove its properties |
| `LogConfig.DiagCfgPlan` | dm_collector_c/dm_collector_c.cpp:299-311 | definition: nothing and EncodeFailed when DISABLE does not encode, otherwise DISABLE followed by EnablePlan; DiagCfgStartsWithDisable and DiagCfgUnknownNameAfterDisable prove its properties |
| `LogConfig.DebugCommandsLead` | dm_collector_c/dm_collector_c.cpp:191-221 | with the debug id, DEBUG_LTE_ML1 and then DEBUG_WCDMA_L1 with the erased ids come before every SET_MASK; without it only SET_MASK commands are planned |
| `LogConfig.SetMaskCommandsGroupByEquipment` | dm_collector_c/dm_collector_c.cpp:220-232 | one SET_MASK per bucket, in order; each carries non-empty, strictly increasing ids of one equipment id, neighbours differ, and together they carry the sorted remaining ids |
| `LogConfig.SetMasksOfRuns` | dm_collector_c/dm_collector_c.cpp:220-232 | SET_MASK commands built from the maximal equipment runs of strictly increasing ids are uniform, strictly increasing, differ at every boundary and carry exactly those ids |
| `TypeIds.BucketIsSlice` | dm_collector_c/dm_collector_c.cpp:89-90 | each bucket is the contiguous slice of the ids after the buckets before it |
| `LogConfig.DebugIdInSetMaskIff` | dm_collector_c/dm_collector_c.cpp:198-221 | the debug id appears in a SET_MASK exactly when it was resolved at least twice |
| `LogConfig.EnableNeverDisables` | dm_collector_c/dm_collector_c.cpp:165-235 | generate_log_config_msgs never sends a DISABLE command |
| `LogConfig.DiagCfgStartsWithDisable` | dm_collector_c/dm_collector_c.cpp:299-311 | the diag config starts with DISABLE and empty ids, sends nothing if DISABLE does not encode, and never sends DISABLE again |
| `LogConfig.DiagCfgUnknownNameAfterDisable` | dm_collector_c/dm_collector_c.cpp:299-311 | an unknown name in a diag config leaves exactly DISABLE written and fails with the wrong-type-name error |
| `Collector.Sink.SendMsg` | dm_collector_c/dm_collector_c.cpp:113-121 | send_msg appends the command to what the sink has received, and always succeeds |
| `Collector.EncodeAndSend` | dm_collector_c/dm_collector_c.cpp:224-231 | a command is sent exactly when its encoding is non-empty |
| `Collector.ResolveNames` | dm_collector_c/dm_collector_c.cpp:172-189 | the loop collects the ids of the string items in order, or stops at the first unknown name |
| `Collector.FindFirst` | dm_collector_c/dm_collector_c.cpp:192-197 | the search finds the first occurrence of the debug id, or ends at the end exactly when it is absent |
| `Collector.SendDebugCommands` | dm_collector_c/dm_collector_c.cpp:198-218 | the debug branch leaves the erased ids and sends the planned debug commands up to the first encode failure |
| `Collector.BucketIds` | dm_collector_c/dm_collector_c.cpp:221 | the buckets sort_type_ids produces for the remaining ids are Buckets of them, the maximal equipment runs of their sorted set |
| `Collector.SendSetMasks` | dm_collector_c/dm_collector_c.cpp:221-232 | the last loop sends the SET_MASK batch up to the first encode failure |
| `Collector.GenerateLogConfigMsgs` | dm_collector_c/dm_collector_c.cpp:165-235 | the sink receives exactly EnablePlan's commands, and the outcome is EnablePlan's |
| `Collector.EnableLogs` | dm_collector_c/dm_collector_c.cpp:260-266 | enable_logs sends and reports what generate_log_config_msgs does |
| `Collector.DisableLogs` | dm_collector_c/dm_collector_c.cpp:147-155 | disable_logs sends DISABLE with empty ids and returns true, or sends nothing and returns false when it does not encode |
| `Collector.GenerateDiagCfg` | dm_collector_c/dm_collector_c.cpp:299-314 | the file receives exactly DiagCfgPlan's commands, and the outcome is DiagCfgPlan's |
| `Receive.DebugRecord` | dm_collector_c/dm_collector_c.cpp:380-391 | the decoded buffer has size+14 bytes: byte 2 is (size+14) mod 256, bytes 4-5 are 0xeb 0x1f, the other header bytes are 0, and the frame follows |
| `Receive.DebugRecordHeaderFields` | dm_collector_c/dm_collector_c.cpp:380-386 | the header's type field is Modem_debug_message, and its length field is the record length mod 256, exact only below 242 frame bytes |
| `Receive.ReceiveLogPacket` | dm_collector_c/dm_collector_c.cpp:359-408 | a packet is decoded exactly when a frame arrived with a correct CRC and is a log or a debug packet; otherwise the result is None |
| `Receive.LogPacketSkipsTwoBytes` | dm_collector_c/dm_collector_c.cpp:364-368 | a log packet is decoded from the frame minus its first two bytes, size-2 bytes long |
| `Receive.DebugPacketGetsHeader` | dm_collector_c/dm_collector_c.cpp:378-391 | a debug packet is decoded from the synthesised header followed by the whole frame, size+14 bytes long |

## Left out

- HDLC framing, deframing, CRC and escaping (`encode_hdlc_frame`,
  `feed_binary`, `get_next_frame`). That code is not part of this model. A
  frame arrives as a `FrameRead` value, and a sink records commands, not
  framed bytes.
- The payload decoders, the type-name catalog, equipment-id derivation and
  the log-config byte encoding (`decode_log_packet`, `find_ids`,
  `get_equip_id`, `encode_log_config`, `LogPacketTypeID_To_Name`). These are
  foreign calls and appear only as parameters.
- `include_timestamp` and `get_posix_timestamp`: they read the wall clock and
  use floating point. The only effect is to pair the decoded value with that
  reading.
- Python C-API plumbing: argument parsing, reference counting, the
  `goto`-based cleanup, the `check_file`/`check_serial_port` attribute checks
  and the TypeErrors they raise, the error strings set with `PyErr_SetString`
  (kept only as the `Error` kind), and the result of the `write` call, which
  `send_msg` ignores.
- Module initialisation, the tuple of type names and the version string.
- Receive.ReceiveLogPacket: requires `is_log_packet` to accept only frames of
  at least two bytes, because the code computes `frame.size() - 2` on an
  unsigned size.
- Bucketing.SortInPlace: `std::sort` is modelled by an insertion sort. Only
  the result is promised: sorted, and a permutation of the input.
- Collector.GenerateLogConfigMsgs: the remaining ids are copied into a fresh
  array before they are sorted, whereas the code sorts `type_ids` itself. The
  vector is not read afterwards, so nothing observable changes.
- Ids are unbounded integers, and `int`/`size_t` widths are not modelled,
  except the `(char)` truncation of the debug length byte.
