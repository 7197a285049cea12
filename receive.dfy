/**
 * receive_log_packet: classify the next deframed message and hand the right
 * bytes to the log-packet decoder.  A raw debug message has no log header, so
 * one is synthesised from a fixed 14-byte template.  Deframing, the CRC check
 * and the decoders are not part of this model: the frame arrives as a value and
 * is_log_packet, is_debug_packet and decode_log_packet are parameters.
 */
module Receive {
  import opened Wrappers
  import TypeIds
  import opened Bytes

  /** What get_next_frame yields: nothing, or a frame with its CRC verdict. */
  datatype FrameRead = NoFrame | Frame(bytes: seq<Byte>, crcCorrect: bool)

  /** The constant header put in front of a raw debug message: a zero length,
      the type id bytes 0xeb 0x1f and a zero timestamp. */
  const DebugHeaderTemplate: seq<Byte> :=
    [0x00, 0x00,
     0x00, 0x00, 0xeb, 0x1f,
     0x00, 0x00, 0x00, 0x00,
     0x00, 0x00, 0x00, 0x00]

  /** The template with byte 2 set to the total length truncated to a char. */
  function DebugHeader(size: nat): seq<Byte> {
    DebugHeaderTemplate[2 := ((size + 14) % 256) as Byte]
  }

  /** The buffer handed to the decoder for a debug message of the given bytes. */
  function DebugRecord(frame: seq<Byte>): (r: seq<Byte>)
    ensures |r| == |frame| + 14
    ensures r[14..] == frame
    ensures r[2] as int == (|frame| + 14) % 256
    ensures r[4] == 0xeb && r[5] == 0x1f
    ensures forall t :: 0 <= t < 14 && t != 2 && t != 4 && t != 5 ==> r[t] == 0
  {
    DebugHeaderBytes(|frame|);
    DebugHeader(|frame|) + frame
  }

  /** The header written out byte by byte. */
  lemma DebugHeaderBytes(size: nat)
    ensures var len := ((size + 14) % 256) as Byte;
      DebugHeader(size) == [0, 0, len, 0, 0xeb, 0x1f, 0, 0, 0, 0, 0, 0, 0, 0]
  {
  }

  /** A 16-bit little-endian field. */
  function U16(lo: Byte, hi: Byte): nat {
    lo as nat + 256 * hi as nat
  }

  /** The type field of the synthesised header (bytes 4-5) is the debug
      message id, and its length field (bytes 2-3) is the record's length
      truncated to one byte: it equals the real length exactly when the frame
      is shorter than 242 bytes. */
  lemma DebugRecordHeaderFields(frame: seq<Byte>)
    ensures var r := DebugRecord(frame);
      && U16(r[4], r[5]) == TypeIds.ModemDebugMessage
      && U16(r[2], r[3]) == |r| % 256
      && (U16(r[2], r[3]) == |r| <==> |frame| < 242)
  {
  }

  /** receive_log_packet without its timestamp: decode(buffer, skip) stands
      for decode_log_packet(buffer, |buffer|, skip). */
  function ReceiveLogPacket<D>(
    read: FrameRead,
    skipDecoding: bool,
    isLogPacket: seq<Byte> -> bool,
    isDebugPacket: seq<Byte> -> bool,
    decode: (seq<Byte>, bool) -> D): (r: Option<D>)
    requires forall f :: isLogPacket(f) ==> |f| >= 2
    ensures r.Some? <==>
      read.Frame? && read.crcCorrect && (isLogPacket(read.bytes) || isDebugPacket(read.bytes))
  {
    match read
    case NoFrame => None
    case Frame(frame, crcCorrect) =>
      if !crcCorrect then None
      else if isLogPacket(frame) then Some(decode(frame[2..], skipDecoding))
      else if isDebugPacket(frame) then Some(decode(DebugRecord(frame), skipDecoding))
      else None
  }

  /** A log packet is decoded from the frame without its first two bytes. */
  lemma LogPacketSkipsTwoBytes<D>(
    frame: seq<Byte>, skipDecoding: bool,
    isLogPacket: seq<Byte> -> bool, isDebugPacket: seq<Byte> -> bool,
    decode: (seq<Byte>, bool) -> D)
    requires forall f :: isLogPacket(f) ==> |f| >= 2
    requires isLogPacket(frame)
    ensures exists payload ::
      && ReceiveLogPacket(Frame(frame, true), skipDecoding, isLogPacket, isDebugPacket, decode)
         == Some(decode(payload, skipDecoding))
      && |payload| == |frame| - 2
      && frame == frame[..2] + payload
  {
    assert frame == frame[..2] + frame[2..];
  }

  /** A debug packet that is not a log packet is decoded from the 14-byte
      header followed by the whole frame. */
  lemma DebugPacketGetsHeader<D>(
    frame: seq<Byte>, skipDecoding: bool,
    isLogPacket: seq<Byte> -> bool, isDebugPacket: seq<Byte> -> bool,
    decode: (seq<Byte>, bool) -> D)
    requires forall f :: isLogPacket(f) ==> |f| >= 2
    requires !isLogPacket(frame) && isDebugPacket(frame)
    ensures exists record ::
      && ReceiveLogPacket(Frame(frame, true), skipDecoding, isLogPacket, isDebugPacket, decode)
         == Some(decode(record, skipDecoding))
      && |record| == |frame| + 14
      && record[..14] == DebugHeader(|frame|)
      && record[14..] == frame
  {
    var record := DebugRecord(frame);
    assert record[..14] == DebugHeader(|frame|);
  }
}
