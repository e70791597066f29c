/**
 * The first packet format: a packed structure copied byte for byte, so its integers are in the order
 * of the host. The host's order is a parameter.
 */
module WireV1 {
  import opened Common
  import opened Bytes
  import opened Wire

  const VERSION: byte := 1
  const PAYLOAD_AT: nat := 46
  const PAYLOAD_MAX: nat := 199
  const PACKET_SIZE: nat := PAYLOAD_AT + PAYLOAD_MAX

  datatype V1Packet = V1Packet(
    version: byte,
    timestamp: u32,
    userId: u16,
    actionId: byte,
    challenge: u32,
    hmac: seq<byte>,
    payloadLen: u16,
    payload: seq<byte>)

  predicate Shaped(p: V1Packet) {
    IsDigest(p.hmac) && |p.payload| == PAYLOAD_MAX
  }

  /** The memory image of a packet. */
  function Image(little: bool, p: V1Packet): (b: seq<byte>)
    requires Shaped(p)
    ensures |b| == PACKET_SIZE
  {
    [p.version] + HostU32Bytes(little, p.timestamp) + HostU16Bytes(little, p.userId) + [p.actionId]
    + HostU32Bytes(little, p.challenge) + p.hmac + HostU16Bytes(little, p.payloadLen) + p.payload
  }

  function OfImage(little: bool, b: seq<byte>): (p: V1Packet)
    requires |b| >= PACKET_SIZE
    ensures Shaped(p)
  {
    V1Packet(b[0], ReadHost32(little, b, 1), ReadHost16(little, b, 5), b[7], ReadHost32(little, b, 8), b[12..44],
             ReadHost16(little, b, 44), b[PAYLOAD_AT..PACKET_SIZE])
  }

  /** Where each field lies. */
  lemma Layout(little: bool, p: V1Packet)
    requires Shaped(p)
    ensures var b := Image(little, p);
            && b[0] == p.version && b[1..5] == HostU32Bytes(little, p.timestamp)
            && b[5..7] == HostU16Bytes(little, p.userId) && b[7] == p.actionId
            && b[8..12] == HostU32Bytes(little, p.challenge) && b[12..44] == p.hmac
            && b[44..46] == HostU16Bytes(little, p.payloadLen) && b[46..245] == p.payload
  {
  }

  /** Reading back the image of a packet, whatever follows it. */
  lemma ImageInverts(little: bool, p: V1Packet, rest: seq<byte>)
    requires Shaped(p)
    ensures OfImage(little, Image(little, p) + rest) == p
  {
    var b := Image(little, p) + rest;
    Layout(little, p);
    assert b[1..5] == HostU32Bytes(little, p.timestamp);
    assert b[5..7] == HostU16Bytes(little, p.userId);
    assert b[8..12] == HostU32Bytes(little, p.challenge);
    assert b[12..44] == p.hmac;
    assert b[44..46] == HostU16Bytes(little, p.payloadLen);
    assert b[PAYLOAD_AT..PACKET_SIZE] == p.payload;
    ReadWrittenHost32(little, b, 1, p.timestamp);
    ReadWrittenHost16(little, b, 5, p.userId);
    ReadWrittenHost32(little, b, 8, p.challenge);
    ReadWrittenHost16(little, b, 44, p.payloadLen);
  }

  /** Every 245-byte buffer is the image of the packet read from it. */
  lemma ImageOnto(little: bool, b: seq<byte>)
    requires |b| == PACKET_SIZE
    ensures Image(little, OfImage(little, b)) == b
  {
    hide HostU32Bytes, HostU16Bytes, ReadHost32, ReadHost16;
    WriteReadHost32(little, b, 1);
    WriteReadHost16(little, b, 5);
    WriteReadHost32(little, b, 8);
    WriteReadHost16(little, b, 44);
    assert b == [b[0]] + b[1..5] + b[5..7] + [b[7]] + b[8..12] + b[12..44] + b[44..46] + b[46..];
  }

  function UnpackWire(little: bool, b: seq<byte>): (r: Unpacked<V1Packet>) {
    if |b| < PACKET_SIZE then Rejected(ERR_UNPACK) else Packet(OfImage(little, b))
  }

  function ValidateWire(p: V1Packet, now: int): (r: int) {
    if p.version != VERSION then ERR_VALIDATE
    else if p.payloadLen > PAYLOAD_MAX then ERR_OVERFLOW
    else if !Timely(p.timestamp, now) then ERR_VALIDATE
    else OK
  }

  function DeserializeWire(little: bool, b: seq<byte>, now: int): (r: Unpacked<V1Packet>) {
    var r := UnpackWire(little, b);
    if r.Packet? && ValidateWire(r.packet, now) != OK then Rejected(ValidateWire(r.packet, now)) else r
  }

  /** Exactly which buffers are refused, and with which code. */
  lemma RefusesExactly(little: bool, b: seq<byte>, now: int)
    ensures var r := DeserializeWire(little, b, now);
            && (r == Rejected(-2) <==> |b| < 245)
            && (|b| >= 245 ==>
                  var version, timestamp, length := b[0], ReadHost32(little, b, 1), ReadHost16(little, b, 44);
                  && (r == Rejected(-4) <==> version == 1 && length > 199)
                  && (r.Packet? <==> version == 1 && length <= 199 && now - 300 <= timestamp <= now + 300)
                  && (r.Rejected? ==> r.code == -3 || r.code == -4))
  {
  }

  /** The packet an encoder builds. */
  function PacketOf(u: NormalizedUnit, hmac: seq<byte>): (p: V1Packet)
    requires |u.payload| <= PAYLOAD_MAX && IsDigest(hmac)
    ensures Shaped(p)
  {
    V1Packet(VERSION, u.timestamp, u.userId, u.actionId, u.challenge, hmac, |u.payload|, Field(u.payload, PAYLOAD_MAX))
  }

  function Normalize(little: bool, b: seq<byte>, ip: string, port: u16, encrypted: bool, now: int)
    : (r: Unpacked<NormalizedUnit>)
  {
    var r := DeserializeWire(little, b, now);
    if r.Rejected? then Rejected(r.code)
    else
      var p := r.packet;
      Packet(NormalizedUnit(true, 1, 0, 1, p.timestamp, p.userId, p.actionId, p.challenge, p.hmac,
                            Clip(ip, IP_SIZE), port, encrypted, false, false, p.payload[..p.payloadLen]))
  }

  /** An encoded unit is normalised to the same message exactly while its timestamp is in the window. */
  lemma DeliversIffTimely(little: bool, u: NormalizedUnit, hmac: seq<byte>, rest: seq<byte>,
                          ip: string, port: u16, encrypted: bool, now: int)
    requires |u.payload| <= PAYLOAD_MAX && IsDigest(hmac)
    ensures var r := Normalize(little, Image(little, PacketOf(u, hmac)) + rest, ip, port, encrypted, now);
            && (r.Packet? <==> now - 300 <= u.timestamp <= now + 300)
            && (r.Packet? ==>
                  r.packet == NormalizedUnit(true, 1, 0, 1, u.timestamp, u.userId, u.actionId, u.challenge, hmac,
                                             Clip(ip, 64), port, encrypted, false, false, u.payload))
            && (r.Rejected? ==> r.code == ERR_VALIDATE)
  {
    var p := PacketOf(u, hmac);
    ImageInverts(little, p, rest);
    assert p.payload[..p.payloadLen] == u.payload;
  }
}
