/** The router: which codec a received buffer belongs to, recognised without the codecs' own code. */
module Detect {
  import opened Common
  import opened Bytes
  import opened Wire
  import WireV1
  import WireV2
  import WireV3

  const V4_VERSION: u32 := 0x0004_0000
  const V4_BODY_FIXED: nat := 77
  const V4_BODY_MAX: nat := V4_BODY_FIXED + 512

  datatype Kind = Unknown | V1Legacy | V2Form1 | V3Form1 | V4Form1

  datatype Route = Route(kind: Kind, version: u32, form: byte, expectedSize: nat, exactSize: bool, byPrefix: bool)

  const NO_ROUTE := Route(Unknown, 0, 0, 0, false, false)

  predicate HasPrefix(b: seq<byte>, version: u32) {
    |b| >= WireV2.PREFIX_SIZE && ReadU32(b, 0) == MAGIC && ReadU32(b, 4) == version && b[8] == FORM1
  }

  /** The router's own test for the first format, which reads three fields of the packet. */
  method RecogniseV1(little: bool, b: seq<byte>, now: int) returns (ok: bool)
    ensures ok <==> WireV1.DeserializeWire(little, b, now).Packet?
  {
    if |b| < WireV1.PACKET_SIZE {
      return false;
    }
    var version, timestamp, payloadLen := b[0], ReadHost32(little, b, 1), ReadHost16(little, b, 44);
    if version != WireV1.VERSION {
      return false;
    }
    if payloadLen > WireV1.PAYLOAD_MAX {
      return false;
    }
    if timestamp > now + TIMESTAMP_FUZZ || timestamp < now - TIMESTAMP_FUZZ {
      return false;
    }
    return true;
  }

  /** Fills in the routing information and reports success, one branch after another. */
  method Detect(little: bool, b: seq<byte>, now: int) returns (ok: bool, info: Route)
    ensures info == RouteOf(little, b, now)
    ensures ok <==> info.kind != Unknown
    ensures ok ==> info.exactSize && (info.kind != V2Form1 ==> |b| == info.expectedSize)
    ensures !ok ==> info == NO_ROUTE
  {
    info := NO_ROUTE;
    if |b| >= WireV3.HEADER_SIZE {
      var magic, version, form := ReadU32(b, 0), ReadU32(b, 4), b[8];
      if magic == MAGIC && version == V4_VERSION && form == FORM1 {
        var wrapped, cipher := ReadU16(b, 9), ReadU32(b, 23);
        if wrapped > WireV3.CEK_MAX || wrapped == 0 || cipher > V4_BODY_MAX || cipher < V4_BODY_FIXED {
          return false, info;
        }
        var expected := WireV3.HEADER_SIZE + wrapped + cipher + WireV3.TAG_SIZE;
        if |b| != expected {
          return false, info;
        }
        return true, Route(V4Form1, version, form, expected, true, true);
      }
      if magic == MAGIC && version == WireV3.VERSION && form == FORM1 {
        var wrapped, cipher := ReadU16(b, 9), ReadU32(b, 23);
        if wrapped > WireV3.CEK_MAX || wrapped == 0 || cipher > WireV3.BODY_MAX || cipher < WireV3.BODY_FIXED {
          return false, info;
        }
        var expected := WireV3.HEADER_SIZE + wrapped + cipher + WireV3.TAG_SIZE;
        if |b| != expected {
          return false, info;
        }
        return true, Route(V3Form1, version, form, expected, true, true);
      }
    }
    if |b| >= WireV2.PREFIX_SIZE {
      var magic, version, form := ReadU32(b, 0), ReadU32(b, 4), b[8];
      if magic == MAGIC && version == WireV2.VERSION && form == FORM1 {
        return true, Route(V2Form1, version, form, WireV2.PACKET_SIZE, true, true);
      }
    }
    if |b| == WireV1.PACKET_SIZE {
      var legacy := RecogniseV1(little, b, now);
      if legacy {
        return true, Route(V1Legacy, b[0], 0, WireV1.PACKET_SIZE, true, false);
      }
    }
    return false, info;
  }

  /** The same decision in terms of the codecs: what each of them accepts, and the prefix for the second. */
  function RouteOf(little: bool, b: seq<byte>, now: int): (r: Route) {
    if WireV3.DeserializeWire(b).Packet? then Route(V3Form1, WireV3.VERSION, FORM1, |b|, true, true)
    else if V4Frame(b) then Route(V4Form1, V4_VERSION, FORM1, |b|, true, true)
    else if HasPrefix(b, WireV2.VERSION) then Route(V2Form1, WireV2.VERSION, FORM1, WireV2.PACKET_SIZE, true, true)
    else if |b| == WireV1.PACKET_SIZE && WireV1.DeserializeWire(little, b, now).Packet? then
      Route(V1Legacy, 1, 0, WireV1.PACKET_SIZE, true, false)
    else NO_ROUTE
  }

  /** The route from the bytes alone: prefix, lengths and size; version, length and timestamp for the first format. */
  lemma RoutesExactly(little: bool, b: seq<byte>, now: int)
    ensures var prefix := |b| >= 9 && ReadU32(b, 0) == 0x534C_504B && b[8] == 1;
            var version := if |b| >= 9 then ReadU32(b, 4) else 0;
            var wrapped, cipher := if |b| >= 27 then ReadU16(b, 9) else 0, if |b| >= 27 then ReadU32(b, 23) else 0;
            var sized := |b| >= 27 && 1 <= wrapped <= 256 && |b| == 27 + wrapped + cipher + 16;
            RouteOf(little, b, now) ==
            if prefix && version == 0x4_0000 && sized && 77 <= cipher <= 589 then
              Route(V4Form1, version, b[8], |b|, true, true)
            else if prefix && version == 0x3_0000 && sized && 47 <= cipher <= 559 then
              Route(V3Form1, version, b[8], |b|, true, true)
            else if prefix && version == 0x2_0000 then Route(V2Form1, version, b[8], 245, true, true)
            else if |b| == 245 && b[0] == 1 && ReadHost16(little, b, 44) <= 199
                    && now - 300 <= ReadHost32(little, b, 1) <= now + 300 then
              Route(V1Legacy, 1, 0, 245, true, false)
            else Route(Unknown, 0, 0, 0, false, false)
  {
    WireV3.RefusesExactly(b);
    WireV1.RefusesExactly(little, b, now);
  }

  /** The outer layout of the fourth format, the part of it the router reads. */
  predicate V4Frame(b: seq<byte>) {
    && |b| >= WireV3.HEADER_SIZE && HasPrefix(b, V4_VERSION)
    && 0 < ReadU16(b, 9) <= WireV3.CEK_MAX && V4_BODY_FIXED <= ReadU32(b, 23) <= V4_BODY_MAX
    && |b| == WireV3.HEADER_SIZE + ReadU16(b, 9) + ReadU32(b, 23) + WireV3.TAG_SIZE
  }

  /** No buffer starts both with the magic and with a version-one byte. */
  lemma MagicIsNotVersionOne(b: seq<byte>)
    requires |b| >= 4 && ReadU32(b, 0) == MAGIC
    ensures b[0] == 0x53
  {
    WriteRead32(b, 0);
    assert b[0] == b[0..4][0];
  }

  /** The router and the codecs agree on every buffer. */
  lemma AgreesWithCodecs(little: bool, b: seq<byte>, now: int)
    ensures RouteOf(little, b, now).kind == V3Form1 <==> WireV3.DeserializeWire(b).Packet?
    ensures WireV2.DeserializeWire(b, now).Packet? <==>
            && RouteOf(little, b, now).kind == V2Form1 && |b| == WireV2.PACKET_SIZE
            && ReadU16(b, 52) <= WireV2.PAYLOAD_MAX && Timely(ReadU32(b, 9), now)
    ensures |b| == WireV1.PACKET_SIZE ==>
              (WireV1.DeserializeWire(little, b, now).Packet? <==> RouteOf(little, b, now).kind == V1Legacy)
  {
    if HasPrefix(b, ReadVersion(b)) {
      MagicIsNotVersionOne(b);
    }
  }

  function ReadVersion(b: seq<byte>): (r: u32) {
    if |b| < 8 then 0 else ReadU32(b, 4)
  }

  /** At most one codec accepts a given buffer. */
  lemma AtMostOneCodec(little: bool, b: seq<byte>, now: int)
    ensures !(WireV3.DeserializeWire(b).Packet? && WireV2.DeserializeWire(b, now).Packet?)
    ensures !(WireV3.DeserializeWire(b).Packet? && WireV1.DeserializeWire(little, b, now).Packet?)
    ensures !(WireV2.DeserializeWire(b, now).Packet? && WireV1.DeserializeWire(little, b, now).Packet?)
    ensures WireV3.DeserializeWire(b).Packet? || WireV2.DeserializeWire(b, now).Packet? ==> !V4Frame(b)
  {
    if |b| >= 4 && ReadU32(b, 0) == MAGIC {
      MagicIsNotVersionOne(b);
    }
  }

  /** A packed packet of any format is routed to its own codec. */
  lemma PackedIsRouted(little: bool, p1: WireV1.V1Packet, p2: WireV2.V2Packet, p3: WireV3.V3Packet, now: int)
    requires WireV1.Shaped(p1) && WireV1.ValidateWire(p1, now) == OK
    requires WireV2.Packable(p2) && WireV2.ValidateWire(p2, now) == OK
    requires WireV3.Packable(p3) && WireV3.ValidateWire(p3) == OK
    ensures RouteOf(little, WireV1.Image(little, p1), now).kind == V1Legacy
    ensures RouteOf(little, WireV2.WireBytes(p2), now).kind == V2Form1
    ensures RouteOf(little, WireV3.WireBytes(p3), now).kind == V3Form1
  {
    FirstIsRouted(little, p1, now);
    SecondIsRouted(little, p2, now);
    ThirdIsRouted(little, p3, now);
  }

  lemma FirstIsRouted(little: bool, p: WireV1.V1Packet, now: int)
    requires WireV1.Shaped(p) && WireV1.ValidateWire(p, now) == OK
    ensures RouteOf(little, WireV1.Image(little, p), now).kind == V1Legacy
  {
    hide RouteOf;
    var b := WireV1.Image(little, p);
    WireV1.ImageInverts(little, p, []);
    assert b + [] == b;
    AgreesWithCodecs(little, b, now);
  }

  lemma SecondIsRouted(little: bool, p: WireV2.V2Packet, now: int)
    requires WireV2.Packable(p) && WireV2.ValidateWire(p, now) == OK
    ensures RouteOf(little, WireV2.WireBytes(p), now).kind == V2Form1
  {
    hide RouteOf;
    WireV2.UnpackInvertsPack(p);
    AgreesWithCodecs(little, WireV2.WireBytes(p), now);
  }

  lemma ThirdIsRouted(little: bool, p: WireV3.V3Packet, now: int)
    requires WireV3.Packable(p) && WireV3.ValidateWire(p) == OK
    ensures RouteOf(little, WireV3.WireBytes(p), now).kind == V3Form1
  {
    hide RouteOf;
    WireV3.UnpackInvertsPack(p);
    AgreesWithCodecs(little, WireV3.WireBytes(p), now);
  }
}
