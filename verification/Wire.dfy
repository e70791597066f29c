/** What the packet formats share: return codes, the routing prefix and the codec-neutral unit. */
module Wire {
  import opened Common

  /** SL_PAYLOAD_* */
  const OK := 0
  const ERR_UNPACK := -2
  const ERR_VALIDATE := -3
  const ERR_OVERFLOW := -4

  datatype Unpacked<+P> = Packet(packet: P) | Rejected(code: int)

  const MAGIC: u32 := 0x534C_504B
  const FORM1: byte := 1
  const TIMESTAMP_FUZZ := 300

  /** The timestamp check of the plaintext formats; the clock is wider than the timestamp. */
  predicate Timely(timestamp: u32, now: int) {
    now - TIMESTAMP_FUZZ <= timestamp <= now + TIMESTAMP_FUZZ
  }

  const IP_SIZE: nat := 64

  /** A decoded message, with exactly the payload bytes in use. */
  datatype NormalizedUnit = NormalizedUnit(
    complete: bool,
    wireVersion: u32,
    wireForm: byte,
    fragmentCount: u32,
    timestamp: u32,
    userId: u16,
    actionId: byte,
    challenge: u32,
    hmac: seq<byte>,
    ip: string,
    clientPort: u16,
    encrypted: bool,
    wireDecode: bool,
    wireAuth: bool,
    payload: seq<byte>)

  predicate IsDigest(h: seq<byte>) {
    |h| == 32
  }

  /** The unit left by zeroing: what a caller sees when a decoder reports success without filling it in. */
  const ZERO_UNIT := NormalizedUnit(false, 0, 0, 0, 0, 0, 0, 0, Zeros(32), "", 0, false, false, false, [])

  /** The fields a packet carries from sender to receiver. */
  predicate SameMessage(a: NormalizedUnit, b: NormalizedUnit) {
    && a.timestamp == b.timestamp && a.userId == b.userId && a.actionId == b.actionId
    && a.challenge == b.challenge && a.payload == b.payload
  }

  /** A fixed-size field holding `s` in front and zeros behind. */
  function Field(s: seq<byte>, size: nat): (f: seq<byte>)
    requires |s| <= size
    ensures |f| == size && f[..|s|] == s
  {
    s + Zeros(size - |s|)
  }
}
