/**
 * The 1-Wire hub as the emulator sees it: the bytes the master will still
 * write, how many more bytes it will clock out of the slave before it
 * stops (a reset or the end of its read), the bytes sent so far and the
 * slave errors raised. The hub's CRC16 is not modelled: it is a per-byte
 * step function the hub applies to every byte received and sent.
 */
module OneWireBus {

  import opened Uint

  datatype Bus = Bus(rx: seq<uint8>, slots: nat, tx: seq<uint8>, errors: seq<uint8>)

  /** The hub's CRC16 update for one byte. */
  type CrcStep = (uint16, uint8) -> uint16

  /** The CRC16 accumulator after the bytes `bs`, starting from `crc`. */
  function Crc16(step: CrcStep, crc: uint16, bs: seq<uint8>): uint16
    decreases |bs|
  {
    if bs == [] then crc else Crc16(step, step(crc, bs[0]), bs[1..])
  }

  /** The first `n` elements of `s`, or all of it. */
  function Prefix<T>(s: seq<T>, n: nat): (p: seq<T>)
    ensures |p| == if n < |s| then n else |s|
    ensures p <= s
  {
    if n < |s| then s[..n] else s
  }

  /** `send`: fails when the master stops clocking before the last byte; the bytes it did clock went out. */
  function Send(bus: Bus, bs: seq<uint8>): (r: Bus)
    ensures r.rx == bus.rx && r.errors == bus.errors
  {
    if |bs| <= bus.slots then bus.(slots := bus.slots - |bs|, tx := bus.tx + bs)
    else bus.(slots := 0, tx := bus.tx + bs[..bus.slots])
  }

  /** Whether `send` of `n` bytes succeeds. */
  predicate SendOk(bus: Bus, n: nat)
  {
    n <= bus.slots
  }

  /** `recv` of `n` bytes: fails, losing what is left, when the master writes fewer. */
  function Recv(bus: Bus, n: nat): (r: Bus)
    ensures r.tx == bus.tx && r.slots == bus.slots && r.errors == bus.errors
  {
    if n <= |bus.rx| then bus.(rx := bus.rx[n..]) else bus.(rx := [])
  }

  predicate RecvOk(bus: Bus, n: nat)
  {
    n <= |bus.rx|
  }

  function RaiseSlaveError(bus: Bus, code: uint8): (r: Bus)
    ensures r.rx == bus.rx && r.tx == bus.tx && r.slots == bus.slots && r.errors == bus.errors + [code]
  {
    bus.(errors := bus.errors + [code])
  }

  /** `~crc` as the two bytes `sendCrc16Raw` puts on the wire, low byte first. */
  function CrcBytes(crc: uint16): (bs: seq<uint8>)
    ensures |bs| == 2
  {
    var inv := 0xFFFF - crc as int;
    [(inv % 256) as uint8, (inv / 256) as uint8]
  }

  /** A little-endian `uint16_t` made of two received bytes. */
  function LittleEndian(lo: uint8, hi: uint8): nat
  {
    lo as nat + 256 * hi as nat
  }

  // ---------------------------------------------------------------------------
  // Properties

  /** The wire carries the inverted CRC: reading the two bytes back as a little-endian word and inverting it gives the CRC. */
  lemma CrcBytesInvert(crc: uint16)
    ensures 0xFFFF - LittleEndian(CrcBytes(crc)[0], CrcBytes(crc)[1]) == crc as int
  {
  }

  /** Two received bytes form every address below 0x10000 exactly once. */
  lemma LittleEndianRange(lo: uint8, hi: uint8)
    ensures LittleEndian(lo, hi) < 0x1_0000
    ensures LittleEndian(lo, hi) % 256 == lo as int && LittleEndian(lo, hi) / 256 == hi as int
  {
  }

  /** What `send` puts on the wire is the part of `bs` the master still clocks. */
  lemma SendTx(bus: Bus, bs: seq<uint8>)
    ensures Send(bus, bs).tx == bus.tx + Prefix(bs, bus.slots)
    ensures Send(bus, bs).slots == bus.slots - |Prefix(bs, bus.slots)|
    ensures SendOk(bus, |bs|) <==> Prefix(bs, bus.slots) == bs
  {
  }

  /** Sending `a` and then `b` puts on the wire what sending `a + b` at once would. */
  lemma SendConcat(bus: Bus, a: seq<uint8>, b: seq<uint8>)
    ensures Send(Send(bus, a), b) == Send(bus, a + b)
  {
    if |a| + |b| <= bus.slots {
    } else if |a| <= bus.slots {
      assert (a + b)[..bus.slots] == a + b[..bus.slots - |a|];
    } else {
      assert (a + b)[..bus.slots] == a[..bus.slots];
    }
  }

  /** The CRC over two pieces is the CRC over the second, starting from the CRC over the first. */
  lemma {:induction false} Crc16Concat(step: CrcStep, crc: uint16, a: seq<uint8>, b: seq<uint8>)
    ensures Crc16(step, crc, a + b) == Crc16(step, Crc16(step, crc, a), b)
    decreases |a|
  {
    if a != [] {
      assert (a + b)[0] == a[0] && (a + b)[1..] == a[1..] + b;
      assert Crc16(step, crc, a + b) == Crc16(step, step(crc, a[0]), a[1..] + b);
      assert Crc16(step, crc, a) == Crc16(step, step(crc, a[0]), a[1..]);
      Crc16Concat(step, step(crc, a[0]), a[1..], b);
    } else {
      assert a + b == b;
    }
  }
}
