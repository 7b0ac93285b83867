/**
 * The Dallas/Maxim 1-Wire CRC-8 (reflected polynomial 0x8C, initial value 0,
 * no final XOR), as the host tool computes it over a ROM code.
 */
module Checksum {

  /** One shift of the reflected LFSR. */
  function Shift1(c: bv8): bv8 {
    if c & 1 == 1 then (c >> 1) ^ 0x8C else c >> 1
  }

  /** `n` shifts in a row. */
  function ShiftN(c: bv8, n: nat): bv8 {
    if n == 0 then c else Shift1(ShiftN(c, n - 1))
  }

  /** The eight shifts applied after each byte is XORed in. */
  function Shift8(c: bv8): bv8 {
    ShiftN(c, 8)
  }

  /** CRC-8 of `data`, byte by byte from the front. */
  function Crc8(data: seq<bv8>): bv8 {
    if data == [] then 0 else Shift8(Crc8(data[..|data| - 1]) ^ data[|data| - 1])
  }

  /** The nested loop of the host tool. */
  method ComputeCrc8Maxim(data: seq<bv8>) returns (crc: bv8)
    ensures crc == Crc8(data)
  {
    crc := 0;
    for i := 0 to |data|
      invariant crc == Crc8(data[..i])
    {
      crc := crc ^ data[i];
      ghost var start := crc;
      for j := 0 to 8
        invariant crc == ShiftN(start, j)
      {
        if crc & 0x01 == 0x01 {
          crc := (crc >> 1) ^ 0x8C;
        } else {
          crc := crc >> 1;
        }
      }
      crc := crc & 0xFF;
      assert data[..i + 1][..i] == data[..i];
    }
    assert data[..|data|] == data;
  }

  lemma Shift8Zero()
    ensures Shift8(0) == 0
  {
  }

  /** The CRC of any run of zero bytes, the empty run included, is 0. */
  lemma {:induction false} Crc8OfZeros(n: nat)
    ensures Crc8(seq(n, _ => 0 as bv8)) == 0
  {
    if n > 0 {
      var z := seq(n, _ => 0 as bv8);
      assert z[..n - 1] == seq(n - 1, _ => 0 as bv8);
      Crc8OfZeros(n - 1);
      Shift8Zero();
    }
  }

  /** Appending its own CRC to a message makes the CRC of the whole 0. */
  lemma Crc8Residue(msg: seq<bv8>)
    ensures Crc8(msg + [Crc8(msg)]) == 0
  {
    assert (msg + [Crc8(msg)])[..|msg|] == msg;
    Shift8Zero();
  }

  lemma Shift1Zero(c: bv8)
    ensures Shift1(c) == 0 ==> c == 0
  {
  }

  lemma {:induction false} ShiftNZero(c: bv8, n: nat)
    ensures ShiftN(c, n) == 0 ==> c == 0
  {
    if n > 0 {
      Shift1Zero(ShiftN(c, n - 1));
      ShiftNZero(c, n - 1);
    }
  }

  /** The eight shifts lose nothing: only 0 shifts to 0. */
  lemma Shift8Injective(x: bv8)
    ensures Shift8(x) == 0 ==> x == 0
  {
    ShiftNZero(x, 8);
  }

  /** Extending a message by one byte costs one XOR and eight shifts. */
  lemma Crc8Snoc(msg: seq<bv8>, b: bv8)
    ensures Crc8(msg + [b]) == Shift8(Crc8(msg) ^ b)
  {
    assert (msg + [b])[..|msg|] == msg;
  }

  /** Checking byte 7 against the CRC of bytes 0..6 is the same as checking that the whole block has CRC 0. */
  lemma {:induction false} CheckByteEquivalence(rom: seq<bv8>)
    requires |rom| == 8
    ensures Crc8(rom[..7]) == rom[7] <==> Crc8(rom) == 0
  {
    assert rom[..|rom| - 1] == rom[..7];
    Shift8Zero();
    Shift8Injective(Crc8(rom[..7]) ^ rom[7]);
  }

  /** Known value: 01 23 45 67 89 AB CD gives 0xE9. */
  lemma KnownVectorCounting()
    ensures Crc8([0x01, 0x23, 0x45, 0x67, 0x89, 0xAB, 0xCD]) == 0xE9
  {
    var data: seq<bv8> := [0x01, 0x23, 0x45, 0x67, 0x89, 0xAB, 0xCD];
    var acc: seq<bv8> := [0x5E, 0x05, 0x46, 0x7D, 0x15, 0x2D, 0xE9];
    assert Shift8(0x01) == 0x5E && Shift8(0x7D) == 0x05 && Shift8(0x40) == 0x46;
    assert Shift8(0x21) == 0x7D && Shift8(0xF4) == 0x15;
    assert Shift8(0xBE) == 0x2D && Shift8(0xE0) == 0xE9;
    forall i | 0 < i < 7 ensures Shift8(acc[i - 1] ^ data[i]) == acc[i] {
    }
    Steps(data, acc);
  }

  /** Seven erased (0xFF) bytes give 0x14, not 0. */
  lemma KnownVectorErased()
    ensures Crc8([0xFF, 0xFF, 0xFF, 0xFF, 0xFF, 0xFF, 0xFF]) == 0x14
  {
    var data: seq<bv8> := [0xFF, 0xFF, 0xFF, 0xFF, 0xFF, 0xFF, 0xFF];
    var acc: seq<bv8> := [0x35, 0xB4, 0x66, 0x8D, 0x44, 0x12, 0x14];
    assert Shift8(0xFF) == 0x35 && Shift8(0xCA) == 0xB4 && Shift8(0x4B) == 0x66;
    assert Shift8(0x99) == 0x8D && Shift8(0x72) == 0x44;
    assert Shift8(0xBB) == 0x12 && Shift8(0xED) == 0x14;
    forall i | 0 < i < 7 ensures Shift8(acc[i - 1] ^ data[i]) == acc[i] {
    }
    Steps(data, acc);
  }

  /** If `acc` lists the running CRC after each byte, its last entry is the CRC. */
  lemma {:induction false} Steps(data: seq<bv8>, acc: seq<bv8>)
    requires |acc| == |data| > 0
    requires Shift8(data[0]) == acc[0]
    requires forall i :: 0 < i < |data| ==> Shift8(acc[i - 1] ^ data[i]) == acc[i]
    ensures Crc8(data) == acc[|acc| - 1]
  {
    if |data| == 1 {
      assert data == [] + [data[0]];
      Crc8Snoc([], data[0]);
    } else {
      var n := |data|;
      Steps(data[..n - 1], acc[..n - 1]);
      assert data == data[..n - 1] + [data[n - 1]];
      Crc8Snoc(data[..n - 1], data[n - 1]);
    }
  }
}
