/**
 * `build_prefix`: the file-name prefix `<device>_<tag>_<approval>` taken
 * from the data image. The device number is the ASCII text in bytes
 * 0x07EC-0x07EF (a leading 'G' dropped, fill bytes 0x00/0xFF skipped,
 * unprintable bytes shown as '_'); the approval number is bytes
 * 0x07F2-0x07F5 read big-endian and printed in decimal; the user's tag
 * keeps letters, digits and `-_.` and turns everything else into '_'.
 */
module Prefix {

  import opened Wrappers
  import opened Text

  const DeviceStart := 0x07EC
  const ApprovalStart := 0x07F2
  /** The image must extend past 0x07F5 for either field to be read. */
  const MinLength := 0x07F6

  /** What one device byte contributes: nothing for fill bytes, itself if printable, '_' otherwise. */
  function DeviceChar(b: bv8): Option<char>
  {
    if b == 0x00 || b == 0xFF then None
    else if 32 <= b <= 126 then Some((b as int) as char)
    else Some('_')
  }

  function DeviceChars(bs: seq<bv8>): string
  {
    if bs == [] then ""
    else
      var c := DeviceChar(bs[|bs| - 1]);
      DeviceChars(bs[..|bs| - 1]) + (if c.Some? then [c.value] else [])
  }

  /** The device bytes that count: the last three when the first is 'G', else all four. */
  function RelevantDeviceBytes(data: seq<bv8>): seq<bv8>
    requires |data| >= MinLength
  {
    var raw := data[DeviceStart .. DeviceStart + 4];
    if raw[0] == 0x47 then raw[1..] else raw
  }

  function DevicePart(data: seq<bv8>): string
  {
    if |data| < MinLength then "UNKDEV"
    else
      var d := Strip(DeviceChars(RelevantDeviceBytes(data)));
      if d == "" then "UNKDEV" else d
  }

  function BigEndian32(raw: seq<bv8>): nat
    requires |raw| == 4
  {
    raw[0] as nat * 0x100_0000 + raw[1] as nat * 0x1_0000 + raw[2] as nat * 0x100 + raw[3] as nat
  }

  predicate AllEqual(raw: seq<bv8>, v: bv8) {
    forall i :: 0 <= i < |raw| ==> raw[i] == v
  }

  function ApprovalPart(data: seq<bv8>): string
  {
    if |data| < MinLength then "UNKZUL"
    else
      var raw := data[ApprovalStart .. ApprovalStart + 4];
      if AllEqual(raw, 0xFF) || AllEqual(raw, 0x00) then "UNKZUL" else Decimal(BigEndian32(raw))
  }

  /** The characters a tag keeps: ASCII letters and digits, '-', '_' and '.'. */
  predicate TagChar(c: char) {
    IsAsciiAlnum(c) || c == '-' || c == '_' || c == '.'
  }

  function SafeTag(tag: string): (r: string)
    ensures |r| == |tag|
    ensures forall i :: 0 <= i < |tag| ==> r[i] == if TagChar(tag[i]) then tag[i] else '_'
  {
    if tag == [] then "" else [if TagChar(tag[0]) then tag[0] else '_'] + SafeTag(tag[1..])
  }

  /** The device-byte loop of `build_prefix`. */
  method DecodeDeviceBytes(relevant: seq<bv8>) returns (devChars: string)
    ensures devChars == DeviceChars(relevant)
  {
    devChars := "";
    var i := 0;
    while i < |relevant|
      invariant 0 <= i <= |relevant|
      invariant devChars == DeviceChars(relevant[..i])
    {
      var b := relevant[i];
      assert relevant[..i + 1][..i] == relevant[..i];
      if b == 0x00 || b == 0xFF {
      } else if 32 <= b <= 126 {
        devChars := devChars + [(b as int) as char];
      } else {
        devChars := devChars + "_";
      }
      i := i + 1;
    }
    assert relevant[..i] == relevant;
  }

  /** The device field of `build_prefix` for an image long enough to hold it. */
  method DeviceField(data: seq<bv8>) returns (devAscii: string)
    requires |data| >= MinLength
    ensures devAscii == DevicePart(data)
  {
    var rawDev := data[0x07EC .. 0x07F0];
    var relevant := if rawDev[0] == 0x47 then rawDev[1..4] else rawDev;
    assert relevant == RelevantDeviceBytes(data);
    var devChars := DecodeDeviceBytes(relevant);
    devAscii := Strip(devChars);
    if devAscii == "" {
      devAscii := "UNKDEV";
    }
  }

  /** The approval field of `build_prefix` for an image long enough to hold it. */
  method ApprovalField(data: seq<bv8>) returns (zulStr: string)
    requires |data| >= MinLength
    ensures zulStr == ApprovalPart(data)
  {
    var zulRaw := data[0x07F2 .. 0x07F6];
    if AllEqual(zulRaw, 0xFF) || AllEqual(zulRaw, 0x00) {
      zulStr := "UNKZUL";
    } else {
      var zulVal := (zulRaw[0] as nat) * 0x100_0000 + (zulRaw[1] as nat) * 0x1_0000 + (zulRaw[2] as nat) * 0x100 + zulRaw[3] as nat;
      zulStr := Decimal(zulVal);
    }
  }

  /** `build_prefix`; the warning the source prints for a short image is not modelled. */
  method BuildPrefix(data: seq<bv8>, userTag: string) returns (prefix: string)
    ensures prefix == DevicePart(data) + "_" + SafeTag(userTag) + "_" + ApprovalPart(data)
  {
    var devAscii: string;
    var zulStr: string;
    if |data| <= 0x07F5 {
      devAscii := "UNKDEV";
      zulStr := "UNKZUL";
    } else {
      devAscii := DeviceField(data);
      zulStr := ApprovalField(data);
    }
    var safeTag := SafeTag(userTag);
    prefix := devAscii + "_" + safeTag + "_" + zulStr;
  }

  // ---------------------------------------------------------------------------
  // Properties

  /** A cleaned tag keeps its length, consists only of kept characters, and cleaning it again changes nothing. */
  lemma SafeTagClean(tag: string)
    ensures forall i :: 0 <= i < |SafeTag(tag)| ==> TagChar(SafeTag(tag)[i])
    ensures SafeTag(SafeTag(tag)) == SafeTag(tag)
  {
  }

  /** A tag of kept characters only is used unchanged. */
  lemma SafeTagKeepsCleanTags(tag: string)
    requires forall i :: 0 <= i < |tag| ==> TagChar(tag[i])
    ensures SafeTag(tag) == tag
  {
  }

  /** Every character of the device text is printable ASCII. */
  lemma {:induction false} DeviceCharsPrintable(bs: seq<bv8>)
    ensures forall i :: 0 <= i < |DeviceChars(bs)| ==> ' ' <= DeviceChars(bs)[i] <= '~'
  {
    if bs != [] {
      DeviceCharsPrintable(bs[..|bs| - 1]);
    }
  }

  /** The device part is never empty, is printable ASCII, and neither starts nor ends with a space. */
  lemma DevicePartShape(data: seq<bv8>)
    ensures DevicePart(data) != ""
    ensures forall i :: 0 <= i < |DevicePart(data)| ==> ' ' <= DevicePart(data)[i] <= '~'
    ensures DevicePart(data)[0] != ' ' && DevicePart(data)[|DevicePart(data)| - 1] != ' '
  {
    if |data| >= MinLength {
      var chars := DeviceChars(RelevantDeviceBytes(data));
      DeviceCharsPrintable(RelevantDeviceBytes(data));
      StripShape(chars);
      var d := Strip(chars);
      forall i | 0 <= i < |d| ensures ' ' <= d[i] <= '~' {
        assert d[i] in d;
        assert d[i] in chars;
      }
    }
  }

  /** The approval part, unless unknown, reads back as the big-endian value of bytes 0x07F2-0x07F5, which is below 2^32. */
  lemma ApprovalPartValue(data: seq<bv8>)
    requires |data| >= MinLength
    requires ApprovalPart(data) != "UNKZUL"
    ensures forall i :: 0 <= i < |ApprovalPart(data)| ==> IsDigit(ApprovalPart(data)[i])
    ensures DecimalValue(ApprovalPart(data)) == BigEndian32(data[ApprovalStart .. ApprovalStart + 4])
    ensures BigEndian32(data[ApprovalStart .. ApprovalStart + 4]) < 0x1_0000_0000
  {
    var raw := data[ApprovalStart .. ApprovalStart + 4];
    DecimalRoundTrip(BigEndian32(raw));
  }

  /** Erased approval bytes (all 0xFF) give `UNKZUL`, not 4294967295. */
  lemma ErasedApprovalUnknown(data: seq<bv8>)
    requires |data| >= MinLength
    requires forall i :: ApprovalStart <= i < ApprovalStart + 4 ==> data[i] == 0xFF
    ensures ApprovalPart(data) == "UNKZUL"
  {
    assert AllEqual(data[ApprovalStart .. ApprovalStart + 4], 0xFF);
  }

  /** "GABC": the leading 'G' is dropped. */
  lemma DeviceExampleG(data: seq<bv8>)
    requires |data| >= MinLength
    requires data[0x07EC .. 0x07F0] == [0x47, 0x41, 0x42, 0x43]
    ensures DevicePart(data) == "ABC"
  {
    var r: seq<bv8> := [0x41, 0x42, 0x43];
    assert RelevantDeviceBytes(data) == r;
    assert r[..2] == [0x41, 0x42] && r[..2][..1] == [0x41] && r[..2][..1][..0] == [];
    assert DeviceChar(0x41) == Some('A') && DeviceChar(0x42) == Some('B') && DeviceChar(0x43) == Some('C');
    assert DeviceChars([0x41]) == "A";
    assert DeviceChars([0x41, 0x42]) == "AB";
    assert DeviceChars(r) == "ABC";
    assert Strip("ABC") == "ABC";
  }

  /** 00 42 01 FF: fill bytes vanish and the control byte 0x01 becomes '_'. */
  lemma DeviceExampleFill(data: seq<bv8>)
    requires |data| >= MinLength
    requires data[0x07EC .. 0x07F0] == [0x00, 0x42, 0x01, 0xFF]
    ensures DevicePart(data) == "B_"
  {
    var r: seq<bv8> := [0x00, 0x42, 0x01, 0xFF];
    assert RelevantDeviceBytes(data) == r;
    assert r[..3] == [0x00, 0x42, 0x01] && r[..3][..2] == [0x00, 0x42] && r[..3][..2][..1] == [0x00] && r[..3][..2][..1][..0] == [];
    assert DeviceChar(0x00) == None && DeviceChar(0x42) == Some('B') && DeviceChar(0x01) == Some('_') && DeviceChar(0xFF) == None;
    assert DeviceChars([0x00]) == "";
    assert DeviceChars([0x00, 0x42]) == "B";
    assert DeviceChars([0x00, 0x42, 0x01]) == "B_";
    assert DeviceChars(r) == "B_";
    assert Strip("B_") == "B_";
  }

  /** 00 00 03 E8 is approval number 1000. */
  lemma ApprovalExample(data: seq<bv8>)
    requires |data| >= MinLength
    requires data[0x07F2 .. 0x07F6] == [0x00, 0x00, 0x03, 0xE8]
    ensures ApprovalPart(data) == "1000"
  {
    var z := data[0x07F2 .. 0x07F6];
    assert !AllEqual(z, 0xFF) && !AllEqual(z, 0x00) by {
      assert z[3] == 0xE8;
    }
    assert BigEndian32(z) == 1000;
    assert Decimal(1000) == "1000" by {
      assert Decimal(100) == "100" by {
        assert Decimal(10) == "10";
      }
    }
  }
}
