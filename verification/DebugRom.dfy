/** The generator of the debug ROM: a binary image, padded to 64 bits, written out as 32-bit words for C and as
    64-bit words, last one first, for SystemVerilog. */
module DebugRom {
  import opened Collections

  /** Byte a of the padded image. */
  function Content(image: seq<HexByte>, a: nat): HexByte { if a < |image| then image[a] else ZERO }

  /** The next multiple of eight. */
  function Align(n: nat): (r: nat)
    ensures r % 8 == 0 && n <= r < n + 8
  {
    (n + 7) / 8 * 8
  }

  /** The image with zeros up to the next multiple of eight. */
  ghost predicate Padded(image: seq<HexByte>, rom: seq<HexByte>) {
    |rom| == Align(|image|) && forall a :: 0 <= a < |rom| ==> rom[a] == Content(image, a)
  }

  method ReadBin(image: seq<HexByte>) returns (rom: seq<HexByte>)
    ensures Padded(image, rom)
  {
    rom := image;
    var align := Align(|rom|);
    for i := |image| to align
      invariant |rom| == i && forall a :: 0 <= a < |rom| ==> rom[a] == Content(image, a)
    {
      rom := rom + [ZERO];
    }
  }

  /** Each line is a number: its bytes, highest first. */
  method CWords(rom: seq<HexByte>) returns (lines: seq<seq<HexByte>>)
    ensures |lines| == |rom| / 4 && forall i :: 0 <= i < |lines| ==> lines[i] == Reverse(rom[4 * i..4 * i + 4])
  {
    lines := [];
    for i := 0 to |rom| / 4
      invariant |lines| == i && forall j :: 0 <= j < i ==> lines[j] == Reverse(rom[4 * j..4 * j + 4])
    {
      lines := lines + [Reverse(rom[4 * i..4 * i + 4])];
    }
  }

  /** Line j of the listing stands for double number n - 1 - j; its two halves are separated in the text only. */
  method VerilogWords(rom: seq<HexByte>) returns (lines: seq<seq<HexByte>>)
    ensures |lines| == |rom| / 8
    ensures forall i :: 0 <= i < |lines| ==>
              lines[|lines| - 1 - i] == Reverse(rom[8 * i + 4..8 * i + 8]) + Reverse(rom[8 * i..8 * i + 4])
  {
    lines := [];
    var n := |rom| / 8;
    for i := n downto 0
      invariant |lines| == n - i
      invariant forall j :: i <= j < n ==>
                  lines[n - 1 - j] == Reverse(rom[8 * j + 4..8 * j + 8]) + Reverse(rom[8 * j..8 * j + 4])
    {
      lines := lines + [Reverse(rom[8 * i + 4..8 * i + 8]) + Reverse(rom[8 * i..8 * i + 4])];
    }
  }

  /** Byte a of the memory that the C words, or the SystemVerilog listing, describe, little-endian. */
  function CByte(lines: seq<seq<HexByte>>, a: nat): HexByte
    requires a / 4 < |lines| && |lines[a / 4]| == 4
  {
    lines[a / 4][3 - a % 4]
  }

  function VerilogByte(lines: seq<seq<HexByte>>, a: nat): HexByte
    requires a / 8 < |lines| && |lines[|lines| - 1 - a / 8]| == 8
  {
    lines[|lines| - 1 - a / 8][7 - a % 8]
  }

  /** Both outputs have the given number of bytes, and line by line the right widths. */
  ghost predicate Shaped(c: seq<seq<HexByte>>, sv: seq<seq<HexByte>>, size: nat) {
    |c| * 4 == size && |sv| * 8 == size
    && (forall i :: 0 <= i < |c| ==> |c[i]| == 4) && forall i :: 0 <= i < |sv| ==> |sv[i]| == 8
  }

  lemma {:induction false} LineWidths(rom: seq<HexByte>, c: seq<seq<HexByte>>, sv: seq<seq<HexByte>>)
    requires |rom| % 8 == 0 && |c| == |rom| / 4 && |sv| == |rom| / 8
    requires forall i :: 0 <= i < |c| ==> c[i] == Reverse(rom[4 * i..4 * i + 4])
    requires forall i :: 0 <= i < |sv| ==>
               sv[|sv| - 1 - i] == Reverse(rom[8 * i + 4..8 * i + 8]) + Reverse(rom[8 * i..8 * i + 4])
    ensures Shaped(c, sv, |rom|)
  {
    forall i | 0 <= i < |sv| ensures |sv[i]| == 8 {
      var j := |sv| - 1 - i;
      assert sv[|sv| - 1 - j] == Reverse(rom[8 * j + 4..8 * j + 8]) + Reverse(rom[8 * j..8 * j + 4]);
    }
  }

  /** Both outputs decode to the same zero-padded image. */
  method GenRom(image: seq<HexByte>) returns (c: seq<seq<HexByte>>, sv: seq<seq<HexByte>>)
    ensures Shaped(c, sv, Align(|image|))
    ensures forall a: nat :: a < Align(|image|) ==> CByte(c, a) == VerilogByte(sv, a) == Content(image, a)
  {
    var rom := ReadBin(image);
    c := CWords(rom);
    sv := VerilogWords(rom);
    LineWidths(rom, c, sv);
    forall a: nat | a < |rom| ensures CByte(c, a) == VerilogByte(sv, a) == rom[a] {
      BytesAgree(rom, c, sv, a);
    }
  }

  lemma {:induction false} BytesAgree(rom: seq<HexByte>, c: seq<seq<HexByte>>, sv: seq<seq<HexByte>>, a: nat)
    requires |rom| % 8 == 0 && Shaped(c, sv, |rom|) && a < |rom|
    requires c[a / 4] == Reverse(rom[4 * (a / 4)..4 * (a / 4) + 4])
    requires var i := a / 8; sv[|sv| - 1 - i] == Reverse(rom[8 * i + 4..8 * i + 8]) + Reverse(rom[8 * i..8 * i + 4])
    ensures CByte(c, a) == VerilogByte(sv, a) == rom[a]
  {
    var i, r := a / 8, a % 8;
    assert a == 8 * i + r && a == 4 * (a / 4) + a % 4;
  }
}
