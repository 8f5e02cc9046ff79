/** The archive writer: the fixture's headers and archives, and where each header field ends up. */
module TarFixture {
  import opened Bytes
  import opened Text
  import opened TarHeader
  import opened RestoreArchive

  type Encoder = string -> seq<byte>

  /** `content` is already encoded; an absent link name is the empty one. */
  datatype FixtureEntry = FixtureEntry(name: string, kind: byte, content: seq<byte>, linkName: string,
                                       sizeField: Option<nat>)

  function DeclaredSize(e: FixtureEntry): nat {
    Or(e.sizeField, |e.content|)
  }

  // ----- one header -----

  /** `block.write(data, offset)`: the bytes that fit, in place. */
  function WriteAt(block: Block, data: seq<byte>, offset: nat): (r: Block)
    requires offset <= BLOCK
  {
    var fits := if |data| <= BLOCK - offset then data else data[..BLOCK - offset];
    block[..offset] + fits + block[offset + |fits|..]
  }

  lemma WriteAtIndex(block: Block, data: seq<byte>, offset: nat)
    requires offset <= BLOCK
    ensures var r := WriteAt(block, data, offset);
            forall i :: 0 <= i < BLOCK ==> r[i] == if offset <= i < offset + |data| then data[i - offset] else block[i]
  {
  }

  /** `value.toString(8)` padded with zeros to `length` digits. */
  function OctalDigits(value: nat, length: nat): (r: seq<byte>) {
    var digits := Digits(8, value);
    if |digits| < length then Zeros(length - |digits|) + digits else digits
  }

  function OctalField(value: nat, length: nat): seq<byte>
    requires length > 0
  {
    OctalDigits(value, length - 1) + [0]
  }

  function ChecksumField(sum: nat): seq<byte> {
    OctalDigits(sum, 6) + [0, 0x20]
  }

  const BLANK_CHECKSUM: seq<byte> := seq(8, _ => 0x20)
  const EMPTY: Block := seq(BLOCK, _ => 0)

  /** The name, the numbers and a blank checksum. */
  function FirstFields(encode: Encoder, e: FixtureEntry): Block {
    var b := WriteAt(EMPTY, encode(FirstUnits(e.name, 100)), 0);
    var b := WriteAt(b, OctalField(0x1A4, 8), 100);
    var b := WriteAt(b, OctalField(5000, 8), 108);
    var b := WriteAt(b, OctalField(5000, 8), 116);
    var b := WriteAt(b, OctalField(DeclaredSize(e), 12), 124);
    var b := WriteAt(b, OctalField(0, 12), 136);
    WriteAt(b, BLANK_CHECKSUM, 148)
  }

  /** The header before its checksum is filled in. */
  function Fields(encode: Encoder, e: FixtureEntry): Block {
    var b := WriteAt(FirstFields(encode, e), [e.kind], 156);
    var b := WriteAt(b, if e.linkName == "" then [] else encode(e.linkName), 157);
    var b := WriteAt(b, USTAR, 257);
    WriteAt(b, [48, 48], 263)
  }

  lemma {:induction false} SumBounds(s: seq<byte>)
    ensures 0 <= Sum(s) <= 255 * |s|
  {
    if s != [] {
      SumBounds(s[..|s| - 1]);
    }
  }

  function Header(encode: Encoder, e: FixtureEntry): Block {
    var b := Fields(encode, e);
    WriteAt(b, ChecksumField(Sum(b)), 148)
  }

  lemma WriteNothing(block: Block, offset: nat)
    requires offset <= BLOCK
    ensures WriteAt(block, [], offset) == block
  {
  }

  method Put(block: array<byte>, data: seq<byte>, offset: nat)
    requires block.Length == BLOCK && offset <= BLOCK
    modifies block
    ensures block[..] == WriteAt(old(block[..]), data, offset)
  {
    var i := 0;
    while i < |data| && offset + i < BLOCK
      invariant 0 <= i <= |data| && offset + i <= BLOCK
      invariant forall k :: 0 <= k < BLOCK ==>
                  block[k] == if offset <= k < offset + i then data[k - offset] else old(block[k])
    {
      block[offset + i] := data[i];
      i := i + 1;
    }
    WriteAtIndex(old(block[..]), data, offset);
    assert block[..] == WriteAt(old(block[..]), data, offset);
  }

  method SumOf(block: array<byte>) returns (sum: nat)
    requires block.Length == BLOCK
    ensures sum == Sum(block[..])
  {
    sum := 0;
    for i := 0 to BLOCK
      invariant sum == Sum(block[..i])
    {
      assert block[..i + 1][..i] == block[..i];
      sum := sum + block[i];
    }
    assert block[..BLOCK] == block[..];
  }

  method WriteHeader(encode: Encoder, e: FixtureEntry) returns (header: Block)
    ensures header == Header(encode, e)
  {
    hide WriteAt, OctalField, FirstUnits, Sum, ChecksumField, DeclaredSize;
    var block := new byte[BLOCK](_ => 0);
    assert block[..] == EMPTY;
    Put(block, encode(FirstUnits(e.name, 100)), 0);
    Put(block, OctalField(0x1A4, 8), 100);
    Put(block, OctalField(5000, 8), 108);
    Put(block, OctalField(5000, 8), 116);
    Put(block, OctalField(DeclaredSize(e), 12), 124);
    Put(block, OctalField(0, 12), 136);
    Put(block, BLANK_CHECKSUM, 148);
    Put(block, [e.kind], 156);
    if e.linkName != "" {
      Put(block, encode(e.linkName), 157);
    } else {
      WriteNothing(block[..], 157);
    }
    Put(block, USTAR, 257);
    Put(block, [48, 48], 263);
    var sum := SumOf(block);
    Put(block, ChecksumField(sum), 148);
    header := block[..];
  }

  // ----- what a fitting header holds -----

  ghost predicate FieldText(encode: Encoder, decode: Decoder, s: string) {
    |encode(s)| <= 100 && 0 !in encode(s) && decode(encode(s)) == s
  }

  const SIZE_LIMIT := 0x2_0000_0000

  /** Name, link name and size fit their header fields. */
  ghost predicate Fits(encode: Encoder, decode: Decoder, e: FixtureEntry) {
    && Length16(e.name) <= 100 && FieldText(encode, decode, e.name)
    && (e.linkName != "" ==> FieldText(encode, decode, e.linkName))
    && DeclaredSize(e) < SIZE_LIMIT
  }

  function LinkBytes(encode: Encoder, e: FixtureEntry): seq<byte> {
    if e.linkName == "" then [] else encode(e.linkName)
  }

  function NulPadded(s: seq<byte>, n: nat): (r: seq<byte>)
    requires |s| <= n
    ensures |r| == n
  {
    s + seq(n - |s|, _ => 0)
  }

  lemma OctalLength(value: nat, length: nat)
    requires length >= 1 && value < Pow(8, length)
    ensures |OctalDigits(value, length)| == length
    ensures IsNumeral(8, OctalDigits(value, length)) && NumeralValue(8, OctalDigits(value, length)) == value
  {
    DigitsFit(8, value, length);
    DigitsValue(8, value);
    var digits := Digits(8, value);
    if |digits| < length {
      LeadingZeros(8, length - |digits|, digits);
    }
  }

  lemma Powers()
    ensures Pow(8, 6) == 262144 && Pow(8, 7) == 2097152 && Pow(8, 11) == SIZE_LIMIT
  {
    assert Pow(8, 2) == 64 && Pow(8, 4) == 4096;
    assert Pow(8, 6) == 8 * (8 * Pow(8, 4));
    assert Pow(8, 9) == 8 * (8 * Pow(8, 7));
  }

  lemma OctalFieldLength(value: nat, length: nat)
    requires length >= 2 && value < Pow(8, length - 1)
    ensures |OctalField(value, length)| == length
  {
    OctalLength(value, length - 1);
  }

  /** A write leaves every other stretch of the block alone. */
  lemma WriteAtSlices(block: Block, data: seq<byte>, offset: nat)
    requires offset + |data| <= BLOCK
    ensures var r := WriteAt(block, data, offset);
            && r[offset..offset + |data|] == data
            && forall lo, hi :: 0 <= lo <= hi <= BLOCK && (hi <= offset || offset + |data| <= lo) ==>
               r[lo..hi] == block[lo..hi]
  {
  }

  lemma FirstLayout(encode: Encoder, decode: Decoder, e: FixtureEntry)
    requires Fits(encode, decode, e)
    ensures var b := FirstFields(encode, e);
            && b[0..100] == NulPadded(encode(e.name), 100)
            && b[124..136] == OctalField(DeclaredSize(e), 12)
            && b[148..156] == BLANK_CHECKSUM
            && forall i :: 156 <= i < 512 ==> b[i] == 0
  {
    hide WriteAt, OctalField, FirstUnits, Length16;
    Powers();
    FirstUnitsOfShort(e.name, 100);
    var name, size := encode(e.name), OctalField(DeclaredSize(e), 12);
    OctalFieldLength(0x1A4, 8);
    OctalFieldLength(5000, 8);
    OctalFieldLength(0, 12);
    OctalFieldLength(DeclaredSize(e), 12);
    var b1 := WriteAt(EMPTY, name, 0);
    WriteAtSlices(EMPTY, name, 0);
    var b2 := WriteAt(b1, OctalField(0x1A4, 8), 100);
    WriteAtSlices(b1, OctalField(0x1A4, 8), 100);
    var b3 := WriteAt(b2, OctalField(5000, 8), 108);
    WriteAtSlices(b2, OctalField(5000, 8), 108);
    var b4 := WriteAt(b3, OctalField(5000, 8), 116);
    WriteAtSlices(b3, OctalField(5000, 8), 116);
    var b5 := WriteAt(b4, size, 124);
    WriteAtSlices(b4, size, 124);
    var b6 := WriteAt(b5, OctalField(0, 12), 136);
    WriteAtSlices(b5, OctalField(0, 12), 136);
    var b := WriteAt(b6, BLANK_CHECKSUM, 148);
    WriteAtSlices(b6, BLANK_CHECKSUM, 148);
    assert b == FirstFields(encode, e);
    assert b[124..136] == size;
    assert b[156..512] == EMPTY[156..512];
    assert forall i :: 156 <= i < 512 ==> b[i] == b[156..512][i - 156];
    assert b[0..100] == NulPadded(name, 100) by {
      assert b[0..|name|] == name && b[|name|..100] == EMPTY[|name|..100];
      assert b[0..100] == b[0..|name|] + b[|name|..100];
    }
  }

  /** Where each field of a fitting header is. */
  lemma FieldsLayout(encode: Encoder, decode: Decoder, e: FixtureEntry)
    requires Fits(encode, decode, e)
    ensures var b := Fields(encode, e);
            && b[0..100] == NulPadded(encode(e.name), 100)
            && b[124..136] == OctalField(DeclaredSize(e), 12)
            && b[148..156] == BLANK_CHECKSUM
            && b[156] == e.kind
            && b[157..257] == NulPadded(LinkBytes(encode, e), 100)
            && b[257..263] == USTAR
            && b[345..500] == NulPadded([], 155)
            && b[508..512] == NulPadded([], 4)
  {
    hide WriteAt, OctalField, FirstFields;
    FirstLayout(encode, decode, e);
    var link := LinkBytes(encode, e);
    var b7 := FirstFields(encode, e);
    var b8 := WriteAt(b7, [e.kind], 156);
    WriteAtSlices(b7, [e.kind], 156);
    var b9 := WriteAt(b8, link, 157);
    WriteAtSlices(b8, link, 157);
    var b10 := WriteAt(b9, USTAR, 257);
    WriteAtSlices(b9, USTAR, 257);
    var b := WriteAt(b10, [48, 48], 263);
    WriteAtSlices(b10, [48, 48], 263);
    assert b == Fields(encode, e);
    assert b[156..157] == [e.kind];
    assert b[345..500] == b7[345..500] == NulPadded([], 155);
    assert b[508..512] == b7[508..512] == NulPadded([], 4);
    assert b[157..257] == NulPadded(link, 100) by {
      var end := 157 + |link|;
      assert b[end..257] == b7[end..257] == seq(100 - |link|, _ => 0);
      assert b[157..257] == b[157..end] + b[end..257];
    }
  }
}
