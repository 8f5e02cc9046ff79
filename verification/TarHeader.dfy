/**
 * The field readers of the restore guard: strings, numbers, checksum, entry name
 * and PAX records. Each loop of the source is a method proved against the function
 * that says what it reads.
 */
module TarHeader {
  import opened Bytes
  import opened Text

  const BLOCK := 512
  const MAX_SAFE_INTEGER := 0x1F_FFFF_FFFF_FFFF

  type Block = b: seq<byte> | |b| == BLOCK witness seq(BLOCK, _ => 0)

  function RoundUpToBlock(size: nat): (r: nat)
    ensures size <= r < size + BLOCK && r % BLOCK == 0
  {
    (size + BLOCK - 1) / BLOCK * BLOCK
  }

  function ReadString(decode: Decoder, block: Block, offset: nat, length: nat): string
    requires offset + length <= BLOCK
  {
    decode(UpTo(block[offset..offset + length], 0))
  }

  // ----- numbers -----

  /** ECMAScript white space and line terminators, which `trim` removes. */
  predicate IsSpace(c: char) {
    c in {'\t', '\n', '\U{000B}', '\U{000C}', '\r', ' ', '\U{00A0}', '\U{1680}',
          '\U{2028}', '\U{2029}', '\U{202F}', '\U{205F}', '\U{3000}', '\U{FEFF}'}
    || '\U{2000}' <= c <= '\U{200A}'
  }

  function Trim(s: string): (r: string)
    ensures r != "" ==> !IsSpace(r[0]) && !IsSpace(r[|r| - 1])
  {
    if s == "" then ""
    else if IsSpace(s[0]) then Trim(s[1..])
    else if IsSpace(s[|s| - 1]) then Trim(s[..|s| - 1])
    else s
  }

  /**
   * The number in a field: big-endian binary where the first byte is 128 or more, otherwise
   * blank-padded base-8 digits.
   */
  function NumberField(decode: Decoder, block: Block, offset: nat, length: nat): Option<nat>
    requires 0 < length && offset + length <= BLOCK
  {
    var first := block[offset];
    if first >= 0x80 then
      if first >= 0xC0 then None
      else
        var value := BigEndian([first % 0x40] + block[offset + 1..offset + length]);
        if value <= MAX_SAFE_INTEGER then Some(value) else None
    else
      var text := CodeUnits(Trim(ReadString(decode, block, offset, length)));
      if text == [] then Some(0)
      else if IsNumeral(8, text) then Some(NumeralValue(8, text))
      else None
  }

  method ReadNumber(decode: Decoder, block: Block, offset: nat, length: nat) returns (r: Option<nat>)
    requires 0 < length && offset + length <= BLOCK
    ensures r == NumberField(decode, block, offset, length)
  {
    var first := block[offset];
    if first >= 0x80 {
      if first >= 0xC0 {
        return None;
      }
      var value: nat := first % 0x40;
      var field: seq<byte> := [first % 0x40] + block[offset + 1..offset + length];
      var i := offset + 1;
      assert field[..1][..0] == [];
      while i < offset + length
        invariant offset + 1 <= i <= offset + length
        invariant value == BigEndian(field[..i - offset])
      {
        value := value * 256 + block[i];
        assert field[..i + 1 - offset][..i - offset] == field[..i - offset];
        i := i + 1;
      }
      assert field[..length] == field;
      return if value <= MAX_SAFE_INTEGER then Some(value) else None;
    }
    var text := CodeUnits(Trim(ReadString(decode, block, offset, length)));
    if text == [] {
      return Some(0);
    }
    return if IsNumeral(8, text) then Some(NumeralValue(8, text)) else None;
  }

  // ----- checksum -----

  function Sum(s: seq<int>): (r: int)
    ensures (forall i :: 0 <= i < |s| ==> s[i] >= 0) ==> r >= 0
  {
    if s == [] then 0 else Sum(s[..|s| - 1]) + s[|s| - 1]
  }

  /** The header with its own checksum field read as blanks. */
  function Blanked(block: Block): (r: seq<int>)
    ensures |r| == BLOCK
  {
    block[..148] + seq(8, _ => 0x20) + block[156..]
  }

  function SignedByte(b: int): int {
    if b > 127 then b - 256 else b
  }

  function SignedBytes(s: seq<int>): (r: seq<int>)
    ensures |r| == |s|
  {
    seq(|s|, i requires 0 <= i < |s| => SignedByte(s[i]))
  }

  predicate ChecksumOk(decode: Decoder, block: Block) {
    var recorded := NumberField(decode, block, 148, 8);
    recorded.Some? && recorded.value in {Sum(Blanked(block)), Sum(SignedBytes(Blanked(block)))}
  }

  method ChecksumMatches(decode: Decoder, block: Block) returns (ok: bool)
    ensures ok == ChecksumOk(decode, block)
  {
    var recorded := ReadNumber(decode, block, 148, 8);
    if recorded == None {
      return false;
    }
    var unsigned, signed := 0, 0;
    ghost var all := Blanked(block);
    for i := 0 to BLOCK
      invariant unsigned == Sum(all[..i])
      invariant signed == Sum(SignedBytes(all)[..i])
    {
      var b: int := if 148 <= i < 156 then 0x20 else block[i];
      assert b == all[i];
      unsigned := unsigned + b;
      signed := signed + SignedByte(b);
      assert all[..i + 1][..i] == all[..i];
      assert SignedBytes(all)[..i + 1][..i] == SignedBytes(all)[..i];
    }
    assert all[..BLOCK] == all && SignedBytes(all)[..BLOCK] == SignedBytes(all);
    return recorded.value == unsigned || recorded.value == signed;
  }

  // ----- entry name -----

  const USTAR: seq<byte> := [117, 115, 116, 97, 114, 0]
  const STAR_TRAILER: seq<byte> := [116, 97, 114, 0]

  /** The name field, with the prefix field joined on for USTAR and STAR headers. */
  function HeaderName(decode: Decoder, block: Block): string {
    var name := ReadString(decode, block, 0, 100);
    if block[257..263] != USTAR then name
    else
      var prefix := ReadString(decode, block, 345, if block[508..512] == STAR_TRAILER then 131 else 155);
      if prefix == "" then name else prefix + "/" + name
  }

  // ----- PAX records -----

  type Records = map<string, string>

  /** One record at the head of `body`: its length, key and value. */
  datatype PaxRecord = PaxRecord(length: nat, key: string, value: string)

  function ReadPaxRecord(decode: Decoder, body: seq<byte>): (r: Option<PaxRecord>)
    ensures r.Some? ==> 0 < r.value.length <= |body|
  {
    var space := IndexOf(body, 0x20);
    var text: seq<int> := body[..space];
    if space == |body| || !IsNumeral(10, text) then None
    else
      var length := NumeralValue(10, text);
      if length <= space + 1 || length > |body| || body[length - 1] != 0x0a then None
      else
        var record := decode(body[space + 1..length - 1]);
        var equals := IndexOf(record, '=');
        if equals == 0 || equals == |record| then None
        else Some(PaxRecord(length, record[..equals], record[equals + 1..]))
  }

  /** Every record of `body` added to `records`, later ones winning; None when malformed. */
  function ParsePax(decode: Decoder, body: seq<byte>, records: Records := map[]): Option<Records>
    decreases |body|
  {
    if body == [] then Some(records)
    else
      var r := ReadPaxRecord(decode, body);
      if r == None then None
      else ParsePax(decode, body[r.value.length..], records[r.value.key := r.value.value])
  }

  /** One turn of the loop: the record at `offset`, read in place. */
  method ReadPaxRecordAt(decode: Decoder, body: seq<byte>, offset: nat) returns (r: Option<PaxRecord>)
    requires offset < |body|
    ensures r == ReadPaxRecord(decode, body[offset..])
  {
    ghost var rest := body[offset..];
    var space := IndexOf(body, 0x20, offset);
    IndexOfIs(rest, 0x20, 0, space - offset);
    if space == |body| {
      return None;
    }
    var lengthText: seq<int> := body[offset..space];
    assert lengthText == rest[..space - offset];
    if !IsNumeral(10, lengthText) {
      return None;
    }
    var length := NumeralValue(10, lengthText);
    var end := offset + length;
    if length <= space - offset + 1 || end > |body| || body[end - 1] != 0x0a {
      return None;
    }
    var record := decode(body[space + 1..end - 1]);
    assert body[space + 1..end - 1] == rest[space - offset + 1..length - 1];
    var equals := IndexOf(record, '=');
    if equals == 0 || equals == |record| {
      return None;
    }
    return Some(PaxRecord(length, record[..equals], record[equals + 1..]));
  }

  method ParsePaxRecords(decode: Decoder, body: seq<byte>) returns (r: Option<Records>)
    ensures r == ParsePax(decode, body)
  {
    hide ReadPaxRecord;
    var records: Records := map[];
    var offset := 0;
    assert body[0..] == body;
    while offset < |body|
      invariant 0 <= offset <= |body|
      invariant ParsePax(decode, body, map[]) == ParsePax(decode, body[offset..], records)
    {
      var record := ReadPaxRecordAt(decode, body, offset);
      if record == None {
        return None;
      }
      assert body[offset..][record.value.length..] == body[offset + record.value.length..];
      records := records[record.value.key := record.value.value];
      offset := offset + record.value.length;
    }
    return Some(records);
  }
}
