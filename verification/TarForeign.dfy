/**
 * Headers that the fixture does not write: a path split over the name and prefix fields, sizes in
 * base 256, any checksum. Everything is said of the bytes, and of the pass over them.
 */
module TarForeign {
  import opened Bytes
  import opened Text
  import opened TarHeader
  import opened PaxRecords
  import opened RestoreArchive
  import opened RestoreConservation
  import opened TarFixture
  import opened TarRoundTrip

  // ----- the size field -----

  function Blanks(n: nat): seq<byte> {
    seq(n, _ => 32)
  }

  /** ASCII white space: tab, line feed, vertical tab, form feed, carriage return and space. */
  predicate IsWhite(s: seq<byte>) {
    forall b :: b in s ==> b == 9 || b == 10 || b == 11 || b == 12 || b == 13 || b == 32
  }

  /** What `trim` removes: the white space and line terminators of sections 12.2 and 12.3 of ECMA-262. */
  lemma SpacesAre(c: char)
    ensures IsSpace(c) <==>
            (c as int) in {9, 10, 11, 12, 13, 32, 160, 5760, 8192, 8193, 8194, 8195, 8196, 8197, 8198, 8199, 8200, 8201,
                           8202, 8232, 8233, 8239, 8287, 12288, 65279}
  {
  }

  /** The `k` low bytes of a number, most significant first. */
  function BytesOf(n: nat, k: nat): (r: seq<byte>)
    ensures |r| == k
  {
    if k == 0 then [] else BytesOf(n / 256, k - 1) + [n % 256]
  }

  /** Octal digits between white space, up to a NUL. */
  ghost predicate SaysOctal(field: seq<byte>, digits: seq<byte>, before: seq<byte>, after: seq<byte>, tail: seq<byte>) {
    IsNumeral(8, digits) && IsWhite(before) && IsWhite(after) && field == before + digits + after + [0] + tail
  }

  /** GNU's base 256: the number in eleven bytes behind a first byte of 128. */
  predicate SaysBase256(field: seq<byte>, n: nat) {
    field == [128] + BytesOf(n, 11) && n < Pow(256, 11)
  }

  /** Text between white space that is not all octal digits. */
  ghost predicate SaysOther(field: seq<byte>, text: seq<byte>, before: seq<byte>, after: seq<byte>, tail: seq<byte>) {
    && IsWhite(before) && IsWhite(after) && field == before + text + after + [0] + tail
    && text != [] && (forall b :: b in text ==> 0 < b < 128) && (exists b :: b in text && !(48 <= b <= 55))
    && !IsWhite([text[0]]) && !IsWhite([text[|text| - 1]])
  }

  /** What a text field says the size is: a number in octal digits, or what is none. */
  ghost predicate SaysText(field: seq<byte>, size: Option<nat>) {
    || (exists digits: seq<byte>, before: seq<byte>, after: seq<byte>, tail: seq<byte> ::
          SaysOctal(field, digits, before, after, tail) && size == Some(NumeralValue(8, digits)))
    || (size == None && exists text: seq<byte>, before: seq<byte>, after: seq<byte>, tail: seq<byte> ::
          SaysOther(field, text, before, after, tail))
  }

  /** What a field of twelve bytes says the size is; None for what is no size. */
  ghost predicate SaysSize(field: seq<byte>, size: Option<nat>) {
    || SaysText(field, size)
    || (exists n :: SaysBase256(field, n) && size == if n <= 9007199254740991 then Some(n) else None)
    || (|field| == 12 && field[0] > 128 && size == None)
    || (field == seq(12, _ => 0) && size == Some(0))
  }

  lemma {:induction false} BigEndianOf(n: nat, k: nat)
    requires n < Pow(256, k)
    ensures BigEndian(BytesOf(n, k)) == n
  {
    if k > 0 {
      assert BytesOf(n, k)[..k - 1] == BytesOf(n / 256, k - 1);
      BigEndianOf(n / 256, k - 1);
    }
  }

  lemma {:induction false} LeadingZero(s: seq<byte>)
    ensures BigEndian([0] + s) == BigEndian(s)
  {
    if s == [] {
      assert [0][..0] == [];
    } else {
      assert ([0] + s)[..|s|] == [0] + s[..|s| - 1];
      LeadingZero(s[..|s| - 1]);
    }
  }

  lemma {:induction false} HighByte(x: byte, s: seq<byte>)
    ensures BigEndian([x] + s) == x * Pow(256, |s|) + BigEndian(s)
  {
    if s == [] {
      assert [x][..0] == [] && [x] + s == [x];
    } else {
      var init := s[..|s| - 1];
      assert ([x] + s)[..|s|] == [x] + init;
      HighByte(x, init);
    }
  }

  lemma TooLarge(x: byte, s: seq<byte>)
    requires x > 0 && |s| == 11
    ensures BigEndian([x] + s) > 9007199254740991
  {
    HighByte(x, s);
    assert Pow(256, 4) == 4294967296;
    assert Pow(256, 8) == 256 * (256 * (256 * (256 * Pow(256, 4))));
    assert Pow(256, 11) == 256 * (256 * (256 * Pow(256, 8)));
    assert x * Pow(256, 11) >= Pow(256, 11);
  }

  lemma Base256Reads(decode: Decoder, block: Block, n: nat)
    requires SaysBase256(block[124..136], n)
    ensures NumberField(decode, block, 124, 12) == if n <= 9007199254740991 then Some(n) else None
  {
    var field := block[124..136];
    assert block[124] == field[0] == 128;
    assert block[125..136] == field[1..] == BytesOf(n, 11);
    LeadingZero(BytesOf(n, 11));
    BigEndianOf(n, 11);
  }

  lemma {:induction false} TrimsSpaces(before: string, s: string, after: string, text: string)
    requires s != "" && !IsSpace(s[0]) && !IsSpace(s[|s| - 1]) && text == before + s + after
    requires (forall c :: c in before ==> IsSpace(c)) && forall c :: c in after ==> IsSpace(c)
    ensures Trim(text) == s
    decreases |before| + |after|
  {
    hide IsSpace;
    if before != "" {
      assert text[0] == before[0] && text[1..] == before[1..] + s + after;
      TrimsSpaces(before[1..], s, after, text[1..]);
    } else if after != "" {
      var n := |after| - 1;
      assert text[0] == s[0] && text[|text| - 1] == after[n];
      assert text[..|text| - 1] == before + s + after[..n];
      TrimsSpaces(before, s, after[..n], text[..|text| - 1]);
    } else {
      assert text == s;
    }
  }

  lemma WhiteIsSpace(s: seq<byte>)
    requires IsWhite(s)
    ensures IsAscii(s) && 0 !in s && forall c :: c in AsciiChars(s) ==> IsSpace(c)
  {
    forall i | 0 <= i < |s| ensures 0 <= s[i] < 128 && s[i] != 0 && IsSpace(s[i] as char) {
      assert s[i] in s;
    }
  }

  lemma OctalReads(decode: Decoder, block: Block, digits: seq<byte>, before: seq<byte>, after: seq<byte>,
                   tail: seq<byte>)
    requires AsciiExact(decode) && SaysOctal(block[124..136], digits, before, after, tail)
    ensures NumberField(decode, block, 124, 12) == Some(NumeralValue(8, digits))
  {
    hide IsWhite, IsSpace;
    WhiteIsSpace(before);
    WhiteIsSpace(after);
    var field := block[124..136];
    var ascii: seq<byte> := before + digits + after;
    assert field == ascii + [0] + tail;
    IndexOfIs(field, 0, 0, |ascii|);
    assert UpTo(field, 0) == ascii && IsAscii(ascii);
    var text, number := AsciiChars(ascii), AsciiChars(digits);
    assert text == AsciiChars(before) + number + AsciiChars(after);
    assert CodeUnits(number) == digits;
    assert digits[0] == number[0] as int && digits[|digits| - 1] == number[|number| - 1] as int;
    DigitsAreNoSpaces(digits);
    TrimsSpaces(AsciiChars(before), number, AsciiChars(after), text);
    assert block[124] == field[0] == ascii[0];
  }

  lemma OtherReads(decode: Decoder, block: Block, other: seq<byte>, before: seq<byte>, after: seq<byte>,
                   tail: seq<byte>)
    requires AsciiExact(decode) && SaysOther(block[124..136], other, before, after, tail)
    ensures NumberField(decode, block, 124, 12) == None
  {
    hide IsSpace, IsNumeral;
    WhiteIsSpace(before);
    WhiteIsSpace(after);
    var field := block[124..136];
    var ascii: seq<byte> := before + other + after;
    assert field == ascii + [0] + tail;
    forall i | 0 <= i < |other| ensures 0 < other[i] < 128 {
      assert other[i] in other;
    }
    IndexOfIs(field, 0, 0, |ascii|);
    assert UpTo(field, 0) == ascii && IsAscii(ascii) && IsAscii(other);
    var text, kept := AsciiChars(ascii), AsciiChars(other);
    assert text == AsciiChars(before) + kept + AsciiChars(after);
    assert CodeUnits(kept) == other;
    NoSpace(other[0]);
    NoSpace(other[|other| - 1]);
    TrimsSpaces(AsciiChars(before), kept, AsciiChars(after), text);
    NumeralIs(8, other);
    assert block[124] == field[0] == ascii[0];
  }

  lemma NoSpace(b: byte)
    requires b < 128 && !IsWhite([b])
    ensures !IsSpace(b as char)
  {
    assert b in [b];
  }

  lemma DigitsAreNoSpaces(digits: seq<byte>)
    requires IsNumeral(8, digits)
    ensures IsAscii(digits) && !IsSpace(digits[0] as char) && !IsSpace(digits[|digits| - 1] as char)
  {
  }

  lemma HighReads(decode: Decoder, block: Block)
    requires block[124] > 128
    ensures NumberField(decode, block, 124, 12) == None
  {
    if block[124] < 192 {
      TooLarge(block[124] % 64, block[125..136]);
    }
  }

  lemma ZerosRead(decode: Decoder, block: Block)
    requires AsciiExact(decode) && block[124..136] == seq(12, _ => 0)
    ensures NumberField(decode, block, 124, 12) == Some(0)
  {
    var field := block[124..136];
    assert block[124] == field[0] == 0;
    IndexOfIs(field, 0, 0, 0);
    EmptyText(decode);
  }

  lemma SizeReads(decode: Decoder, block: Block, size: Option<nat>)
    requires AsciiExact(decode) && SaysSize(block[124..136], size)
    ensures NumberField(decode, block, 124, 12) == size
  {
    hide NumberField, SaysText, SaysBase256, AsciiExact;
    var field := block[124..136];
    if n: nat :| SaysBase256(field, n) && size == if n <= 9007199254740991 then Some(n) else None {
      Base256Reads(decode, block, n);
    } else if field[0] > 128 && size == None {
      assert block[124] == field[0];
      HighReads(decode, block);
    } else if field == seq(12, _ => 0) && size == Some(0) {
      ZerosRead(decode, block);
    } else {
      TextReads(decode, block, size);
    }
  }

  lemma TextReads(decode: Decoder, block: Block, size: Option<nat>)
    requires AsciiExact(decode) && SaysText(block[124..136], size)
    ensures NumberField(decode, block, 124, 12) == size
  {
    hide NumberField, SaysOther, AsciiExact, NumeralValue;
    var field := block[124..136];
    if digits: seq<byte>, before: seq<byte>, after: seq<byte>, tail: seq<byte> :|
      SaysOctal(field, digits, before, after, tail) && size == Some(NumeralValue(8, digits)) {
      OctalReads(decode, block, digits, before, after, tail);
    } else {
      var text: seq<byte>, before: seq<byte>, after: seq<byte>, tail: seq<byte> :|
        SaysOther(field, text, before, after, tail);
      OtherReads(decode, block, text, before, after, tail);
    }
  }

  // ----- one header -----

  /** What the fields of a header hold, in the bytes of the fields. */
  datatype HeaderFields = HeaderFields(name: seq<byte>, prefix: seq<byte>, link: seq<byte>, kind: byte,
                                       size: Option<nat>,
                           recorded: nat)

  /** A text field: the bytes, and NULs after them. */
  predicate IsText(field: seq<byte>, text: seq<byte>) {
    |text| <= |field| && 0 !in text && field == NulPadded(text, |field|)
  }

  const USTAR_MAGIC: seq<byte> := [117, 115, 116, 97, 114, 0]
  const STAR_END: seq<byte> := [116, 97, 114, 0]

  /** A header of a writer that splits paths: USTAR has 155 bytes for the prefix, STAR 131. */
  ghost predicate Holds(b: Block, f: HeaderFields) {
    && IsText(b[0..100], f.name) && IsText(b[157..257], f.link) && b[156] == f.kind
    && SaysSize(b[124..136], f.size)
    && (if b[257..263] != USTAR_MAGIC then f.prefix == []
        else if b[508..512] == STAR_END then IsText(b[345..476], f.prefix)
        else IsText(b[345..500], f.prefix))
    && f.recorded < 262144 && b[148..156] == OctalDigits(f.recorded, 6) + [0, 32]
  }

  /** The sum of the bytes, with blanks for the checksum; and the same with bytes above 127 as negative. */
  ghost predicate SumsTo(b: Block, unsigned: int, signed: int) {
    && unsigned == Sum(b[..148]) + 256 + Sum(b[156..])
    && signed == unsigned - 256 * (High(b[..148]) + High(b[156..]))
  }

  /** How many bytes are above 127. */
  function High(s: seq<byte>): nat {
    if s == [] then 0 else High(s[..|s| - 1]) + if s[|s| - 1] >= 128 then 1 else 0
  }

  lemma {:induction false} SumConcat(a: seq<int>, b: seq<int>)
    ensures Sum(a + b) == Sum(a) + Sum(b)
  {
    if b == [] {
      assert a + b == a;
    } else {
      assert (a + b)[..|a + b| - 1] == a + b[..|b| - 1];
      SumConcat(a, b[..|b| - 1]);
    }
  }

  lemma SumOne(x: int)
    ensures Sum([x]) == x && Sum([]) == 0
  {
    assert [x][..0] == [];
  }

  lemma {:induction false} SignedSum(s: seq<byte>)
    ensures Sum(SignedBytes(s)) == Sum(s) - 256 * High(s)
  {
    if s != [] {
      var init := s[..|s| - 1];
      assert SignedBytes(s)[..|s| - 1] == SignedBytes(init);
      SignedSum(init);
    }
  }

  lemma BlankSum(n: nat)
    ensures Sum(Blanks(n)) == 32 * n && High(Blanks(n)) == 0
  {
    if n > 0 {
      assert Blanks(n)[..n - 1] == Blanks(n - 1);
      BlankSum(n - 1);
    }
  }

  lemma {:induction false} HighConcat(a: seq<byte>, b: seq<byte>)
    ensures High(a + b) == High(a) + High(b)
  {
    if b == [] {
      assert a + b == a;
    } else {
      assert (a + b)[..|a + b| - 1] == a + b[..|b| - 1];
      HighConcat(a, b[..|b| - 1]);
    }
  }

  lemma Sums(b: Block, unsigned: int, signed: int)
    requires SumsTo(b, unsigned, signed)
    ensures Sum(Blanked(b)) == unsigned && Sum(SignedBytes(Blanked(b))) == signed
  {
    hide Sum, SignedBytes, High;
    var head: seq<byte>, tail: seq<byte> := b[..148], b[156..];
    var all: seq<byte> := head + Blanks(8) + tail;
    assert Blanked(b) == all;
    SumConcat(head + Blanks(8), tail);
    SumConcat(head, Blanks(8));
    BlankSum(8);
    HighConcat(head + Blanks(8), tail);
    HighConcat(head, Blanks(8));
    SignedSum(all);
  }

  /** The path in a header: the prefix, when there is one, before the name. */
  function FullName(decode: Decoder, f: HeaderFields): string {
    var prefix := decode(f.prefix);
    if prefix == "" then decode(f.name) else prefix + "/" + decode(f.name)
  }

  lemma HeaderSays(decode: Decoder, b: Block, f: HeaderFields, unsigned: int, signed: int)
    requires AsciiExact(decode) && Holds(b, f) && SumsTo(b, unsigned, signed)
    ensures b[150] != 0
    ensures ChecksumOk(decode, b) <==> f.recorded == unsigned || f.recorded == signed
    ensures NumberField(decode, b, 124, 12) == f.size && b[156] == f.kind
    ensures HeaderName(decode, b) == FullName(decode, f)
    ensures ReadString(decode, b, 157, 100) == decode(f.link)
  {
    hide Sum, SaysSize, NumberField, OctalDigits, ReadString, AsciiExact, SumsTo, Blanked, SignedBytes;
    Sums(b, unsigned, signed);
    SizeReads(decode, b, f.size);
    Powers();
    OctalLength(f.recorded, 6);
    assert b[148..156] == OctalDigits(f.recorded, 6) + [0] + [32];
    assert b[150] == b[148..156][2];
    ReadsOctal(decode, b, 148, 8, OctalDigits(f.recorded, 6), [32]);
    ReadsPadded(decode, b, 0, 100, f.name);
    ReadsPadded(decode, b, 157, 100, f.link);
    EmptyText(decode);
    if b[257..263] == USTAR_MAGIC {
      ReadsPadded(decode, b, 345, if b[508..512] == STAR_END then 131 else 155, f.prefix);
    }
  }

  // ----- the end of the archive -----

  /** A block of zeros, and no other, ends the archive, and is refused if an extended header is still held. */
  lemma EndIff(cfg: Config, meta: Meta, symlinks: set<string>, holding: bool, b: Block, rest: seq<byte>)
    ensures var item := ReadItem(cfg, meta, symlinks, holding, b + rest);
            && (item == EndOfArchive <==> b == seq(512, _ => 0) && !holding)
            && (item == Refuse(DanglingExtendedHeader) <==> b == seq(512, _ => 0) && holding)
  {
    hide ChecksumOk, NumberField, ReadEntry, ReadExtended;
    assert (b + rest)[..BLOCK] == b;
    if forall i :: 0 <= i < BLOCK ==> b[i] == 0 {
      assert b == seq(512, _ => 0);
    }
    ReadsNoEnd(cfg, meta, symlinks, b, rest);
  }

  lemma ReadsNoEnd(cfg: Config, meta: Meta, symlinks: set<string>, b: Block, rest: seq<byte>)
    ensures forall kind, size :: ReadEntry(cfg, meta, symlinks, b, kind, size) != Refuse(DanglingExtendedHeader)
    ensures forall kind, body, length :: ReadExtended(cfg, meta, kind, body, length) != Refuse(DanglingExtendedHeader)
  {
    hide ProblemWith;
    forall kind, size ensures ReadEntry(cfg, meta, symlinks, b, kind, size) != Refuse(DanglingExtendedHeader) {
      NoDangling(cfg, symlinks, EffectiveKind(kind, EffectiveName(cfg, meta, b)), EffectiveName(cfg, meta, b),
                 EffectiveLink(cfg, meta, b));
    }
  }

  lemma NoDangling(cfg: Config, symlinks: set<string>, kind: byte, name: string, linkName: string)
    ensures ProblemWith(cfg, symlinks, kind, name, linkName) != Some(DanglingExtendedHeader)
  {
    hide InRoot, IsBeneathSymlink;
  }

  /** From a block of zeros on everything is forwarded as it is. */
  lemma EndForwardsAll(cfg: Config, rest: seq<byte>)
    ensures var archive: seq<byte> := seq(512, _ => 0) + rest; Pass(cfg, archive) == Verdict(archive, None, [])
  {
    var b: Block := seq(512, _ => 0);
    EndIff(cfg, NO_META, {}, false, b, rest);
    hide ReadItem;
    assert (b + rest) != [];
  }

  // ----- one entry -----

  /** What the guard must make of such a header: an entry under its full path, or the first thing wrong with it. */
  function Decision(cfg: Config, f: HeaderFields, unsigned: int, signed: int): Item {
    var name, linkName := FullName(cfg.decode, f), cfg.decode(f.link);
    var kind := if f.kind == 0 && name != "" && name[|name| - 1] == '/' then 53 else f.kind;
    if f.recorded != unsigned && f.recorded != signed then Refuse(BadChecksum)
    else if f.size == None then Refuse(BadSize)
    else if f.kind != 0 && !(48 <= f.kind <= 55) then Refuse(UnsupportedType(f.kind))
    else
      var problem := ProblemWith(cfg, {}, kind, name, linkName);
      if problem.Some? then Refuse(problem.value)
      else Admit(kind, name, linkName, if 49 <= kind <= 54 then 0 else (f.size.value + 511) / 512 * 512)
  }

  lemma ForeignItem(cfg: Config, b: Block, f: HeaderFields, unsigned: int, signed: int, rest: seq<byte>)
    requires AsciiExact(cfg.decode) && Holds(b, f) && SumsTo(b, unsigned, signed)
    requires f.kind !in {75, 76, 103, 120}
    ensures ReadItem(cfg, NO_META, {}, false, b + rest) == Decision(cfg, f, unsigned, signed)
  {
    hide AsciiExact, Holds, SumsTo, ChecksumOk, NumberField, HeaderName, ReadString, ProblemWith, FullName;
    HeaderSays(cfg.decode, b, f, unsigned, signed);
    assert (b + rest)[..BLOCK] == b;
  }

  /**
   * One header, whoever wrote it, with the content its size announces and a trailer: the entry
   * is admitted under its full path with every byte, or refused for what is wrong with it.
   */
  lemma ForeignEntry(cfg: Config, b: Block, f: HeaderFields, unsigned: int, signed: int, content: seq<byte>)
    requires AsciiExact(cfg.decode) && Holds(b, f) && SumsTo(b, unsigned, signed)
    requires f.kind !in {75, 76, 103, 120}
    requires var item := Decision(cfg, f, unsigned, signed); item.Admit? ==> item.dataLength == |Padded(content)|
    ensures var archive := b + Padded(content) + TRAILER;
            Pass(cfg, archive)
            == match Decision(cfg, f, unsigned, signed)
               case Admit(kind, name, linkName, dataLength) =>
                 Verdict(archive, None, [Entry(0, 0, 512 + dataLength, kind, name, linkName)])
               case Refuse(why) => Verdict([], Some(why), [])
               case _ => Verdict([], None, [])
  {
    hide AsciiExact, Holds, SumsTo, Decision, ReadItem, PassFrom, Padded, WithEntry, RoundUpToBlock;
    var archive := b + Padded(content) + TRAILER;
    var item := Decision(cfg, f, unsigned, signed);
    assert archive == b + (Padded(content) + TRAILER);
    ForeignItem(cfg, b, f, unsigned, signed, Padded(content) + TRAILER);
    DecisionKinds(cfg, f, unsigned, signed);
    if item.Admit? {
      var n := BLOCK + item.dataLength;
      assert archive[..n] == b + Padded(content) && archive[n..] == TRAILER;
      PassAdmit(cfg, NO_META, {}, [], 0, archive);
      TrailerReads(cfg, NO_META, WithEntry({}, item.kind, item.name), [], n);
    } else {
      PassRefuses(cfg, NO_META, {}, [], 0, archive);
    }
  }

  lemma DecisionKinds(cfg: Config, f: HeaderFields, unsigned: int, signed: int)
    ensures Decision(cfg, f, unsigned, signed).Admit? || Decision(cfg, f, unsigned, signed).Refuse?
  {
    hide ProblemWith, FullName;
  }
}
