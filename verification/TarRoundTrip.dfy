/** The guard reads back every archive the fixture writes. */
module TarRoundTrip {
  import opened Bytes
  import opened Text
  import opened TarHeader
  import opened PaxRecords
  import opened RestoreArchive
  import opened RestoreConservation
  import opened RestoreContainment
  import opened TarFixture

  // ----- fields -----

  lemma TrimNumeral(s: string)
    requires IsNumeral(8, CodeUnits(s))
    ensures Trim(s) == s
  {
    assert CodeUnits(s)[0] == s[0] as int && CodeUnits(s)[|s| - 1] == s[|s| - 1] as int;
    assert !IsSpace(s[0]) && !IsSpace(s[|s| - 1]);
  }

  /** Octal digits up to a NUL are read as their value. */
  lemma ReadsOctal(decode: Decoder, block: Block, offset: nat, length: nat, digits: seq<byte>, tail: seq<byte>)
    requires AsciiExact(decode) && 0 < length && offset + length <= BLOCK
    requires IsNumeral(8, digits) && block[offset..offset + length] == digits + [0] + tail
    ensures NumberField(decode, block, offset, length) == Some(NumeralValue(8, digits))
  {
    var field := block[offset..offset + length];
    assert block[offset] == field[0] == digits[0];
    IndexOfIs(field, 0, 0, |digits|);
    assert UpTo(field, 0) == digits;
    assert IsAscii(digits);
    var text := AsciiChars(digits);
    assert CodeUnits(text) == digits;
    TrimNumeral(text);
  }

  lemma ReadsPadded(decode: Decoder, block: Block, offset: nat, length: nat, s: seq<byte>)
    requires offset + length <= BLOCK && |s| <= length && 0 !in s
    requires block[offset..offset + length] == NulPadded(s, length)
    ensures ReadString(decode, block, offset, length) == decode(s)
  {
    var field := block[offset..offset + length];
    IndexOfIs(field, 0, 0, |s|);
    assert UpTo(field, 0) == s;
  }

  // ----- one header -----

  lemma ChecksumFits(encode: Encoder, e: FixtureEntry)
    ensures var sum := Sum(Fields(encode, e));
            && 0 <= sum < Pow(8, 6) && |ChecksumField(sum)| == 8
            && IsNumeral(8, OctalDigits(sum, 6)) && NumeralValue(8, OctalDigits(sum, 6)) == sum
  {
    hide Fields;
    SumBounds(Fields(encode, e));
    Powers();
    OctalLength(Sum(Fields(encode, e)), 6);
  }

  lemma HeaderSlices(encode: Encoder, e: FixtureEntry)
    ensures var b, f := Header(encode, e), Fields(encode, e);
            && b[148..156] == ChecksumField(Sum(f))
            && forall lo, hi :: 0 <= lo <= hi <= BLOCK && (hi <= 148 || 156 <= lo) ==> b[lo..hi] == f[lo..hi]
  {
    hide Fields, ChecksumField, WriteAt;
    ChecksumFits(encode, e);
    WriteAtSlices(Fields(encode, e), ChecksumField(Sum(Fields(encode, e))), 148);
  }

  lemma HeaderChecksum(encode: Encoder, decode: Decoder, e: FixtureEntry)
    requires AsciiExact(decode) && Fits(encode, decode, e)
    ensures ChecksumOk(decode, Header(encode, e))
  {
    hide Fields, Header, Sum, NumberField, OctalDigits;
    var b, f := Header(encode, e), Fields(encode, e);
    HeaderSlices(encode, e);
    ChecksumFits(encode, e);
    FieldsLayout(encode, decode, e);
    assert Blanked(b) == f by {
      assert b[0..148] == f[0..148] && b[156..512] == f[156..512];
      assert f == f[0..148] + f[148..156] + f[156..512];
    }
    assert ChecksumField(Sum(f)) == OctalDigits(Sum(f), 6) + [0] + [0x20];
    ReadsOctal(decode, b, 148, 8, OctalDigits(Sum(f), 6), [0x20]);
  }

  /** What the guard's field readers make of a fitting header. */
  lemma HeaderReads(encode: Encoder, decode: Decoder, e: FixtureEntry)
    requires AsciiExact(decode) && Fits(encode, decode, e)
    ensures var b := Header(encode, e);
            && b[257] != 0 && b[156] == e.kind
            && NumberField(decode, b, 124, 12) == Some(DeclaredSize(e))
            && HeaderName(decode, b) == e.name
            && ReadString(decode, b, 157, 100) == e.linkName
  {
    hide Fields, Header, Sum, NumberField, OctalDigits, ReadString, AsciiExact;
    var b, f := Header(encode, e), Fields(encode, e);
    HeaderSlices(encode, e);
    FieldsLayout(encode, decode, e);
    assert b[156..157] == f[156..157];
    assert b[156] == b[156..157][0] && f[156] == f[156..157][0];
    assert b[257..263] == USTAR;
    assert b[257] == b[257..263][0];
    Powers();
    OctalLength(DeclaredSize(e), 11);
    assert b[124..136] == OctalDigits(DeclaredSize(e), 11) + [0] + [];
    ReadsOctal(decode, b, 124, 12, OctalDigits(DeclaredSize(e), 11), []);
    ReadsPadded(decode, b, 0, 100, encode(e.name));
    ReadsPadded(decode, b, 157, 100, LinkBytes(encode, e));
    assert b[345..345 + 155] == NulPadded([], 155);
    ReadsPadded(decode, b, 345, 155, []);
    assert b[508..512][0] == 0;
    EmptyText(decode);
  }

  lemma EmptyText(decode: Decoder)
    requires AsciiExact(decode)
    ensures decode([]) == ""
  {
    assert IsAscii([]);
  }

  // ----- whole archives -----

  function Padded(content: seq<byte>): (r: seq<byte>)
    ensures |r| == RoundUpToBlock(|content|)
  {
    NulPadded(content, RoundUpToBlock(|content|))
  }

  function EntryBytes(encode: Encoder, e: FixtureEntry): seq<byte> {
    Header(encode, e) + Padded(e.content)
  }

  const TRAILER: seq<byte> := NulPadded([], 1024)

  function TarOf(encode: Encoder, entries: seq<FixtureEntry>): seq<byte> {
    if entries == [] then TRAILER else EntryBytes(encode, entries[0]) + TarOf(encode, entries[1..])
  }

  method WriteTar(encode: Encoder, entries: seq<FixtureEntry>) returns (archive: seq<byte>)
    ensures archive == TarOf(encode, entries)
  {
    hide Header, EntryBytes, TarOf;
    archive := [];
    for i := 0 to |entries|
      invariant TarOf(encode, entries) == archive + TarOf(encode, entries[i..])
    {
      var header := WriteHeader(encode, entries[i]);
      TarOfNext(encode, entries, i, header);
      archive := archive + (header + Padded(entries[i].content));
    }
    TarOfNone(encode, entries[|entries|..]);
    archive := archive + TRAILER;
  }

  /** An archive is whole blocks of 512 bytes, the last two of them zero. */
  lemma {:induction false} TarOfEnds(encode: Encoder, entries: seq<FixtureEntry>)
    ensures var archive := TarOf(encode, entries);
            |archive| % 512 == 0 && |archive| >= 1024 && archive[|archive| - 1024..] == seq(1024, _ => 0)
    decreases |entries|
  {
    hide Header, Padded;
    if entries != [] {
      TarOfEnds(encode, entries[1..]);
      EntryBytesLength(encode, entries[0]);
      var head, tail := EntryBytes(encode, entries[0]), TarOf(encode, entries[1..]);
      assert (head + tail)[|head + tail| - 1024..] == tail[|tail| - 1024..];
    } else {
      assert TRAILER[0..] == TRAILER;
    }
  }

  lemma TarOfNone(encode: Encoder, entries: seq<FixtureEntry>)
    requires entries == []
    ensures TarOf(encode, entries) == TRAILER
  {
  }

  lemma TarOfNext(encode: Encoder, entries: seq<FixtureEntry>, i: nat, header: Block)
    requires i < |entries| && header == Header(encode, entries[i])
    ensures TarOf(encode, entries[i..]) == header + Padded(entries[i].content) + TarOf(encode, entries[i + 1..])
  {
    hide Header;
    assert entries[i..][0] == entries[i] && entries[i..][1..] == entries[i + 1..];
  }

  /** What an entry means to the guard, said of the entry and not of its bytes. */
  function ItemOf(cfg: Config, meta: Meta, symlinks: set<string>, e: FixtureEntry): Item {
    if IsExtendedType(e.kind) then
      if DeclaredSize(e) > MAX_META_BODY then Refuse(OversizedExtendedHeader)
      else ReadExtended(cfg, meta, e.kind, e.content, BLOCK + |Padded(e.content)|)
    else if !IsAcceptedType(e.kind) then Refuse(UnsupportedType(e.kind))
    else
      var name := Or(meta.longName, Or(PaxValue(meta, "path"), e.name));
      var linkName := Or(meta.longLink, Or(PaxValue(meta, "linkpath"), e.linkName));
      var kind := EffectiveKind(e.kind, name);
      var size := EffectiveSize(meta, DeclaredSize(e));
      if size == None then Refuse(BadPaxSize)
      else
        var problem := ProblemWith(cfg, symlinks, kind, name, linkName);
        if problem.Some? then Refuse(problem.value)
        else Admit(kind, name, linkName, if IsHeaderOnly(kind) then 0 else RoundUpToBlock(size.value))
  }

  /** An extended header that says how long its body is, or is refused for the length it says. */
  predicate BodyAgrees(e: FixtureEntry) {
    IsExtendedType(e.kind) && DeclaredSize(e) <= MAX_META_BODY ==> DeclaredSize(e) == |e.content|
  }

  /** A written entry, whatever follows it, is read as what it means. */
  lemma ItemReadsBack(encode: Encoder, cfg: Config, meta: Meta, symlinks: set<string>, holding: bool, e: FixtureEntry,
                      rest: seq<byte>)
    requires AsciiExact(cfg.decode) && Fits(encode, cfg.decode, e)
    requires BodyAgrees(e)
    ensures ReadItem(cfg, meta, symlinks, holding, EntryBytes(encode, e) + rest) == ItemOf(cfg, meta, symlinks, e)
  {
    hide AsciiExact, Fits, Header, ChecksumOk, NumberField, HeaderName, ReadString, ReadExtended, ProblemWith,
         EffectiveSize, EffectiveKind;
    var all := EntryBytes(encode, e) + rest;
    var header := Header(encode, e);
    assert all[..BLOCK] == header;
    HeaderChecksum(encode, cfg.decode, e);
    HeaderReads(encode, cfg.decode, e);
    assert header[257] != 0;
    if IsExtendedType(e.kind) {
      assert all[BLOCK..BLOCK + |e.content|] == e.content;
    }
  }

  /**
   * What a whole list of entries means to the guard: the pass, said of entries. Where a
   * size is not that of the content behind it, the guard goes on as the size says, into
   * whatever bytes are there.
   */
  function Reading(encode: Encoder, cfg: Config, meta: Meta, symlinks: set<string>, held: seq<byte>, at: nat,
                   entries: seq<FixtureEntry>): Verdict
    requires |held| <= at
    decreases |entries|
  {
    if entries == [] then
      if held != [] then Verdict([], Some(DanglingExtendedHeader), []) else Verdict(TRAILER, None, [])
    else if !BodyAgrees(entries[0]) then PassFrom(cfg, meta, symlinks, held, at, TarOf(encode, entries))
    else
      var bytes := EntryBytes(encode, entries[0]);
      match ItemOf(cfg, meta, symlinks, entries[0])
      case Extended(_, meta') => Reading(encode, cfg, meta', symlinks, held + bytes, at + |bytes|, entries[1..])
      case Admit(kind, name, linkName, dataLength) =>
        var end := at + BLOCK + dataLength;
        var entry := Entry(at - |held|, at, end, kind, name, linkName);
        var symlinks' := WithEntry(symlinks, kind, name);
        if dataLength == |Padded(entries[0].content)| then
          After(held + bytes, [entry], Reading(encode, cfg, NO_META, symlinks', [], at + |bytes|, entries[1..]))
        else
          After(held + Header(encode, entries[0]), [entry],
                Data(cfg, symlinks', dataLength, end, Padded(entries[0].content) + TarOf(encode, entries[1..])))
      case Refuse(why) => Verdict([], Some(why), [])
      case _ => Verdict([], None, [])
  }

  lemma {:induction false} ReadsBackFrom(encode: Encoder, cfg: Config, meta: Meta, symlinks: set<string>,
                                         held: seq<byte>, at: nat, entries: seq<FixtureEntry>)
    requires AsciiExact(cfg.decode) && |held| <= at
    requires forall e :: e in entries ==> Fits(encode, cfg.decode, e)
    ensures PassFrom(cfg, meta, symlinks, held, at, TarOf(encode, entries))
            == Reading(encode, cfg, meta, symlinks, held, at, entries)
    decreases |entries|
  {
    hide ReadItem, ItemOf, PassFrom, Reading, Fits, AsciiExact, EntryBytes, TarOf;
    if entries == [] {
      NoneReadsBack(encode, cfg, meta, symlinks, held, at, entries);
    } else {
      var e, rest := entries[0], entries[1..];
      var n := |EntryBytes(encode, e)|;
      var item := ItemOf(cfg, meta, symlinks, e);
      assert Fits(encode, cfg.decode, e);
      if item.Extended? {
        ReadsBackFrom(encode, cfg, item.meta, symlinks, held + EntryBytes(encode, e), at + n, rest);
      } else if item.Admit? && item.dataLength == |Padded(e.content)| {
        ReadsBackFrom(encode, cfg, NO_META, WithEntry(symlinks, item.kind, item.name), [], at + n, rest);
      }
      ReadsBackStep(encode, cfg, meta, symlinks, held, at, entries);
    }
  }

  /** The pass and the reading take the same step at the first entry. */
  lemma ReadsBackStep(encode: Encoder, cfg: Config, meta: Meta, symlinks: set<string>, held: seq<byte>, at: nat,
                      entries: seq<FixtureEntry>)
    requires AsciiExact(cfg.decode) && |held| <= at && entries != []
    requires Fits(encode, cfg.decode, entries[0])
    requires var item, rest := ItemOf(cfg, meta, symlinks, entries[0]), entries[1..];
             var bytes := EntryBytes(encode, entries[0]);
             && (item.Extended? ==>
                   PassFrom(cfg, item.meta, symlinks, held + bytes, at + |bytes|, TarOf(encode, rest))
                   == Reading(encode, cfg, item.meta, symlinks, held + bytes, at + |bytes|, rest))
             && (item.Admit? && item.dataLength == |Padded(entries[0].content)| ==>
                   PassFrom(cfg, NO_META, WithEntry(symlinks, item.kind, item.name), [], at + |bytes|,
                            TarOf(encode, rest))
                   == Reading(encode, cfg, NO_META, WithEntry(symlinks, item.kind, item.name), [], at + |bytes|, rest))
    ensures PassFrom(cfg, meta, symlinks, held, at, TarOf(encode, entries))
            == Reading(encode, cfg, meta, symlinks, held, at, entries)
  {
    hide ReadItem, ItemOf, PassFrom, Fits, AsciiExact, EntryBytes, Data, Header, Padded;
    if !BodyAgrees(entries[0]) {
      return;
    }
    var item := ItemOf(cfg, meta, symlinks, entries[0]);
    var bytes, tail := EntryBytes(encode, entries[0]), TarOf(encode, entries[1..]);
    ItemReadsBack(encode, cfg, meta, symlinks, held != [], entries[0], tail);
    ItemIsDecided(encode, cfg, meta, symlinks, entries[0]);
    assert (bytes + tail)[..|bytes|] == bytes && (bytes + tail)[|bytes|..] == tail;
    if item.Extended? {
      PassExtended(cfg, meta, symlinks, held, at, bytes + tail);
    } else if item.Admit? && item.dataLength == |Padded(entries[0].content)| {
      PassAdmit(cfg, meta, symlinks, held, at, bytes + tail);
    } else if item.Admit? {
      EntryParts(encode, entries[0], tail);
      PassHeader(cfg, meta, symlinks, held, at, bytes + tail);
    } else {
      PassRefuses(cfg, meta, symlinks, held, at, bytes + tail);
    }
  }

  lemma TrailerReads(cfg: Config, meta: Meta, symlinks: set<string>, held: seq<byte>, at: nat)
    requires |held| <= at
    ensures PassFrom(cfg, meta, symlinks, held, at, TRAILER)
            == if held != [] then Verdict([], Some(DanglingExtendedHeader), []) else Verdict(TRAILER, None, [])
  {
    hide ChecksumOk, NumberField;
    assert forall i :: 0 <= i < BLOCK ==> TRAILER[..BLOCK][i] == 0;
  }

  lemma NoneReadsBack(encode: Encoder, cfg: Config, meta: Meta, symlinks: set<string>, held: seq<byte>, at: nat,
                      entries: seq<FixtureEntry>)
    requires |held| <= at && entries == []
    ensures PassFrom(cfg, meta, symlinks, held, at, TarOf(encode, entries))
            == Reading(encode, cfg, meta, symlinks, held, at, entries)
  {
    hide PassFrom, TarOf;
    TarOfNone(encode, entries);
    TrailerReads(cfg, meta, symlinks, held, at);
  }

  lemma ItemIsDecided(encode: Encoder, cfg: Config, meta: Meta, symlinks: set<string>, e: FixtureEntry)
    requires BodyAgrees(e)
    ensures var item := ItemOf(cfg, meta, symlinks, e); var bytes := EntryBytes(encode, e);
            && (item.Extended? || item.Admit? || item.Refuse?)
            && (item.Extended? ==> item.length == |bytes|)
            && |bytes| == BLOCK + |Padded(e.content)|
            && bytes != []
  {
    hide Header, ReadExtended, ProblemWith, EffectiveSize, EffectiveKind;
  }

  lemma EntryParts(encode: Encoder, e: FixtureEntry, tail: seq<byte>)
    ensures var all := EntryBytes(encode, e) + tail;
            |all| >= BLOCK && all[..BLOCK] == Header(encode, e) && all[BLOCK..] == Padded(e.content) + tail
  {
    hide Header, Padded;
  }

  lemma PassHeader(cfg: Config, meta: Meta, symlinks: set<string>, held: seq<byte>, at: nat, rest: seq<byte>)
    requires |held| <= at && rest != [] && ReadItem(cfg, meta, symlinks, held != [], rest).Admit?
    ensures var item := ReadItem(cfg, meta, symlinks, held != [], rest); var end := at + BLOCK + item.dataLength;
            PassFrom(cfg, meta, symlinks, held, at, rest)
            == After(held + rest[..BLOCK], [Entry(at - |held|, at, end, item.kind, item.name, item.linkName)],
                     Data(cfg, WithEntry(symlinks, item.kind, item.name), item.dataLength, end, rest[BLOCK..]))
  {
    hide ReadItem, Data;
  }

  lemma PassRefuses(cfg: Config, meta: Meta, symlinks: set<string>, held: seq<byte>, at: nat, rest: seq<byte>)
    requires |held| <= at && rest != [] && ReadItem(cfg, meta, symlinks, held != [], rest).Refuse?
    ensures PassFrom(cfg, meta, symlinks, held, at, rest)
            == Verdict([], Some(ReadItem(cfg, meta, symlinks, held != [], rest).why), [])
  {
    hide ReadItem;
  }

  /** For every list of fitting entries of any type, the guard's verdict is what the entries mean. */
  lemma ReadsBack(encode: Encoder, cfg: Config, entries: seq<FixtureEntry>)
    requires AsciiExact(cfg.decode)
    requires forall e :: e in entries ==> Fits(encode, cfg.decode, e)
    ensures Pass(cfg, TarOf(encode, entries)) == Reading(encode, cfg, NO_META, {}, [], 0, entries)
  {
    ReadsBackFrom(encode, cfg, NO_META, {}, [], 0, entries);
  }

  /** Every size up to the first refusal is that of the content behind it. */
  predicate SizesAgree(cfg: Config, meta: Meta, symlinks: set<string>, entries: seq<FixtureEntry>)
    decreases |entries|
  {
    entries == [] ||
    (var e := entries[0]; var item := ItemOf(cfg, meta, symlinks, e);
     && BodyAgrees(e)
     && (item.Extended? ==> SizesAgree(cfg, item.meta, symlinks, entries[1..]))
     && (item.Admit? ==>
           && item.dataLength == |Padded(e.content)|
           && SizesAgree(cfg, NO_META, WithEntry(symlinks, item.kind, item.name), entries[1..])))
  }

  /** What such a list of entries means to the guard, said of the entries alone. */
  function Meaning(encode: Encoder, cfg: Config, meta: Meta, symlinks: set<string>, held: seq<byte>, at: nat,
                   entries: seq<FixtureEntry>): Verdict
    requires |held| <= at
    decreases |entries|
  {
    if entries == [] then
      if held != [] then Verdict([], Some(DanglingExtendedHeader), []) else Verdict(TRAILER, None, [])
    else
      var bytes := EntryBytes(encode, entries[0]);
      match ItemOf(cfg, meta, symlinks, entries[0])
      case Extended(_, meta') => Meaning(encode, cfg, meta', symlinks, held + bytes, at + |bytes|, entries[1..])
      case Admit(kind, name, linkName, _) =>
        After(held + bytes, [Entry(at - |held|, at, at + |bytes|, kind, name, linkName)],
              Meaning(encode, cfg, NO_META, WithEntry(symlinks, kind, name), [], at + |bytes|, entries[1..]))
      case Refuse(why) => Verdict([], Some(why), [])
      case _ => Verdict([], None, [])
  }

  lemma {:induction false} ReadingIsMeaning(encode: Encoder, cfg: Config, meta: Meta, symlinks: set<string>,
                                            held: seq<byte>, at: nat, entries: seq<FixtureEntry>)
    requires |held| <= at && SizesAgree(cfg, meta, symlinks, entries)
    ensures Reading(encode, cfg, meta, symlinks, held, at, entries)
            == Meaning(encode, cfg, meta, symlinks, held, at, entries)
    decreases |entries|
  {
    hide ItemOf, PassFrom, Data, Header, BodyAgrees, Padded, EntryBytes, WithEntry;
    if entries != [] {
      var e, rest := entries[0], entries[1..];
      var bytes := EntryBytes(encode, e);
      EntryBytesLength(encode, e);
      var item := ItemOf(cfg, meta, symlinks, e);
      if item.Extended? {
        ReadingIsMeaning(encode, cfg, item.meta, symlinks, held + bytes, at + |bytes|, rest);
      } else if item.Admit? {
        ReadingIsMeaning(encode, cfg, NO_META, WithEntry(symlinks, item.kind, item.name), [], at + |bytes|, rest);
      }
    }
  }

  lemma EntryBytesLength(encode: Encoder, e: FixtureEntry)
    ensures |EntryBytes(encode, e)| == BLOCK + |Padded(e.content)|
  {
    hide Header, Padded;
  }

  /** Where sizes agree, the guard's verdict on the archive is said of the entries alone, never of their bytes. */
  lemma ReadsBackByMeaning(encode: Encoder, cfg: Config, entries: seq<FixtureEntry>)
    requires AsciiExact(cfg.decode)
    requires forall e :: e in entries ==> Fits(encode, cfg.decode, e)
    requires SizesAgree(cfg, NO_META, {}, entries)
    ensures Pass(cfg, TarOf(encode, entries)) == Meaning(encode, cfg, NO_META, {}, [], 0, entries)
  {
    hide Reading, Meaning, Pass, TarOf, Fits, AsciiExact, SizesAgree;
    ReadsBack(encode, cfg, entries);
    ReadingIsMeaning(encode, cfg, NO_META, {}, [], 0, entries);
  }

  // ----- ordinary archives -----

  /** An entry of a type Docker archives contain, with content only where the type has any. */
  predicate Ordinary(e: FixtureEntry) {
    IsAcceptedType(e.kind) && e.sizeField == None && (IsHeaderOnly(EffectiveKind(e.kind, e.name)) ==> e.content == [])
  }

  /** In root, link targets in root, and none beneath an earlier symlink. */
  predicate InOrder(cfg: Config, symlinks: set<string>, entries: seq<FixtureEntry>)
    decreases |entries|
  {
    entries == [] ||
    (var e := entries[0]; var kind := EffectiveKind(e.kind, e.name);
     && ProblemWith(cfg, symlinks, kind, e.name, e.linkName) == None
     && InOrder(cfg, WithEntry(symlinks, kind, e.name), entries[1..]))
  }

  lemma {:induction false} OrdinaryReading(encode: Encoder, cfg: Config, symlinks: set<string>, at: nat,
                                           entries: seq<FixtureEntry>)
    requires forall e :: e in entries ==> Ordinary(e)
    ensures var v := Reading(encode, cfg, NO_META, symlinks, [], at, entries);
            && (v.rejection == None <==> InOrder(cfg, symlinks, entries))
            && (v.rejection == None ==> v.output == TarOf(encode, entries) && |v.admitted| == |entries|)
    decreases |entries|
  {
    hide ProblemWith, EntryBytes, EffectiveKind, ItemOf, WithEntry, BodyAgrees, PassFrom, Data, Header, Padded,
         Ordinary;
    if entries != [] {
      var e, rest := entries[0], entries[1..];
      var kind := EffectiveKind(e.kind, e.name);
      OrdinaryItem(cfg, symlinks, e);
      if ProblemWith(cfg, symlinks, kind, e.name, e.linkName) == None {
        OrdinaryReading(encode, cfg, WithEntry(symlinks, kind, e.name), at + |EntryBytes(encode, e)|, rest);
        assert [] + EntryBytes(encode, e) == EntryBytes(encode, e);
      }
    }
  }

  lemma OrdinaryItem(cfg: Config, symlinks: set<string>, e: FixtureEntry)
    requires Ordinary(e)
    ensures var kind := EffectiveKind(e.kind, e.name);
            var problem := ProblemWith(cfg, symlinks, kind, e.name, e.linkName);
            && BodyAgrees(e) && !IsExtendedType(e.kind)
            && ItemOf(cfg, NO_META, symlinks, e)
               == if problem.Some? then Refuse(problem.value) else Admit(kind, e.name, e.linkName, |Padded(e.content)|)
  {
    hide ProblemWith;
  }

  /**
   * An ordinary archive passes the guard if and only if its entries are in order, and
   * then it passes unchanged with every entry admitted.
   */
  lemma OrdinaryRoundTrip(encode: Encoder, cfg: Config, entries: seq<FixtureEntry>)
    requires AsciiExact(cfg.decode)
    requires forall e :: e in entries ==> Fits(encode, cfg.decode, e) && Ordinary(e)
    ensures var archive := TarOf(encode, entries); var v := Pass(cfg, archive);
            && (v.rejection == None <==> InOrder(cfg, {}, entries))
            && (v.rejection == None ==> v.output == archive && |v.admitted| == |entries|)
  {
    OrdinaryReading(encode, cfg, {}, 0, entries);
    ReadsBack(encode, cfg, entries);
  }

  // ----- hard-link targets and symlinks -----

  /** Each hard link's target passes the test that entry names pass, against the symlinks before it. */
  predicate TargetsAvoid(symlinks: set<string>, entries: seq<FixtureEntry>)
    decreases |entries|
  {
    entries == [] ||
    (var e := entries[0];
     && (e.kind == HARD_LINK && Components(e.linkName).Some? ==>
           !IsBeneathSymlink(symlinks, Components(e.linkName).value))
     && TargetsAvoid(WithEntry(symlinks, e.kind, e.name), entries[1..]))
  }

  function AsEntry(e: FixtureEntry): Entry {
    Entry(0, 0, 0, EffectiveKind(e.kind, e.name), e.name, e.linkName)
  }

  function AsEntries(entries: seq<FixtureEntry>): (r: seq<Entry>)
    ensures |r| == |entries| && forall i :: 0 <= i < |entries| ==> r[i] == AsEntry(entries[i])
  {
    seq(|entries|, i requires 0 <= i < |entries| => AsEntry(entries[i]))
  }

  /** The target of the entry at `j`, if it is a hard link, with `before` admitted ahead of them all. */
  ghost predicate TargetAvoids(before: seq<Entry>, entries: seq<FixtureEntry>, j: nat)
    requires j < |entries|
  {
    entries[j].kind == HARD_LINK ==> !Beneath(before + AsEntries(entries)[..j], entries[j].linkName)
  }

  lemma {:induction false} TargetsAvoidAfter(cfg: Config, before: seq<Entry>, entries: seq<FixtureEntry>)
    ensures TargetsAvoid(SymlinksOf(before), entries)
            <==> forall j :: 0 <= j < |entries| ==> TargetAvoids(before, entries, j)
    decreases |entries|
  {
    hide WithEntry, TargetAvoids, SymlinksOf, IsBeneathSymlink, Components;
    if entries != [] {
      var e, rest := entries[0], entries[1..];
      var before' := before + [AsEntry(e)];
      FirstTarget(before, entries);
      TargetsAvoidAfter(cfg, before', rest);
      forall j | 0 <= j < |rest| ensures TargetAvoids(before, entries, j + 1) <==> TargetAvoids(before', rest, j) {
        LaterTarget(before, entries, j);
      }
      assert forall j :: 1 <= j < |entries| ==> (TargetAvoids(before, entries, j)
                                                 <==> TargetAvoids(before', rest, j - 1));
    }
  }

  lemma FirstTarget(before: seq<Entry>, entries: seq<FixtureEntry>)
    requires entries != []
    ensures var e := entries[0];
            && SymlinksOf(before + [AsEntry(e)]) == WithEntry(SymlinksOf(before), e.kind, e.name)
            && (TargetAvoids(before, entries, 0)
                <==> (e.kind == HARD_LINK && Components(e.linkName).Some? ==>
                        !IsBeneathSymlink(SymlinksOf(before), Components(e.linkName).value)))
  {
    hide Components, IsBeneathSymlink;
    var e := entries[0];
    KindOfLinks(e, SymlinksOf(before));
    assert (before + [AsEntry(e)])[..|before|] == before;
    assert before + AsEntries(entries)[..0] == before;
  }

  lemma LaterTarget(before: seq<Entry>, entries: seq<FixtureEntry>, j: nat)
    requires j + 1 < |entries|
    ensures TargetAvoids(before, entries, j + 1) <==> TargetAvoids(before + [AsEntry(entries[0])], entries[1..], j)
  {
    hide Beneath;
    assert before + [AsEntry(entries[0])] + AsEntries(entries[1..])[..j] == before + AsEntries(entries)[..j + 1];
  }

  /** Only the type byte NUL is ever read as another kind, so links are what they say they are. */
  lemma KindOfLinks(e: FixtureEntry, symlinks: set<string>)
    ensures EffectiveKind(e.kind, e.name) == HARD_LINK <==> e.kind == HARD_LINK
    ensures EffectiveKind(e.kind, e.name) == SYMLINK <==> e.kind == SYMLINK
    ensures WithEntry(symlinks, EffectiveKind(e.kind, e.name), e.name) == WithEntry(symlinks, e.kind, e.name)
  {
    hide Components, Join;
  }

  lemma {:induction false} InOrderAdmissible(cfg: Config, symlinks: set<string>, entries: seq<FixtureEntry>)
    requires InOrder(cfg, symlinks, entries)
    ensures forall i :: 0 <= i < |entries| ==> Admissible(cfg, {}, AsEntry(entries[i]))
    decreases |entries|
  {
    hide EffectiveKind, WithEntry, Components, InRoot;
    if entries != [] {
      var e := entries[0];
      InOrderAdmissible(cfg, WithEntry(symlinks, EffectiveKind(e.kind, e.name), e.name), entries[1..]);
      forall i | 0 <= i < |entries| ensures Admissible(cfg, {}, AsEntry(entries[i])) {
        if i > 0 {
          assert entries[i] == entries[1..][i - 1];
        }
      }
    }
  }

  /**
   * An ordinary archive in order passes, and its hard links' targets resolve below none of
   * its earlier symlinks if and only if each passes the test that entry names pass.
   */
  lemma WrittenTargetsAvoidIff(volumePath: string, encode: Encoder, decode: Decoder, entries: seq<FixtureEntry>)
    requires AsciiExact(decode)
    requires forall e :: e in entries ==> Fits(encode, decode, e) && Ordinary(e)
    requires InOrder(Config(RestoreTargetFor(volumePath).rootName, decode), {}, entries)
    ensures var t := RestoreTargetFor(volumePath); var parent := Resolve([], t.parentPath);
            && Pass(Config(t.rootName, decode), TarOf(encode, entries)).rejection == None
            && ((forall i, j :: 0 <= i < j < |entries| && entries[i].kind == SYMLINK && entries[j].kind == HARD_LINK ==>
                   !(Resolve(parent, entries[i].name) < Resolve(parent, entries[j].linkName)))
                <==> TargetsAvoid({}, entries))
  {
    hide Resolve, RestoreTargetFor, InOrder, Pass, TarOf, Ordinary, Fits, AsciiExact, Beneath, Components, Admissible,
         TargetsAvoid, EffectiveKind;
    var t := RestoreTargetFor(volumePath);
    var cfg, parent := Config(t.rootName, decode), Resolve([], t.parentPath);
    var all := AsEntries(entries);
    OrdinaryRoundTrip(encode, cfg, entries);
    InOrderAdmissible(cfg, {}, entries);
    TargetsAvoidAfter(cfg, [], entries);
    forall j | 0 <= j < |entries| && entries[j].kind == HARD_LINK
      ensures !TargetAvoids([], entries, j)
              <==> exists i :: 0 <= i < j && entries[i].kind == SYMLINK
                               && Resolve(parent, entries[i].name) < Resolve(parent, entries[j].linkName)
    {
      KindOfLinks(entries[j], {});
      TargetsAreRelative(cfg, all[j]);
      assert [] + all[..j] == all[..j];
      forall i | 0 <= i < j ensures all[..j][i] == AsEntry(entries[i]) && Admissible(cfg, {}, all[..j][i]) {
      }
      forall i | 0 <= i < j ensures all[i].kind == SYMLINK <==> entries[i].kind == SYMLINK {
        KindOfLinks(entries[i], {});
      }
      BeneathIffBelow(cfg, parent, all[..j], entries[j].linkName);
    }
  }

  lemma LinkThroughSymlinkInOrder(decode: Decoder, destination: string)
    ensures InOrder(Config("mail", decode), {}, LinkThroughSymlink(destination))
    ensures forall e :: e in LinkThroughSymlink(destination) ==> Ordinary(e)
  {
    hide ProblemWith, WithEntry;
    var cfg, entries := Config("mail", decode), LinkThroughSymlink(destination);
    LinkTargetThroughSymlink(decode, destination);
    assert entries[1..] == [entries[1]] && entries[1..][1..] == [];
    assert InOrder(cfg, WithEntry({}, SYMLINK, "mail/l"), entries[1..]);
  }

  /** An archive whose hard link points below a symlink of its own passes: targets are not tested against symlinks. */
  lemma LinkTargetThroughSymlinkPasses(encode: Encoder, decode: Decoder, destination: string)
    requires AsciiExact(decode)
    requires forall e :: e in LinkThroughSymlink(destination) ==> Fits(encode, decode, e)
    ensures var archive := TarOf(encode, LinkThroughSymlink(destination));
            var v := Pass(Config("mail", decode), archive);
            v.rejection == None && v.output == archive && |v.admitted| == 2
    ensures Through("mail/l", "mail/l/x")
  {
    hide InOrder, Pass, TarOf, Ordinary, Fits, AsciiExact, LinkThroughSymlink;
    LinkTargetThroughSymlink(decode, destination);
    LinkThroughSymlinkInOrder(decode, destination);
    OrdinaryRoundTrip(encode, Config("mail", decode), LinkThroughSymlink(destination));
    TwoEntries(destination);
  }

  lemma TwoEntries(destination: string)
    ensures |LinkThroughSymlink(destination)| == 2
  {
  }

  function LinkThroughSymlink(destination: string): seq<FixtureEntry> {
    [FixtureEntry("mail/l", SYMLINK, [], destination, None), FixtureEntry("mail/h", HARD_LINK, [], "mail/l/x", None)]
  }
}
