/** What extended headers, as the fixture writes them, do to the entry behind them. */
module TarPreambles {
  import opened Bytes
  import opened Text
  import opened TarHeader
  import opened PaxRecords
  import opened RestoreArchive
  import opened TarFixture
  import opened TarRoundTrip

  // ----- any number of extended headers and one entry -----

  function PreambleBytes(encode: Encoder, preambles: seq<FixtureEntry>): seq<byte> {
    if preambles == [] then [] else EntryBytes(encode, preambles[0]) + PreambleBytes(encode, preambles[1..])
  }

  /** Each preamble is read in the state the one before it left, `metas[0]` being the first. */
  ghost predicate Leads(cfg: Config, metas: seq<Meta>, preambles: seq<FixtureEntry>) {
    |metas| == |preambles| + 1
    && forall i :: 0 <= i < |preambles| ==>
         && ItemOf(cfg, metas[i], {}, preambles[i]) == Extended(BLOCK + |Padded(preambles[i].content)|, metas[i + 1])
         && BodyAgrees(preambles[i])
  }

  lemma LeadsOn(cfg: Config, metas: seq<Meta>, preambles: seq<FixtureEntry>)
    requires Leads(cfg, metas, preambles) && preambles != []
    ensures |metas| == |preambles| + 1 && Leads(cfg, metas[1..], preambles[1..])
    ensures ItemOf(cfg, metas[0], {}, preambles[0]) == Extended(BLOCK + |Padded(preambles[0].content)|, metas[1])
    ensures BodyAgrees(preambles[0])
  {
    hide ItemOf, BodyAgrees;
    var metas', preambles' := metas[1..], preambles[1..];
    forall i | 0 <= i < |preambles'|
      ensures ItemOf(cfg, metas'[i], {}, preambles'[i])
              == Extended(BLOCK + |Padded(preambles'[i].content)|, metas'[i + 1])
      ensures BodyAgrees(preambles'[i])
    {
      assert preambles'[i] == preambles[i + 1] && metas'[i] == metas[i + 1] && metas'[i + 1] == metas[i + 2];
    }
  }

  /**
   * The verdict on preambles and an entry, from the item the entry is read as. Where the
   * size it is read with is not that of its content, the guard goes on as the size says.
   */
  function Behind(encode: Encoder, cfg: Config, item: Item, held: seq<byte>, at: nat,
                  preambles: seq<FixtureEntry>, e: FixtureEntry): Verdict
    requires |held| <= at
  {
    var ahead, bytes := PreambleBytes(encode, preambles), EntryBytes(encode, e);
    match item
    case Admit(kind, name, linkName, dataLength) =>
      var end := at + |ahead| + BLOCK + dataLength;
      var entry := Entry(at - |held|, at + |ahead|, end, kind, name, linkName);
      if dataLength == |Padded(e.content)| then Verdict(held + ahead + bytes + TRAILER, None, [entry])
      else
        After(held + ahead + Header(encode, e), [entry],
              Data(cfg, WithEntry({}, kind, name), dataLength, end, Padded(e.content) + TRAILER))
    case Refuse(why) => Verdict([], Some(why), [])
    case _ => Verdict([], None, [])
  }

  lemma AloneReads(encode: Encoder, cfg: Config, meta: Meta, held: seq<byte>, at: nat, e: FixtureEntry)
    requires |held| <= at && BodyAgrees(e)
    requires var item := ItemOf(cfg, meta, {}, e); item.Admit? || item.Refuse?
    ensures Reading(encode, cfg, meta, {}, held, at, [e])
            == Behind(encode, cfg, ItemOf(cfg, meta, {}, e), held, at, [], e)
  {
    hide ItemOf, EntryBytes, BodyAgrees, WithEntry, Data, Header, Padded;
    var item := ItemOf(cfg, meta, {}, e);
    var bytes := EntryBytes(encode, e);
    assert [e][1..] == [];
    TarOfNone(encode, [e][1..]);
    if item.Admit? {
      var symlinks := WithEntry({}, item.kind, item.name);
      var entry := Entry(at - |held|, at, at + BLOCK + item.dataLength, item.kind, item.name, item.linkName);
      assert Reading(encode, cfg, NO_META, symlinks, [], at + |bytes|, [e][1..]) == Verdict(TRAILER, None, []);
      assert [entry] + [] == [entry] && held + [] == held;
    }
  }

  lemma {:induction false} BehindPreambles(encode: Encoder, cfg: Config, metas: seq<Meta>, held: seq<byte>, at: nat,
                                           preambles: seq<FixtureEntry>, e: FixtureEntry)
    requires |held| <= at && |metas| == |preambles| + 1 && Leads(cfg, metas, preambles)
    requires var item := ItemOf(cfg, metas[|preambles|], {}, e); BodyAgrees(e) && (item.Admit? || item.Refuse?)
    ensures Reading(encode, cfg, metas[0], {}, held, at, preambles + [e])
            == Behind(encode, cfg, ItemOf(cfg, metas[|preambles|], {}, e), held, at, preambles, e)
    decreases |preambles|
  {
    hide ItemOf, EntryBytes, BodyAgrees, Leads, PassFrom, Data, Header, Padded, Behind, TarOf;
    if preambles == [] {
      assert preambles + [e] == [e];
      AloneReads(encode, cfg, metas[0], held, at, e);
    } else {
      LeadsOn(cfg, metas, preambles);
      var first, rest := preambles[0], preambles[1..];
      var bytes := EntryBytes(encode, first);
      assert (preambles + [e])[1..] == rest + [e] && (preambles + [e])[0] == first;
      assert metas[1..][|rest|] == metas[|preambles|] && metas[1..][0] == metas[1];
      BehindPreambles(encode, cfg, metas[1..], held + bytes, at + |bytes|, rest, e);
      StepBehind(encode, cfg, ItemOf(cfg, metas[|preambles|], {}, e), held, at, preambles, e);
    }
  }

  lemma StepBehind(encode: Encoder, cfg: Config, item: Item, held: seq<byte>, at: nat, preambles: seq<FixtureEntry>,
                   e: FixtureEntry)
    requires |held| <= at && preambles != []
    ensures var bytes := EntryBytes(encode, preambles[0]);
            Behind(encode, cfg, item, held + bytes, at + |bytes|, preambles[1..], e)
            == Behind(encode, cfg, item, held, at, preambles, e)
  {
    hide EntryBytes, Data, Header, Padded;
    Associative(held, EntryBytes(encode, preambles[0]), PreambleBytes(encode, preambles[1..]));
  }

  /** The guard's verdict on extended headers and the entry behind them. */
  lemma PreamblesGovern(encode: Encoder, cfg: Config, metas: seq<Meta>, preambles: seq<FixtureEntry>, e: FixtureEntry)
    requires AsciiExact(cfg.decode) && |metas| == |preambles| + 1 && Leads(cfg, metas, preambles) && metas[0] == NO_META
    requires forall p :: p in preambles ==> Fits(encode, cfg.decode, p)
    requires Fits(encode, cfg.decode, e)
    requires var item := ItemOf(cfg, metas[|preambles|], {}, e); BodyAgrees(e) && (item.Admit? || item.Refuse?)
    ensures Pass(cfg, TarOf(encode, preambles + [e]))
            == Behind(encode, cfg, ItemOf(cfg, metas[|preambles|], {}, e), [], 0, preambles, e)
  {
    hide AsciiExact, Fits, ItemOf, Pass, TarOf, Reading, Behind, Leads, BodyAgrees;
    BehindPreambles(encode, cfg, metas, [], 0, preambles, e);
    ReadsBack(encode, cfg, preambles + [e]);
  }

  lemma {:induction false} TarOfPreambles(encode: Encoder, preambles: seq<FixtureEntry>, e: FixtureEntry)
    ensures TarOf(encode, preambles + [e]) == PreambleBytes(encode, preambles) + EntryBytes(encode, e) + TRAILER
  {
    hide EntryBytes;
    if preambles == [] {
      assert preambles + [e] == [e] && [e][1..] == [];
      TarOfNone(encode, [e][1..]);
    } else {
      assert (preambles + [e])[1..] == preambles[1..] + [e] && (preambles + [e])[0] == preambles[0];
      TarOfPreambles(encode, preambles[1..], e);
    }
  }

  /**
   * An entry whose size is that of its content, behind any number of extended headers, passes
   * unchanged as one with them, or nothing of them passes.
   */
  lemma PreamblesPassAsOne(encode: Encoder, cfg: Config, metas: seq<Meta>, preambles: seq<FixtureEntry>,
                           e: FixtureEntry)
    requires AsciiExact(cfg.decode)
    requires |metas| == |preambles| + 1 && Leads(cfg, metas, preambles) && metas[0] == NO_META
    requires forall p :: p in preambles ==> Fits(encode, cfg.decode, p)
    requires Fits(encode, cfg.decode, e) && BodyAgrees(e)
    requires var item := ItemOf(cfg, metas[|preambles|], {}, e);
             item.Refuse? || (item.Admit? && item.dataLength == |Padded(e.content)|)
    ensures var item := ItemOf(cfg, metas[|preambles|], {}, e); var archive := TarOf(encode, preambles + [e]);
            var ahead := |PreambleBytes(encode, preambles)|;
            Pass(cfg, archive)
            == match item
               case Admit(kind, name, linkName, _) =>
                 Verdict(archive, None, [Entry(0, ahead, ahead + |EntryBytes(encode, e)|, kind, name, linkName)])
               case Refuse(why) => Verdict([], Some(why), [])
               case _ => Verdict([], None, [])
  {
    hide AsciiExact, Fits, ItemOf, Pass, TarOf, EntryBytes, PreambleBytes, Leads, BodyAgrees, Header, Padded;
    PreamblesGovern(encode, cfg, metas, preambles, e);
    TarOfPreambles(encode, preambles, e);
    EntryBytesLength(encode, e);
    assert [] + PreambleBytes(encode, preambles) == PreambleBytes(encode, preambles);
  }

  // ----- PAX records -----

  function Get(records: Records, key: string, otherwise: string): string {
    if key in records then records[key] else otherwise
  }

  /** A local PAX header whose body is written records. */
  ghost predicate IsPaxHeader(p: FixtureEntry, texts: seq<string>, fields: seq<Field>) {
    && AreRecords(texts, fields)
    && p.kind == 'x' as int && p.sizeField == None
    && AsciiText(Flatten(texts)) && p.content == AsciiBytes(Flatten(texts)) && |p.content| <= 1048576
  }

  lemma PaxHeaderReads(cfg: Config, meta: Meta, p: FixtureEntry, texts: seq<string>, fields: seq<Field>)
    requires AsciiExact(cfg.decode) && IsPaxHeader(p, texts, fields)
    ensures ItemOf(cfg, meta, {}, p) == Extended(BLOCK + |Padded(p.content)|, meta.(pax := Some(LastWins(fields))))
    ensures BodyAgrees(p)
  {
    hide AsciiExact, AreRecords, ParsePax, LastWins;
    RecordsReadBack(cfg.decode, texts, fields, map[]);
  }

  /** The size an entry's data has behind PAX records; None when the record is no safe decimal number. */
  function SizeBehind(records: Records, otherwise: nat): Option<nat> {
    if "size" !in records then Some(otherwise)
    else
      var text := CodeUnits(records["size"]);
      if IsNumeral(10, text) && NumeralValue(10, text) <= MAX_SAFE_INTEGER then Some(NumeralValue(10, text)) else None
  }

  /** How the guard must see an entry of type `kind` with these names and size. */
  function SeenAs(cfg: Config, kind: byte, name: string, linkName: string, size: Option<nat>): Item {
    var kind' := EffectiveKind(kind, name);
    if size == None then Refuse(BadPaxSize)
    else
      var problem := ProblemWith(cfg, {}, kind', name, linkName);
      if problem.Some? then Refuse(problem.value)
      else Admit(kind', name, linkName, if IsHeaderOnly(kind') then 0 else RoundUpToBlock(size.value))
  }

  /**
   * An entry written behind a PAX header goes by the last value of each record: its path,
   * its link path and its size. It is admitted with its preamble, or refused for what the
   * records say with neither forwarded.
   */
  lemma PaxRecordsGovern(encode: Encoder, cfg: Config, p: FixtureEntry, texts: seq<string>, fields: seq<Field>,
                         e: FixtureEntry)
    requires AsciiExact(cfg.decode) && IsPaxHeader(p, texts, fields)
    requires Fits(encode, cfg.decode, p) && Fits(encode, cfg.decode, e) && IsAcceptedType(e.kind)
    ensures var r := LastWins(fields);
            var item := SeenAs(cfg, e.kind, Get(r, "path", e.name), Get(r, "linkpath", e.linkName),
                               SizeBehind(r, DeclaredSize(e)));
            Pass(cfg, TarOf(encode, [p] + [e])) == Behind(encode, cfg, item, [], 0, [p], e)
  {
    hide AsciiExact, Fits, IsPaxHeader, LastWins, Pass, TarOf, Behind, ProblemWith;
    var meta := NO_META.(pax := Some(LastWins(fields)));
    PaxHeaderReads(cfg, NO_META, p, texts, fields);
    SeenBehindPax(cfg, meta, e);
    hide ItemOf;
    assert Leads(cfg, [NO_META, meta], [p]);
    PreamblesGovern(encode, cfg, [NO_META, meta], [p], e);
  }

  lemma SeenBehindPax(cfg: Config, meta: Meta, e: FixtureEntry)
    requires meta.pax.Some? && meta.longName == None && meta.longLink == None && IsAcceptedType(e.kind)
    ensures var r := meta.pax.value;
            ItemOf(cfg, meta, {}, e)
            == SeenAs(cfg, e.kind, Get(r, "path", e.name), Get(r, "linkpath", e.linkName),
                      SizeBehind(r, DeclaredSize(e)))
  {
    hide ProblemWith;
  }

  // ----- GNU long names -----

  /** A GNU long-name header: the name, with or without a NUL behind it. */
  ghost predicate IsGnuName(decode: Decoder, p: FixtureEntry, name: string) {
    && p.kind == 'L' as int && p.sizeField == None && |p.content| <= 1048576
    && name != "" && decode(UpTo(p.content, 0)) == name
  }

  lemma GnuNameReads(cfg: Config, meta: Meta, p: FixtureEntry, name: string)
    requires IsGnuName(cfg.decode, p, name)
    ensures ItemOf(cfg, meta, {}, p) == Extended(BLOCK + |Padded(p.content)|, meta.(longName := Some(name)))
    ensures BodyAgrees(p)
  {
  }

  /** A GNU long name wins over a PAX path, whichever comes first, and over the header's own name. */
  lemma GnuNameWins(encode: Encoder, cfg: Config, pax: FixtureEntry, texts: seq<string>, fields: seq<Field>,
                    gnu: FixtureEntry, name: string, gnuFirst: bool, e: FixtureEntry)
    requires AsciiExact(cfg.decode) && IsPaxHeader(pax, texts, fields) && IsGnuName(cfg.decode, gnu, name)
    requires Fits(encode, cfg.decode, pax) && Fits(encode, cfg.decode, gnu) && Fits(encode, cfg.decode, e)
             && IsAcceptedType(e.kind)
    ensures var r := LastWins(fields); var preambles := if gnuFirst then [gnu, pax] else [pax, gnu];
            var item := SeenAs(cfg, e.kind, name, Get(r, "linkpath", e.linkName), SizeBehind(r, DeclaredSize(e)));
            Pass(cfg, TarOf(encode, preambles + [e])) == Behind(encode, cfg, item, [], 0, preambles, e)
  {
    hide AsciiExact, Fits, IsPaxHeader, IsGnuName, LastWins, Pass, TarOf, Behind, ProblemWith;
    var onlyPax := NO_META.(pax := Some(LastWins(fields)));
    var onlyGnu := NO_META.(longName := Some(name));
    var both := onlyPax.(longName := Some(name));
    SeenBehindBoth(cfg, both, name, e);
    if gnuFirst {
      GnuNameReads(cfg, NO_META, gnu, name);
      PaxHeaderReads(cfg, onlyGnu, pax, texts, fields);
      hide ItemOf;
      assert Leads(cfg, [NO_META, onlyGnu, both], [gnu, pax]);
      PreamblesGovern(encode, cfg, [NO_META, onlyGnu, both], [gnu, pax], e);
    } else {
      PaxHeaderReads(cfg, NO_META, pax, texts, fields);
      GnuNameReads(cfg, onlyPax, gnu, name);
      hide ItemOf;
      assert Leads(cfg, [NO_META, onlyPax, both], [pax, gnu]);
      PreamblesGovern(encode, cfg, [NO_META, onlyPax, both], [pax, gnu], e);
    }
  }

  lemma SeenBehindBoth(cfg: Config, meta: Meta, name: string, e: FixtureEntry)
    requires meta.pax.Some? && meta.longName == Some(name) && meta.longLink == None && IsAcceptedType(e.kind)
    ensures var r := meta.pax.value;
            ItemOf(cfg, meta, {}, e)
            == SeenAs(cfg, e.kind, name, Get(r, "linkpath", e.linkName), SizeBehind(r, DeclaredSize(e)))
  {
    hide ProblemWith;
  }

  // ----- GNU long links -----

  /** A GNU long-link header: the target, with or without a NUL behind it. */
  ghost predicate IsGnuLink(decode: Decoder, p: FixtureEntry, target: string) {
    && p.kind == 'K' as int && p.sizeField == None && |p.content| <= 1048576
    && target != "" && decode(UpTo(p.content, 0)) == target
  }

  lemma GnuLinkReads(cfg: Config, meta: Meta, p: FixtureEntry, target: string)
    requires IsGnuLink(cfg.decode, p, target)
    ensures ItemOf(cfg, meta, {}, p) == Extended(BLOCK + |Padded(p.content)|, meta.(longLink := Some(target)))
    ensures BodyAgrees(p)
  {
  }

  /**
   * A GNU long link is the target of the entry behind it, over the header's own: a hard link
   * with a long target is judged by that target.
   */
  lemma GnuLinkGoverns(encode: Encoder, cfg: Config, gnu: FixtureEntry, target: string, e: FixtureEntry)
    requires AsciiExact(cfg.decode) && IsGnuLink(cfg.decode, gnu, target)
    requires Fits(encode, cfg.decode, gnu) && Fits(encode, cfg.decode, e) && IsAcceptedType(e.kind)
    ensures Pass(cfg, TarOf(encode, [gnu] + [e]))
            == Behind(encode, cfg, SeenAs(cfg, e.kind, e.name, target, Some(DeclaredSize(e))), [], 0, [gnu], e)
  {
    hide AsciiExact, Fits, IsGnuLink, Pass, TarOf, Behind, ProblemWith;
    var meta := NO_META.(longLink := Some(target));
    GnuLinkReads(cfg, NO_META, gnu, target);
    SeenBehindLink(cfg, meta, target, e);
    hide ItemOf;
    assert Leads(cfg, [NO_META, meta], [gnu]);
    PreamblesGovern(encode, cfg, [NO_META, meta], [gnu], e);
  }

  lemma SeenBehindLink(cfg: Config, meta: Meta, target: string, e: FixtureEntry)
    requires meta == NO_META.(longLink := Some(target)) && IsAcceptedType(e.kind)
    ensures ItemOf(cfg, meta, {}, e) == SeenAs(cfg, e.kind, e.name, target, Some(DeclaredSize(e)))
  {
    hide ProblemWith;
  }

  /** It also wins over a PAX link path, whichever comes first. */
  lemma GnuLinkWins(encode: Encoder, cfg: Config, pax: FixtureEntry, texts: seq<string>, fields: seq<Field>,
                    gnu: FixtureEntry, target: string, gnuFirst: bool, e: FixtureEntry)
    requires AsciiExact(cfg.decode) && IsPaxHeader(pax, texts, fields) && IsGnuLink(cfg.decode, gnu, target)
    requires Fits(encode, cfg.decode, pax) && Fits(encode, cfg.decode, gnu) && Fits(encode, cfg.decode, e)
    requires IsAcceptedType(e.kind)
    ensures var r := LastWins(fields); var preambles := if gnuFirst then [gnu, pax] else [pax, gnu];
            var item := SeenAs(cfg, e.kind, Get(r, "path", e.name), target, SizeBehind(r, DeclaredSize(e)));
            Pass(cfg, TarOf(encode, preambles + [e])) == Behind(encode, cfg, item, [], 0, preambles, e)
  {
    hide AsciiExact, Fits, IsPaxHeader, IsGnuLink, LastWins, Pass, TarOf, Behind, ProblemWith;
    var onlyPax := NO_META.(pax := Some(LastWins(fields)));
    var onlyGnu := NO_META.(longLink := Some(target));
    var both := onlyPax.(longLink := Some(target));
    SeenBehindPaxAndLink(cfg, both, target, e);
    if gnuFirst {
      GnuLinkReads(cfg, NO_META, gnu, target);
      PaxHeaderReads(cfg, onlyGnu, pax, texts, fields);
      hide ItemOf;
      assert Leads(cfg, [NO_META, onlyGnu, both], [gnu, pax]);
      PreamblesGovern(encode, cfg, [NO_META, onlyGnu, both], [gnu, pax], e);
    } else {
      PaxHeaderReads(cfg, NO_META, pax, texts, fields);
      GnuLinkReads(cfg, onlyPax, gnu, target);
      hide ItemOf;
      assert Leads(cfg, [NO_META, onlyPax, both], [pax, gnu]);
      PreamblesGovern(encode, cfg, [NO_META, onlyPax, both], [pax, gnu], e);
    }
  }

  lemma SeenBehindPaxAndLink(cfg: Config, meta: Meta, target: string, e: FixtureEntry)
    requires meta.pax.Some? && meta.longName == None && meta.longLink == Some(target) && IsAcceptedType(e.kind)
    ensures var r := meta.pax.value;
            ItemOf(cfg, meta, {}, e)
            == SeenAs(cfg, e.kind, Get(r, "path", e.name), target, SizeBehind(r, DeclaredSize(e)))
  {
    hide ProblemWith;
  }

  // ----- headers that change nothing, and headers that are refused -----

  /** An empty GNU name or link, and a global PAX header, leave an entry behind them as it was. */
  ghost predicate ChangesNothing(decode: Decoder, p: FixtureEntry, texts: seq<string>, fields: seq<Field>) {
    && p.sizeField == None && |p.content| <= 1048576
    && (((p.kind == 'L' as int || p.kind == 'K' as int) && decode(UpTo(p.content, 0)) == "")
        || (p.kind == 'g' as int && AreRecords(texts, fields) && AsciiText(Flatten(texts))
            && p.content == AsciiBytes(Flatten(texts))))
  }

  lemma NothingReads(cfg: Config, p: FixtureEntry, texts: seq<string>, fields: seq<Field>)
    requires AsciiExact(cfg.decode) && ChangesNothing(cfg.decode, p, texts, fields)
    ensures ItemOf(cfg, NO_META, {}, p) == Extended(BLOCK + |Padded(p.content)|, NO_META) && BodyAgrees(p)
  {
    hide AsciiExact, AreRecords, ParsePax, LastWins;
    if p.kind == 'g' as int {
      RecordsReadBack(cfg.decode, texts, fields, map[]);
    }
  }

  /** Such a header goes out with the entry, which is judged by its own header. */
  lemma NothingGoverns(encode: Encoder, cfg: Config, p: FixtureEntry, texts: seq<string>, fields: seq<Field>,
                       e: FixtureEntry)
    requires AsciiExact(cfg.decode) && ChangesNothing(cfg.decode, p, texts, fields)
    requires Fits(encode, cfg.decode, p) && Fits(encode, cfg.decode, e) && IsAcceptedType(e.kind)
    ensures Pass(cfg, TarOf(encode, [p] + [e]))
            == Behind(encode, cfg, SeenAs(cfg, e.kind, e.name, e.linkName, Some(DeclaredSize(e))), [], 0, [p], e)
  {
    hide AsciiExact, Fits, ChangesNothing, Pass, TarOf, Behind, ProblemWith;
    NothingReads(cfg, p, texts, fields);
    SeenAlone(cfg, e);
    hide ItemOf;
    assert Leads(cfg, [NO_META, NO_META], [p]);
    PreamblesGovern(encode, cfg, [NO_META, NO_META], [p], e);
  }

  lemma SeenAlone(cfg: Config, e: FixtureEntry)
    requires IsAcceptedType(e.kind)
    ensures ItemOf(cfg, NO_META, {}, e) == SeenAs(cfg, e.kind, e.name, e.linkName, Some(DeclaredSize(e)))
  {
    hide ProblemWith;
  }

  /** A PAX header that is not records throughout is refused, and the archive with it. */
  lemma MalformedIsRefused(encode: Encoder, cfg: Config, p: FixtureEntry, rest: seq<FixtureEntry>)
    requires AsciiExact(cfg.decode) && p.kind in {103, 120} && p.sizeField == None && |p.content| <= 1048576
    requires ParsePax(cfg.decode, p.content) == None
    requires forall e :: e in [p] + rest ==> Fits(encode, cfg.decode, e)
    ensures Pass(cfg, TarOf(encode, [p] + rest)) == Verdict([], Some(MalformedPax), [])
  {
    hide AsciiExact, Fits, Pass, TarOf, EntryBytes, ParsePax;
    ReadsBack(encode, cfg, [p] + rest);
    assert ([p] + rest)[0] == p;
  }

  /** An extended header of more than a mebibyte is refused, whatever its body. */
  lemma OversizedIsRefused(encode: Encoder, cfg: Config, p: FixtureEntry, rest: seq<FixtureEntry>)
    requires AsciiExact(cfg.decode) && p.kind in {75, 76, 103, 120} && DeclaredSize(p) > 1048576
    requires forall e :: e in [p] + rest ==> Fits(encode, cfg.decode, e)
    ensures Pass(cfg, TarOf(encode, [p] + rest)) == Verdict([], Some(OversizedExtendedHeader), [])
  {
    hide AsciiExact, Fits, Pass, TarOf, EntryBytes;
    ReadsBack(encode, cfg, [p] + rest);
    assert ([p] + rest)[0] == p;
  }
}
