/** Byte conservation: what the pass forwards, and where it cuts. */
module RestoreConservation {
  import opened Bytes
  import opened TarHeader
  import opened RestoreArchive

  /** How much of the archive an extended header or an admitted header was read from. */
  function Reach(item: Item): nat {
    if item.Extended? then item.length else BLOCK
  }

  /** An item that is forwarded depends on nothing past its own bytes. */
  lemma ReadItemLocal(cfg: Config, meta: Meta, symlinks: set<string>, holding: bool, rest: seq<byte>, other: seq<byte>)
    requires var item := ReadItem(cfg, meta, symlinks, holding, rest);
             && (item.Extended? || item.Admit?)
             && Reach(item) <= |other| && rest[..Reach(item)] == other[..Reach(item)]
    ensures ReadItem(cfg, meta, symlinks, holding, other) == ReadItem(cfg, meta, symlinks, holding, rest)
  {
    hide ChecksumOk, NumberField, ReadEntry, ReadExtended;
    var item := ReadItem(cfg, meta, symlinks, holding, rest);
    var n := Reach(item);
    assert rest[..BLOCK] == rest[..n][..BLOCK];
    assert other[..BLOCK] == other[..n][..BLOCK];
    if item.Extended? {
      var size := NumberField(cfg.decode, rest[..BLOCK], 124, 12).value;
      assert n == BLOCK + RoundUpToBlock(size);
      assert rest[BLOCK..BLOCK + size] == rest[..n][BLOCK..BLOCK + size];
      assert other[BLOCK..BLOCK + size] == other[..n][BLOCK..BLOCK + size];
    }
  }

  /** Once an item can be read, later bytes do not change it. */
  lemma ReadItemGrows(cfg: Config, meta: Meta, symlinks: set<string>, holding: bool, rest: seq<byte>, more: seq<byte>)
    requires !ReadItem(cfg, meta, symlinks, holding, rest).NeedMore?
    ensures ReadItem(cfg, meta, symlinks, holding, rest + more) == ReadItem(cfg, meta, symlinks, holding, rest)
  {
    hide ChecksumOk, NumberField, ReadEntry, ReadExtended;
    assert (rest + more)[..BLOCK] == rest[..BLOCK];
    var size := NumberField(cfg.decode, rest[..BLOCK], 124, 12);
    if size.Some? && BLOCK + size.value <= |rest| {
      assert (rest + more)[BLOCK..BLOCK + size.value] == rest[BLOCK..BLOCK + size.value];
    }
  }

  /** What an extended header does to the pass. */
  lemma PassExtended(cfg: Config, meta: Meta, symlinks: set<string>, held: seq<byte>, at: nat, rest: seq<byte>)
    requires |held| <= at
    requires ReadItem(cfg, meta, symlinks, held != [], rest).Extended?
    ensures var item := ReadItem(cfg, meta, symlinks, held != [], rest); var n := item.length;
            PassFrom(cfg, meta, symlinks, held, at, rest)
            == PassFrom(cfg, item.meta, symlinks, held + rest[..n], at + n, rest[n..])
  {
    hide ReadItem;
  }

  lemma Regrouped(a: seq<byte>, b: seq<byte>, c: seq<byte>, d: seq<byte>)
    ensures a + b + (c + d) == a + (b + c) + d
  {
    Associative(a + b, c, d);
    Associative(a, b, c);
  }

  /** What an admitted entry whose data is all there does to the pass. */
  lemma PassAdmit(cfg: Config, meta: Meta, symlinks: set<string>, held: seq<byte>, at: nat, rest: seq<byte>)
    requires |held| <= at
    requires var item := ReadItem(cfg, meta, symlinks, held != [], rest);
             item.Admit? && BLOCK + item.dataLength <= |rest|
    ensures var item := ReadItem(cfg, meta, symlinks, held != [], rest); var n := BLOCK + item.dataLength;
            PassFrom(cfg, meta, symlinks, held, at, rest)
            == After(held + rest[..n], [Entry(at - |held|, at, at + n, item.kind, item.name, item.linkName)],
                     PassFrom(cfg, NO_META, WithEntry(symlinks, item.kind, item.name), [], at + n, rest[n..]))
  {
    hide ReadItem;
    var item := ReadItem(cfg, meta, symlinks, held != [], rest);
    var n := BLOCK + item.dataLength;
    var inner := PassFrom(cfg, NO_META, WithEntry(symlinks, item.kind, item.name), [], at + n, rest[n..]);
    assert rest[BLOCK..][item.dataLength..] == rest[n..];
    assert [] + inner.admitted == inner.admitted;
    assert rest[..BLOCK] + rest[BLOCK..][..item.dataLength] == rest[..n];
    Regrouped(held, rest[..BLOCK], rest[BLOCK..][..item.dataLength], inner.output);
  }

  /** A refusal means the data of every admitted entry had arrived. */
  lemma RefusedAfterData(cfg: Config, meta: Meta, symlinks: set<string>, held: seq<byte>, at: nat, rest: seq<byte>)
    requires |held| <= at
    requires RefusedInWalk(PassFrom(cfg, meta, symlinks, held, at, rest))
    ensures var item := ReadItem(cfg, meta, symlinks, held != [], rest);
            item.Admit? ==> BLOCK + item.dataLength <= |rest|
  {
    hide ReadItem;
  }

  predicate RefusedInWalk(v: Verdict) {
    v.rejection.Some? && v.rejection != Some(EndsPartway)
  }

  /** Admitted entries lie end to end from `from`, every header and every end on a block boundary. */
  ghost predicate Contiguous(entries: seq<Entry>, from: nat) {
    entries == [] ||
    (var e := entries[0];
     && e.start == from && from <= e.header && e.header + BLOCK <= e.end
     && e.start % BLOCK == 0 && e.header % BLOCK == 0 && e.end % BLOCK == 0
     && Contiguous(entries[1..], e.end))
  }

  ghost function EndOf(entries: seq<Entry>, from: nat): nat {
    if entries == [] then from else entries[|entries| - 1].end
  }

  /** What every verdict says about the bytes `input` it was given from offset `from` on. */
  ghost predicate Conserves(v: Verdict, input: seq<byte>, from: nat) {
    && v.output <= input
    && (v.rejection == None ==> v.output == input)
    && Contiguous(v.admitted, from)
    && (RefusedInWalk(v) ==> from + |v.output| == EndOf(v.admitted, from))
    && (v.rejection == None ==> EndOf(v.admitted, from) <= from + |input|)
  }

  lemma {:induction false} PassFromConserves(cfg: Config, meta: Meta, symlinks: set<string>, held: seq<byte>, at: nat,
                                             rest: seq<byte>)
    requires |held| <= at && at % BLOCK == 0 && |held| % BLOCK == 0
    ensures Conserves(PassFrom(cfg, meta, symlinks, held, at, rest), held + rest, at - |held|)
    decreases |rest|, 2
  {
    hide ReadItem;
    var item := ReadItem(cfg, meta, symlinks, held != [], rest);
    if rest == [] && held == [] {
    } else if item.Extended? {
      ExtendedConserves(cfg, meta, symlinks, held, at, rest);
    } else if item.Admit? {
      AdmitConserves(cfg, meta, symlinks, held, at, rest);
    }
  }

  lemma BlocksAddUp(a: nat, b: nat)
    requires a % BLOCK == 0 && b % BLOCK == 0
    ensures (a + b) % BLOCK == 0
  {
  }

  lemma {:induction false} ExtendedConserves(cfg: Config, meta: Meta, symlinks: set<string>, held: seq<byte>, at: nat,
                                             rest: seq<byte>)
    requires |held| <= at && at % BLOCK == 0 && |held| % BLOCK == 0
    requires ReadItem(cfg, meta, symlinks, held != [], rest).Extended?
    ensures Conserves(PassFrom(cfg, meta, symlinks, held, at, rest), held + rest, at - |held|)
    decreases |rest|, 1
  {
    hide ReadItem, PassFrom, Conserves;
    var item := ReadItem(cfg, meta, symlinks, held != [], rest);
    var n := item.length;
    var held' := held + rest[..n];
    BlocksAddUp(at, n);
    BlocksAddUp(|held|, n);
    assert |held'| == |held| + n && at + n - |held'| == at - |held|;
    assert held' + rest[n..] == held + rest by {
      assert rest[..n] + rest[n..] == rest;
      Associative(held, rest[..n], rest[n..]);
    }
    PassExtended(cfg, meta, symlinks, held, at, rest);
    PassFromConserves(cfg, item.meta, symlinks, held', at + n, rest[n..]);
  }

  lemma {:induction false} AdmitConserves(cfg: Config, meta: Meta, symlinks: set<string>, held: seq<byte>, at: nat,
                                          rest: seq<byte>)
    requires |held| <= at && at % BLOCK == 0 && |held| % BLOCK == 0
    requires ReadItem(cfg, meta, symlinks, held != [], rest).Admit?
    ensures Conserves(PassFrom(cfg, meta, symlinks, held, at, rest), held + rest, at - |held|)
    decreases |rest|, 1
  {
    hide ReadItem, Data, Conserves, DataConserved;
    var item := ReadItem(cfg, meta, symlinks, held != [], rest);
    var end := at + BLOCK + item.dataLength;
    var symlinks' := WithEntry(symlinks, item.kind, item.name);
    DataConserves(cfg, symlinks', item.dataLength, end, rest[BLOCK..]);
    var entry := Entry(at - |held|, at, end, item.kind, item.name, item.linkName);
    AfterEntry(Data(cfg, symlinks', item.dataLength, end, rest[BLOCK..]), held + rest[..BLOCK], rest[BLOCK..],
               item.dataLength, entry);
    assert held + rest[..BLOCK] + rest[BLOCK..] == held + rest;
  }

  /** Forwarding an entry's header in front of a conserving verdict for its data. */
  lemma AfterEntry(inner: Verdict, head: seq<byte>, tail: seq<byte>, dataLength: nat, e: Entry)
    requires e.start <= e.header && |head| == e.header + BLOCK - e.start && e.end == e.header + BLOCK + dataLength
    requires e.start % BLOCK == 0 && e.header % BLOCK == 0 && e.end % BLOCK == 0
    requires DataConserved(inner, tail, dataLength, e.end)
    ensures Conserves(After(head, [e], inner), head + tail, e.start)
  {
    var v := After(head, [e], inner);
    assert v.admitted[0] == e && v.admitted[1..] == inner.admitted;
    assert v.admitted[|v.admitted| - 1].end == EndOf(inner.admitted, e.end);
  }

  /** What every verdict says about bytes that start with `remaining` bytes of data ending at `end`. */
  ghost predicate DataConserved(v: Verdict, input: seq<byte>, remaining: nat, end: nat) {
    && v.output <= input
    && (v.rejection == None ==> v.output == input)
    && Contiguous(v.admitted, end)
    && (RefusedInWalk(v) ==> end - remaining + |v.output| == EndOf(v.admitted, end))
    && (v.rejection == None ==> EndOf(v.admitted, end) <= end - remaining + |input|)
  }

  lemma {:induction false} DataConserves(cfg: Config, symlinks: set<string>, remaining: nat, end: nat, rest: seq<byte>)
    requires remaining <= end && end % BLOCK == 0
    ensures DataConserved(Data(cfg, symlinks, remaining, end, rest), rest, remaining, end)
    decreases |rest|, 3
  {
    hide PassFrom, Conserves, Contiguous;
    if |rest| >= remaining {
      var head, tail := rest[..remaining], rest[remaining..];
      var inner := PassFrom(cfg, NO_META, symlinks, [], end, tail);
      PassFromConserves(cfg, NO_META, symlinks, [], end, tail);
      assert [] + tail == tail;
      AfterData(inner, head, tail, remaining, end);
      assert head + tail == rest;
    } else {
      assert Contiguous([], end) by { NoEntries(end); }
    }
  }

  lemma NoEntries(from: nat)
    ensures Contiguous([], from)
  {
  }

  lemma AfterData(inner: Verdict, head: seq<byte>, tail: seq<byte>, remaining: nat, end: nat)
    requires |head| == remaining && Conserves(inner, tail, end)
    ensures DataConserved(After(head, [], inner), head + tail, remaining, end)
  {
    assert [] + inner.admitted == inner.admitted;
  }

  /**
   * The output is always a prefix of the archive; it is the whole archive when nothing
   * is refused, and stops exactly where the last admitted entry ends when a header is.
   */
  lemma PassConserves(cfg: Config, archive: seq<byte>)
    ensures Conserves(Pass(cfg, archive), archive, 0)
  {
    PassFromConserves(cfg, NO_META, {}, [], 0, archive);
    assert [] + archive == archive;
  }

  // ----- a cut archive is itself a clean archive -----

  /**
   * `rest` was refused after some entries: reading only what was forwarded admits the
   * same entries and refuses nothing, so no extended header was left dangling.
   */
  lemma {:induction false} ResubmitFrom(cfg: Config, meta: Meta, symlinks: set<string>, held: seq<byte>, at: nat,
                                        rest: seq<byte>)
    requires |held| <= at && at % BLOCK == 0 && |held| % BLOCK == 0
    requires RefusedInWalk(PassFrom(cfg, meta, symlinks, held, at, rest))
    ensures var v := PassFrom(cfg, meta, symlinks, held, at, rest);
            if v.admitted == [] then v.output == []
            else held <= v.output
                 && PassFrom(cfg, meta, symlinks, held, at, v.output[|held|..]) == Verdict(v.output, None, v.admitted)
    decreases |rest|
  {
    hide ReadItem;
    var v := PassFrom(cfg, meta, symlinks, held, at, rest);
    var item := ReadItem(cfg, meta, symlinks, held != [], rest);
    if item.Extended? {
      ResubmitExtended(cfg, meta, symlinks, held, at, rest);
    } else if item.Admit? {
      ResubmitAdmit(cfg, meta, symlinks, held, at, rest);
    }
  }

  lemma {:induction false} ResubmitExtended(cfg: Config, meta: Meta, symlinks: set<string>, held: seq<byte>, at: nat,
                                            rest: seq<byte>)
    requires |held| <= at && at % BLOCK == 0 && |held| % BLOCK == 0
    requires RefusedInWalk(PassFrom(cfg, meta, symlinks, held, at, rest))
    requires ReadItem(cfg, meta, symlinks, held != [], rest).Extended?
    ensures var v := PassFrom(cfg, meta, symlinks, held, at, rest);
            if v.admitted == [] then v.output == []
            else held <= v.output
                 && PassFrom(cfg, meta, symlinks, held, at, v.output[|held|..]) == Verdict(v.output, None, v.admitted)
    decreases |rest|, 0
  {
    hide ReadItem, PassFrom;
    var v := PassFrom(cfg, meta, symlinks, held, at, rest);
    var item := ReadItem(cfg, meta, symlinks, held != [], rest);
    var n := item.length;
    var held' := held + rest[..n];
    PassExtended(cfg, meta, symlinks, held, at, rest);
    ResubmitFrom(cfg, item.meta, symlinks, held', at + n, rest[n..]);
    if v.admitted != [] {
      var cut := v.output[|held|..];
      assert v.output == held' + v.output[|held'|..];
      assert cut == rest[..n] + v.output[|held'|..];
      assert cut[..n] == rest[..n] && cut[n..] == v.output[|held'|..];
      ReadItemLocal(cfg, meta, symlinks, held != [], rest, cut);
      PassExtended(cfg, meta, symlinks, held, at, cut);
    }
  }

  lemma {:induction false} ResubmitAdmit(cfg: Config, meta: Meta, symlinks: set<string>, held: seq<byte>, at: nat,
                                         rest: seq<byte>)
    requires |held| <= at && at % BLOCK == 0 && |held| % BLOCK == 0
    requires RefusedInWalk(PassFrom(cfg, meta, symlinks, held, at, rest))
    requires ReadItem(cfg, meta, symlinks, held != [], rest).Admit?
    ensures var v := PassFrom(cfg, meta, symlinks, held, at, rest);
            && v.admitted != [] && held <= v.output
            && PassFrom(cfg, meta, symlinks, held, at, v.output[|held|..]) == Verdict(v.output, None, v.admitted)
    decreases |rest|, 0
  {
    hide ReadItem, PassFrom;
    RefusedAfterData(cfg, meta, symlinks, held, at, rest);
    PassAdmit(cfg, meta, symlinks, held, at, rest);
    var v := PassFrom(cfg, meta, symlinks, held, at, rest);
    var item := ReadItem(cfg, meta, symlinks, held != [], rest);
    var n := BLOCK + item.dataLength;
    var symlinks' := WithEntry(symlinks, item.kind, item.name);
    var w := PassFrom(cfg, NO_META, symlinks', [], at + n, rest[n..]);
    ResubmitFrom(cfg, NO_META, symlinks', [], at + n, rest[n..]);
    NothingLeft(cfg, symlinks', at + n);
    assert w.output[0..] == w.output;
    var cut := rest[..n] + w.output;
    assert v.output == held + cut && v.output[|held|..] == cut;
    assert cut[..n] == rest[..n] && cut[n..] == w.output;
    assert cut[..BLOCK] == cut[..n][..BLOCK] && rest[..BLOCK] == rest[..n][..BLOCK];
    ReadItemLocal(cfg, meta, symlinks, held != [], rest, cut);
    PassAdmit(cfg, meta, symlinks, held, at, cut);
  }

  lemma NothingLeft(cfg: Config, symlinks: set<string>, at: nat)
    ensures PassFrom(cfg, NO_META, symlinks, [], at, []) == Verdict([], None, [])
  {
  }

  /** Sending a refused archive's output through the guard again accepts it unchanged. */
  lemma Resubmit(cfg: Config, archive: seq<byte>)
    requires RefusedInWalk(Pass(cfg, archive))
    ensures var v := Pass(cfg, archive); Pass(cfg, v.output) == Verdict(v.output, None, v.admitted)
  {
    ResubmitFrom(cfg, NO_META, {}, [], 0, archive);
    var v := Pass(cfg, archive);
    assert v.output[0..] == v.output;
  }
}
