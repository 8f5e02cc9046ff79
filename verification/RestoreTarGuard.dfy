/**
 * The streaming guard itself: a transform that sees an archive in arbitrary chunks.
 * Its invariant is that, whatever bytes are still to come, the whole-archive pass
 * over everything received and everything to come is what the guard will report.
 */
module RestoreTarGuard {
  import opened Bytes
  import opened Text
  import opened TarHeader
  import opened RestoreArchive
  import opened RestoreConservation

  /** The guard's fields as a value; `held` is the held blocks' bytes. */
  datatype Snapshot = Snapshot(
    sent: seq<byte>, held: seq<byte>, buffered: seq<byte>, dataRemaining: nat,
    meta: Meta, symlinks: set<string>, ended: bool,
    rejection: Option<Refusal>, admitted: seq<Entry>)

  /** The pass over `rest`, from where the guard stands. */
  ghost function Resume(cfg: Config, s: Snapshot, rest: seq<byte>): Verdict {
    if s.ended then Verdict(rest, None, [])
    else if s.dataRemaining > 0 then Data(cfg, s.symlinks, s.dataRemaining, |s.sent| + s.dataRemaining, rest)
    else PassFrom(cfg, s.meta, s.symlinks, s.held, |s.sent| + |s.held|, rest)
  }

  /** What the guard will have reported once `more` has arrived and the stream has ended. */
  ghost function Future(cfg: Config, s: Snapshot, more: seq<byte>): Verdict {
    if s.rejection.Some? then Verdict(s.sent, s.rejection, s.admitted)
    else After(s.sent, s.admitted, Resume(cfg, s, s.buffered + more))
  }

  ghost predicate Tracks(cfg: Config, received: seq<byte>, s: Snapshot) {
    forall more: seq<byte> :: Pass(cfg, received + more) == Future(cfg, s, more)
  }

  /** Every byte received is sent, held or buffered, and the next header is on a block boundary. */
  ghost predicate Accounted(received: seq<byte>, s: Snapshot) {
    s.rejection == None ==>
      && received == s.sent + s.held + s.buffered
      && (s.dataRemaining > 0 ==> s.held == [] && s.meta == NO_META)
      && (!s.ended ==> (|s.sent| + |s.held| + s.dataRemaining) % BLOCK == 0)
      && (s.ended ==> s.held == [])
  }

  function NextItem(cfg: Config, s: Snapshot): Item {
    ReadItem(cfg, s.meta, s.symlinks, s.held != [], s.buffered)
  }

  /** Nothing can be done before more bytes arrive. */
  predicate Idle(cfg: Config, s: Snapshot) {
    s.rejection == None ==>
      if s.ended || s.dataRemaining > 0 then s.buffered == [] else NextItem(cfg, s).NeedMore?
  }

  // ----- the steps of the walk, each of which leaves the future as it was -----

  ghost predicate SameFuture(cfg: Config, s: Snapshot, t: Snapshot) {
    forall more: seq<byte> :: Future(cfg, s, more) == Future(cfg, t, more)
  }

  lemma TracksOn(cfg: Config, received: seq<byte>, s: Snapshot, t: Snapshot)
    requires Tracks(cfg, received, s) && SameFuture(cfg, s, t)
    ensures Tracks(cfg, received, t)
  {
    hide Pass, Future;
    forall more: seq<byte> ensures Pass(cfg, received + more) == Future(cfg, t, more) {
      assert Future(cfg, s, more) == Future(cfg, t, more);
    }
  }

  function PassedOn(s: Snapshot, n: nat): Snapshot
    requires n <= |s.buffered|
  {
    s.(sent := s.sent + s.buffered[..n], buffered := s.buffered[n..])
  }

  lemma EndedStep(cfg: Config, s: Snapshot)
    requires s.rejection == None && s.ended
    ensures SameFuture(cfg, s, PassedOn(s, |s.buffered|))
  {
    forall more: seq<byte> ensures Future(cfg, s, more) == Future(cfg, PassedOn(s, |s.buffered|), more) {
      assert s.sent + (s.buffered + more) == s.sent + s.buffered + more;
    }
  }

  lemma DataSplit(cfg: Config, symlinks: set<string>, d: nat, end: nat, a: seq<byte>, b: seq<byte>)
    requires |a| <= d
    ensures Data(cfg, symlinks, d, end, a + b) == After(a, [], Data(cfg, symlinks, d - |a|, end, b))
  {
    hide PassFrom;
    if |a + b| >= d {
      var k := d - |a|;
      assert (a + b)[d..] == b[k..];
      assert (a + b)[..d] == a + b[..k];
      var inner := PassFrom(cfg, NO_META, symlinks, [], end, b[k..]);
      assert a + b[..k] + inner.output == a + (b[..k] + inner.output);
    }
  }

  lemma ResumeData(cfg: Config, t: Snapshot, end: nat, rest: seq<byte>)
    requires !t.ended && t.held == [] && t.meta == NO_META && end == |t.sent| + t.dataRemaining
    ensures Resume(cfg, t, rest) == Data(cfg, t.symlinks, t.dataRemaining, end, rest)
  {
    hide PassFrom;
    if t.dataRemaining == 0 {
      assert rest[0..] == rest && rest[..0] == [];
      var inner := PassFrom(cfg, NO_META, t.symlinks, [], end, rest);
      assert [] + inner.output == inner.output && [] + inner.admitted == inner.admitted;
    }
  }

  lemma DataStep(cfg: Config, s: Snapshot, n: nat)
    requires s.rejection == None && !s.ended && s.dataRemaining > 0 && s.held == [] && s.meta == NO_META
    requires n <= s.dataRemaining && n <= |s.buffered|
    ensures SameFuture(cfg, s, PassedOn(s, n).(dataRemaining := s.dataRemaining - n))
  {
    hide PassFrom, Data;
    var t := PassedOn(s, n).(dataRemaining := s.dataRemaining - n);
    var a, b := s.buffered[..n], s.buffered[n..];
    var end := |s.sent| + s.dataRemaining;
    forall more: seq<byte> ensures Future(cfg, s, more) == Future(cfg, t, more) {
      assert s.buffered + more == a + (b + more);
      DataSplit(cfg, s.symlinks, s.dataRemaining, end, a, b + more);
      ResumeData(cfg, t, end, b + more);
      var inner := Data(cfg, s.symlinks, s.dataRemaining - n, end, b + more);
      assert s.sent + (a + inner.output) == s.sent + a + inner.output;
      assert s.admitted + ([] + inner.admitted) == s.admitted + inner.admitted;
    }
  }

  ghost predicate AtHeader(s: Snapshot) {
    s.rejection == None && !s.ended && s.dataRemaining == 0
  }

  lemma EndStep(cfg: Config, s: Snapshot)
    requires AtHeader(s) && NextItem(cfg, s).EndOfArchive?
    ensures SameFuture(cfg, s, s.(ended := true))
  {
    hide ReadItem, PassFrom;
    forall more: seq<byte> ensures Future(cfg, s, more) == Future(cfg, s.(ended := true), more) {
      HeadReads(cfg, s, more);
    }
  }

  /** A non-empty buffer's first item decides the pass. */
  lemma HeadReads(cfg: Config, s: Snapshot, more: seq<byte>)
    requires AtHeader(s) && !NextItem(cfg, s).NeedMore?
    ensures s.buffered + more != []
    ensures ReadItem(cfg, s.meta, s.symlinks, s.held != [], s.buffered + more) == NextItem(cfg, s)
    ensures NextItem(cfg, s).EndOfArchive? ==> Resume(cfg, s, s.buffered + more) == Verdict(s.buffered + more, None, [])
    ensures NextItem(cfg, s).Refuse? ==>
              Resume(cfg, s, s.buffered + more) == Verdict([], Some(NextItem(cfg, s).why), [])
  {
    hide ReadItem;
    ReadItemGrows(cfg, s.meta, s.symlinks, s.held != [], s.buffered, more);
    assert |s.buffered| >= BLOCK;
    var item := ReadItem(cfg, s.meta, s.symlinks, s.held != [], s.buffered + more);
    assert item == NextItem(cfg, s);
    assert Resume(cfg, s, s.buffered + more) == PassFrom(cfg, s.meta, s.symlinks, s.held, |s.sent| + |s.held|,
                                                         s.buffered + more);
  }

  lemma RefuseStep(cfg: Config, s: Snapshot, t: Snapshot)
    requires AtHeader(s) && NextItem(cfg, s).Refuse?
    requires t.rejection == Some(NextItem(cfg, s).why) && t.sent == s.sent && t.admitted == s.admitted
    ensures SameFuture(cfg, s, t)
  {
    hide ReadItem, PassFrom;
    forall more: seq<byte> ensures Future(cfg, s, more) == Future(cfg, t, more) {
      HeadReads(cfg, s, more);
      assert s.sent + [] == s.sent && s.admitted + [] == s.admitted;
    }
  }

  function WithHeld(s: Snapshot, n: nat, meta: Meta): Snapshot
    requires n <= |s.buffered|
  {
    s.(held := s.held + s.buffered[..n], buffered := s.buffered[n..], meta := meta)
  }

  lemma ExtendedStep(cfg: Config, s: Snapshot)
    requires AtHeader(s) && NextItem(cfg, s).Extended?
    ensures SameFuture(cfg, s, WithHeld(s, NextItem(cfg, s).length, NextItem(cfg, s).meta))
  {
    hide ReadItem, PassFrom;
    var item := NextItem(cfg, s);
    var n := item.length;
    var t := WithHeld(s, n, item.meta);
    forall more: seq<byte> ensures Future(cfg, s, more) == Future(cfg, t, more) {
      HeadReads(cfg, s, more);
      PassExtended(cfg, s.meta, s.symlinks, s.held, |s.sent| + |s.held|, s.buffered + more);
      assert (s.buffered + more)[..n] == s.buffered[..n];
      assert (s.buffered + more)[n..] == s.buffered[n..] + more;
    }
  }

  /** The snapshot after forwarding an admitted header with its preamble. */
  function Admitted(s: Snapshot, item: Item): Snapshot
    requires item.Admit? && BLOCK <= |s.buffered|
  {
    var at := |s.sent| + |s.held|;
    s.(sent := s.sent + s.held + s.buffered[..BLOCK], held := [], buffered := s.buffered[BLOCK..],
       dataRemaining := item.dataLength, meta := NO_META,
       symlinks := WithEntry(s.symlinks, item.kind, item.name),
       admitted := s.admitted + [Entry(|s.sent|, at, at + BLOCK + item.dataLength, item.kind, item.name,
                                       item.linkName)])
  }

  lemma AdmitStep(cfg: Config, s: Snapshot)
    requires AtHeader(s) && NextItem(cfg, s).Admit?
    ensures SameFuture(cfg, s, Admitted(s, NextItem(cfg, s)))
  {
    hide ReadItem, PassFrom, Data;
    var item := NextItem(cfg, s);
    var t := Admitted(s, item);
    var at := |s.sent| + |s.held|;
    var end := at + BLOCK + item.dataLength;
    var entry := Entry(|s.sent|, at, end, item.kind, item.name, item.linkName);
    forall more: seq<byte> ensures Future(cfg, s, more) == Future(cfg, t, more) {
      HeadReads(cfg, s, more);
      PassAdmitted(cfg, s.meta, s.symlinks, s.held, at, s.buffered + more);
      assert (s.buffered + more)[..BLOCK] == s.buffered[..BLOCK];
      assert (s.buffered + more)[BLOCK..] == t.buffered + more;
      var inner := Data(cfg, t.symlinks, item.dataLength, end, t.buffered + more);
      ResumeData(cfg, t, end, t.buffered + more);
      assert s.sent + (s.held + s.buffered[..BLOCK] + inner.output) == t.sent + inner.output;
      assert s.admitted + ([entry] + inner.admitted) == t.admitted + inner.admitted;
    }
  }

  lemma PassAdmitted(cfg: Config, meta: Meta, symlinks: set<string>, held: seq<byte>, at: nat, rest: seq<byte>)
    requires |held| <= at
    requires ReadItem(cfg, meta, symlinks, held != [], rest).Admit?
    ensures var item := ReadItem(cfg, meta, symlinks, held != [], rest); var end := at + BLOCK + item.dataLength;
            PassFrom(cfg, meta, symlinks, held, at, rest)
            == After(held + rest[..BLOCK], [Entry(at - |held|, at, end, item.kind, item.name, item.linkName)],
                     Data(cfg, WithEntry(symlinks, item.kind, item.name), item.dataLength, end, rest[BLOCK..]))
  {
    hide ReadItem;
  }

  /** At the end of the stream an idle guard's verdict is the pass's. */
  lemma FlushVerdict(cfg: Config, received: seq<byte>, s: Snapshot)
    requires Tracks(cfg, received, s) && Accounted(received, s) && Idle(cfg, s)
    ensures var pending := s.rejection == None && !s.ended && (s.buffered != [] || s.held != [] || s.dataRemaining > 0);
            Pass(cfg, received) == Verdict(s.sent, if pending then Some(EndsPartway) else s.rejection, s.admitted)
  {
    hide ReadItem;
    assert received + [] == received;
    assert Pass(cfg, received + []) == Future(cfg, s, []);
    assert s.buffered + [] == s.buffered;
    assert s.sent + [] == s.sent && s.admitted + [] == s.admitted;
    var item := NextItem(cfg, s);
    assert item == ReadItem(cfg, s.meta, s.symlinks, s.held != [], s.buffered);
  }

  // ----- the same steps, with the accounting -----

  ghost predicate Good(cfg: Config, received: seq<byte>, s: Snapshot) {
    Accounted(received, s) && Tracks(cfg, received, s)
  }

  /** A chunk arriving at an idle guard, before any walking. */
  function Received(s: Snapshot, chunk: seq<byte>): Snapshot {
    if s.rejection.Some? then s
    else if s.ended then s.(sent := s.sent + chunk)
    else s.(buffered := s.buffered + chunk)
  }

  lemma ReceiveKeeps(cfg: Config, before: seq<byte>, s: Snapshot, chunk: seq<byte>)
    requires Good(cfg, before, s) && Idle(cfg, s)
    ensures Good(cfg, before + chunk, Received(s, chunk))
  {
    hide PassFrom, ReadItem, Pass;
    var t := Received(s, chunk);
    forall more: seq<byte> ensures Pass(cfg, before + chunk + more) == Future(cfg, t, more) {
      assert before + chunk + more == before + (chunk + more);
      assert Pass(cfg, before + (chunk + more)) == Future(cfg, s, chunk + more);
      assert s.buffered + (chunk + more) == s.buffered + chunk + more;
      assert s.sent + (chunk + more) == s.sent + chunk + more;
      assert [] + (chunk + more) == chunk + more && [] + more == more;
    }
  }

  lemma EndedKeeps(cfg: Config, received: seq<byte>, s: Snapshot)
    requires Good(cfg, received, s) && s.rejection == None && s.ended
    ensures Good(cfg, received, PassedOn(s, |s.buffered|))
  {
    hide Tracks, SameFuture;
    EndedStep(cfg, s);
    TracksOn(cfg, received, s, PassedOn(s, |s.buffered|));
  }

  lemma DataKeeps(cfg: Config, received: seq<byte>, s: Snapshot, n: nat)
    requires Good(cfg, received, s) && s.rejection == None && !s.ended && s.dataRemaining > 0
    requires n <= s.dataRemaining && n <= |s.buffered|
    ensures Good(cfg, received, PassedOn(s, n).(dataRemaining := s.dataRemaining - n))
  {
    hide Tracks, SameFuture;
    DataStep(cfg, s, n);
    TracksOn(cfg, received, s, PassedOn(s, n).(dataRemaining := s.dataRemaining - n));
  }

  lemma EndKeeps(cfg: Config, received: seq<byte>, s: Snapshot)
    requires Good(cfg, received, s) && AtHeader(s) && NextItem(cfg, s).EndOfArchive?
    ensures Good(cfg, received, s.(ended := true))
  {
    hide Tracks, SameFuture, ReadItem;
    EndStep(cfg, s);
    TracksOn(cfg, received, s, s.(ended := true));
  }

  lemma RefuseKeeps(cfg: Config, received: seq<byte>, s: Snapshot, t: Snapshot)
    requires Good(cfg, received, s) && AtHeader(s) && NextItem(cfg, s).Refuse?
    requires t.rejection == Some(NextItem(cfg, s).why) && t.sent == s.sent && t.admitted == s.admitted
    ensures Good(cfg, received, t)
  {
    hide Tracks, SameFuture, ReadItem;
    RefuseStep(cfg, s, t);
    TracksOn(cfg, received, s, t);
  }

  lemma ExtendedKeeps(cfg: Config, received: seq<byte>, s: Snapshot)
    requires Good(cfg, received, s) && AtHeader(s) && NextItem(cfg, s).Extended?
    ensures Good(cfg, received, WithHeld(s, NextItem(cfg, s).length, NextItem(cfg, s).meta))
  {
    hide Tracks, SameFuture, ReadItem;
    ExtendedStep(cfg, s);
    TracksOn(cfg, received, s, WithHeld(s, NextItem(cfg, s).length, NextItem(cfg, s).meta));
  }

  lemma AdmitKeeps(cfg: Config, received: seq<byte>, s: Snapshot)
    requires Good(cfg, received, s) && AtHeader(s) && NextItem(cfg, s).Admit?
    ensures Good(cfg, received, Admitted(s, NextItem(cfg, s)))
  {
    hide Tracks, SameFuture, ReadItem;
    AdmitStep(cfg, s);
    TracksOn(cfg, received, s, Admitted(s, NextItem(cfg, s)));
  }

  // ----- the transform -----

  const FRESH := Snapshot([], [], [], 0, NO_META, {}, false, None, [])

  lemma FreshIsGood(cfg: Config)
    ensures Good(cfg, [], FRESH) && Idle(cfg, FRESH)
  {
    hide PassFrom, ReadItem;
    forall more: seq<byte> ensures Pass(cfg, [] + more) == Future(cfg, FRESH, more) {
      assert [] + more == more;
      var v := PassFrom(cfg, NO_META, {}, [], 0, more);
      assert [] + v.output == v.output && [] + v.admitted == v.admitted;
    }
    assert NextItem(cfg, FRESH).NeedMore? by { NothingYet(cfg); }
  }

  lemma NothingYet(cfg: Config)
    ensures NextItem(cfg, FRESH).NeedMore?
  {
  }

  class Guard {
    const cfg: Config
    var rejection: Option<Refusal>
    var buffered: seq<byte>
    var dataRemaining: nat
    var held: seq<seq<byte>>
    var paxRecords: Option<Records>
    var gnuLongName: Option<string>
    var gnuLongLink: Option<string>
    var symlinks: set<string>
    var ended: bool
    var pushed: seq<byte>              // everything given to the readable side
    ghost var received: seq<byte>      // everything taken from the writable side
    ghost var admitted: seq<Entry>

    ghost function State(): Snapshot
      reads this
    {
      Snapshot(pushed, Flatten(held), buffered, dataRemaining, Meta(paxRecords, gnuLongName, gnuLongLink),
               symlinks, ended, rejection, admitted)
    }

    ghost predicate HeldBlocks()
      reads this
    {
      Flatten(held) == [] <==> held == []
    }

    ghost predicate Valid()
      reads this
    {
      HeldBlocks() && Good(cfg, received, State())
    }

    constructor (cfg: Config)
      ensures this.cfg == cfg && Valid() && Idle(cfg, State())
      ensures received == [] && pushed == []
    {
      this.cfg := cfg;
      rejection, buffered, dataRemaining, held := None, [], 0, [];
      paxRecords, gnuLongName, gnuLongLink := None, None, None;
      symlinks, ended, pushed, received, admitted := {}, false, [], [], [];
      new;
      hide Good, Idle;
      FreshIsGood(cfg);
    }

    method Reject(reason: Refusal)
      modifies this`rejection, this`buffered, this`held
      ensures rejection == Some(reason) && buffered == [] && held == []
    {
      rejection, buffered, held := Some(reason), [], [];
    }

    /** Takes the next chunk; the guard is left waiting for more, or has refused. */
    method Transform(chunk: seq<byte>)
      requires Valid() && Idle(cfg, State())
      modifies this
      ensures Valid() && Idle(cfg, State())
      ensures received == old(received) + chunk
      ensures old(pushed) <= pushed && (old(rejection).Some? ==> pushed == old(pushed) && rejection == old(rejection))
    {
      hide Good, ReadItem;
      ghost var s := State();
      ReceiveKeeps(cfg, received, s, chunk);
      received := received + chunk;
      if rejection.Some? {
        return;
      }
      if ended {
        pushed := pushed + chunk;
        return;
      }
      buffered := if |buffered| == 0 then chunk else buffered + chunk;
      assert buffered == s.buffered + chunk;
      Walk();
    }

    /** Runs the walk until a refusal or until the buffer holds nothing that can be decided. */
    method Walk()
      requires Valid() && rejection == None
      modifies this
      ensures Valid() && Idle(cfg, State())
      ensures received == old(received) && old(pushed) <= pushed
    {
      hide Good, ReadItem, Flatten;
      while rejection == None
        invariant Valid() && received == old(received) && old(pushed) <= pushed
        decreases |buffered|, if ended then 0 else 1, if rejection == None then 1 else 0
      {
        ghost var s := State();
        if ended {
          if |buffered| > 0 {
            EndedKeeps(cfg, received, s);
            pushed, buffered := pushed + buffered[..|buffered|], buffered[|buffered|..];
          }
          return;
        }
        if dataRemaining > 0 {
          if |buffered| == 0 {
            return;
          }
          var length := if dataRemaining < |buffered| then dataRemaining else |buffered|;
          DataKeeps(cfg, received, s, length);
          pushed, buffered := pushed + buffered[..length], buffered[length..];
          dataRemaining := dataRemaining - length;
          continue;
        }
        var more := WalkHeader();
        if !more {
          return;
        }
      }
    }

    /** The part of the walk that looks at one header; `more` says the loop goes on. */
    method WalkHeader() returns (more: bool)
      requires Valid() && AtHeader(State())
      modifies this
      ensures Valid() && received == old(received) && old(pushed) <= pushed
      ensures !more ==> Idle(cfg, State())
      ensures more ==> rejection == None && (|buffered| < |old(buffered)| || (ended && |buffered| == |old(buffered)|))
    {
      hide Good, ChecksumOk, NumberField, ReadEntry, ReadExtended;
      ghost var s := State();
      if |buffered| < BLOCK {
        return false;
      }
      var header: Block := buffered[..BLOCK];
      if forall i :: 0 <= i < BLOCK ==> header[i] == 0 {
        if |held| > 0 {
          assert NextItem(cfg, s) == Refuse(DanglingExtendedHeader);
          Refused(s, DanglingExtendedHeader);
          return false;
        }
        assert NextItem(cfg, s).EndOfArchive?;
        EndKeeps(cfg, received, s);
        ended := true;
        return true;
      }
      var ok := ChecksumMatches(cfg.decode, header);
      if !ok {
        assert NextItem(cfg, s) == Refuse(BadChecksum);
        Refused(s, BadChecksum);
        return false;
      }
      var ownSize := ReadNumber(cfg.decode, header, 124, 12);
      if ownSize == None {
        assert NextItem(cfg, s) == Refuse(BadSize);
        Refused(s, BadSize);
        return false;
      }
      var kind := header[156];
      if IsExtendedType(kind) {
        if ownSize.value > MAX_META_BODY {
          assert NextItem(cfg, s) == Refuse(OversizedExtendedHeader);
          Refused(s, OversizedExtendedHeader);
          return false;
        }
        var total := BLOCK + RoundUpToBlock(ownSize.value);
        if |buffered| < total {
          assert NextItem(cfg, s).NeedMore?;
          return false;
        }
        more := WalkExtended(kind, ownSize.value);
        return more;
      }
      if !IsAcceptedType(kind) {
        assert NextItem(cfg, s) == Refuse(UnsupportedType(kind));
        Refused(s, UnsupportedType(kind));
        return false;
      }
      more := WalkEntry(header, kind, ownSize.value);
      return more;
    }

    /** An extended header whose whole body is buffered: held back, or refused. */
    method WalkExtended(kind: byte, ownSize: nat) returns (more: bool)
      requires Valid() && AtHeader(State()) && IsExtendedType(kind) && BLOCK + RoundUpToBlock(ownSize) <= |buffered|
      requires NextItem(cfg, State())
               == ReadExtended(cfg, State().meta, kind, buffered[BLOCK..BLOCK + ownSize],
                               BLOCK + RoundUpToBlock(ownSize))
      modifies this
      ensures Valid() && received == old(received) && pushed == old(pushed)
      ensures if more then rejection == None && |buffered| < |old(buffered)| else rejection.Some?
    {
      hide Good, ReadItem, ReadExtended;
      ghost var s := State();
      var total := BLOCK + RoundUpToBlock(ownSize);
      more := ReadMetaHeader(kind, buffered[BLOCK..BLOCK + ownSize], total);
      if more {
        FlattenSnoc(held, buffered[..total]);
        held, buffered := held + [buffered[..total]], buffered[total..];
        ExtendedKeeps(cfg, received, s);
      } else {
        RefuseKeeps(cfg, received, s, State());
      }
    }

    /** A real entry's header: forwarded, or refused. */
    method WalkEntry(header: Block, kind: byte, ownSize: nat) returns (more: bool)
      requires Valid() && AtHeader(State()) && BLOCK <= |buffered| && header == buffered[..BLOCK]
      requires NextItem(cfg, State()) == ReadEntry(cfg, State().meta, symlinks, header, kind, ownSize)
      modifies this
      ensures Valid() && received == old(received) && old(pushed) <= pushed
      ensures if more then rejection == None && |buffered| < |old(buffered)| else rejection.Some?
    {
      hide Good, ReadItem, ReadEntry;
      ghost var s := State();
      more := AdmitEntry(header, kind, ownSize);
      if more {
        AdmitKeeps(cfg, received, s);
      } else {
        RefuseKeeps(cfg, received, s, State());
      }
    }

    /** Cuts the archive at `why`, which is what the header at hand reads as. */
    method Refused(ghost s: Snapshot, why: Refusal)
      requires Valid() && s == State() && AtHeader(s) && NextItem(cfg, s) == Refuse(why)
      modifies this`rejection, this`buffered, this`held
      ensures Valid() && rejection == Some(why)
    {
      hide Good, ReadItem;
      Reject(why);
      RefuseKeeps(cfg, received, s, State());
    }

    ghost predicate CutAt(item: Item)
      reads this
    {
      item.Refuse? && rejection == Some(item.why) && buffered == [] && held == []
    }

    /** Remembers what a PAX or GNU header says, or refuses it. */
    method ReadMetaHeader(kind: byte, body: seq<byte>, ghost total: nat) returns (ok: bool)
      requires IsExtendedType(kind) && rejection == None
      modifies this`rejection, this`buffered, this`held, this`paxRecords, this`gnuLongName, this`gnuLongLink
      ensures var item := ReadExtended(cfg, old(State()).meta, kind, body, total);
              if ok then item.Extended? && State() == old(State()).(meta := item.meta) && held == old(held)
              else CutAt(item)
    {
      if kind == GNU_NAME || kind == GNU_LINK {
        var value := cfg.decode(UpTo(body, 0));
        if kind == GNU_NAME {
          gnuLongName := NonEmpty(value);
        } else {
          gnuLongLink := NonEmpty(value);
        }
        return true;
      }
      var records := ParsePaxRecords(cfg.decode, body);
      if records == None {
        Reject(MalformedPax);
        return false;
      }
      if kind == PAX_LOCAL {
        paxRecords := records;
      }
      return true;
    }

    /** Lets an entry's header out behind the preamble held for it, or refuses both. */
    method AdmitEntry(header: Block, rawKind: byte, ownSize: nat) returns (ok: bool)
      requires AtHeader(State()) && BLOCK <= |buffered| && header == buffered[..BLOCK]
      modifies this
      ensures received == old(received)
      ensures var item := ReadEntry(cfg, old(State()).meta, old(symlinks), header, rawKind, ownSize);
              if ok then item.Admit? && State() == Admitted(old(State()), item) && held == []
              else CutAt(item) && pushed == old(pushed) && admitted == old(admitted)
    {
      hide EffectiveName, EffectiveLink, EffectiveSize, EffectiveKind, ProblemWith, WithEntry, Flatten,
           RoundUpToBlock, IsHeaderOnly, Components, InRoot, NextItem, AtHeader, Join;
      ghost var s := State();
      var meta := Meta(paxRecords, gnuLongName, gnuLongLink);
      var name := EffectiveName(cfg, meta, header);
      var linkName := EffectiveLink(cfg, meta, header);
      var size := EffectiveSize(meta, ownSize);
      if size == None {
        Reject(BadPaxSize);
        return false;
      }
      paxRecords, gnuLongName, gnuLongLink := None, None, None;
      var kind := EffectiveKind(rawKind, name);
      var problem := FindProblem(kind, name, linkName);
      if problem.Some? {
        Reject(problem.value);
        return false;
      }
      Forward(kind, name, linkName, if IsHeaderOnly(kind) then 0 else RoundUpToBlock(size.value));
      return true;
    }

    /** Forwards the held preamble and the header of an entry that was found in order. */
    method Forward(ghost kind: byte, ghost name: string, ghost linkName: string, dataLength: nat)
      requires BLOCK <= |buffered|
      modifies this`pushed, this`buffered, this`held, this`dataRemaining, this`admitted
      ensures held == [] && Flatten(held) == [] && dataRemaining == dataLength && buffered == old(buffered[BLOCK..])
      ensures pushed == old(pushed + Flatten(held) + buffered[..BLOCK])
      ensures var at := |old(pushed)| + |Flatten(old(held))|;
              admitted == old(admitted) + [Entry(|old(pushed)|, at, at + BLOCK + dataLength, kind, name, linkName)]
    {
      ghost var start, at := |pushed|, |pushed| + |Flatten(held)|;
      PushHeld();
      pushed, buffered := pushed + buffered[..BLOCK], buffered[BLOCK..];
      dataRemaining := dataLength;
      admitted := admitted + [Entry(start, at, at + BLOCK + dataLength, kind, name, linkName)];
    }

    /** Forwards the held blocks in order. */
    method PushHeld()
      modifies this`pushed, this`held
      ensures pushed == old(pushed) + Flatten(old(held)) && held == []
    {
      var i := 0;
      assert held[..0] == [];
      while i < |held|
        modifies this`pushed
        invariant 0 <= i <= |held|
        invariant pushed == old(pushed) + Flatten(held[..i])
      {
        FlattenSnoc(held[..i], held[i]);
        assert held[..i + 1] == held[..i] + [held[i]];
        pushed := pushed + held[i];
        i := i + 1;
      }
      assert held[..i] == held;
      held := [];
    }

    /** Why the entry may not be extracted, looking at each ancestor; remembers an accepted symlink. */
    method FindProblem(kind: byte, name: string, linkName: string) returns (problem: Option<Refusal>)
      modifies this`symlinks
      ensures problem == ProblemWith(cfg, old(symlinks), kind, name, linkName)
      ensures symlinks == if problem == None then WithEntry(old(symlinks), kind, name) else old(symlinks)
    {
      if !InRoot(cfg.rootName, name) {
        return Some(OutsideRoot(name));
      }
      var parts := Components(name).value;
      var depth := 1;
      while depth < |parts|
        modifies {}
        invariant 1 <= depth <= |parts|
        invariant forall d :: 1 <= d < depth ==> Join(parts[..d], '/') !in symlinks
      {
        if Join(parts[..depth], '/') in symlinks {
          return Some(BeneathSymlink(name));
        }
        depth := depth + 1;
      }
      if kind == HARD_LINK && !InRoot(cfg.rootName, linkName) {
        return Some(HardLinkOutsideRoot(name));
      }
      if kind == SYMLINK {
        symlinks := symlinks + {Join(parts, '/')};
      }
      return None;
    }

    /** End of input: an archive that stops inside an entry is refused. */
    method Flush() returns (ghost v: Verdict)
      requires Valid() && Idle(cfg, State())
      modifies this`rejection
      ensures v == Pass(cfg, received)
      ensures pushed == v.output && rejection == v.rejection && admitted == v.admitted
    {
      FlushVerdict(cfg, received, State());
      v := Pass(cfg, received);
      if rejection == None && !ended && (|buffered| > 0 || |held| > 0 || dataRemaining > 0) {
        rejection := Some(EndsPartway);
      }
    }
  }

  /** A restore upload: a fresh guard, every chunk in turn, then the end of the stream. */
  method GuardStream(cfg: Config, chunks: seq<seq<byte>>) returns (output: seq<byte>, rejection: Option<Refusal>)
    ensures output == Pass(cfg, Flatten(chunks)).output
    ensures rejection == Pass(cfg, Flatten(chunks)).rejection
  {
    hide Pass, Good, Idle;
    var guard := new Guard(cfg);
    assert chunks[..0] == [];
    for i := 0 to |chunks|
      invariant guard.cfg == cfg && guard.Valid() && Idle(cfg, guard.State())
      invariant guard.received == Flatten(chunks[..i])
      invariant fresh(guard)
    {
      FlattenSnoc(chunks[..i], chunks[i]);
      assert chunks[..i + 1] == chunks[..i] + [chunks[i]];
      guard.Transform(chunks[i]);
    }
    assert chunks[..|chunks|] == chunks;
    ghost var v := guard.Flush();
    output, rejection := guard.pushed, guard.rejection;
  }
}
