/**
 * The control operations with what they hold on to while the mail server is asked.
 * `create` and `updateCredentials` resolve a binding, await the verification of a
 * password, and then write the binding they resolved; a tool call or a test of a
 * connection awaits the mail server and may then reject the credential it used.
 */
module ConnectionFlights {
  import opened Bytes
  import opened Reconciliation
  import opened ConnectionControl

  /** An operation that awaits, with the binding it resolved. */
  datatype Flight =
    | Creating(binding: nat, ready: bool)                      // `ready` once no password is left to verify
    | Updating(binding: nat, wasActive: bool, stored: bool)    // `wasActive` when it was resolved
    | Checking(binding: nat)

  datatype World = World(store: Store, flights: map<nat, Flight>)

  datatype Action =
    | Do(step: Step)
    | BeginCreate(flight: nat, mailbox: string, fingerprint: string, newId: nat, withPassword: bool)
    | BeginUpdate(flight: nat, connection: nat, fingerprint: string, newId: nat)
    | BeginCheck(flight: nat, connection: nat, vault: Option<string>)
    | Verified(flight: nat, vaultKey: string)
    | FinishCreate(flight: nat, connection: nat, expiresAt: Option<int>, vault: Option<string>)
    | FinishUpdate(flight: nat)
    | Rejected(flight: nat)
    | Ended(flight: nat)

  /** The operations that do not await. */
  predicate AtOnce(step: Step) {
    || step.Enable? || step.Disable? || step.RevokeConnection? || step.DeleteConnection?
    || step.Event? || step.ReconcileList? || step.AddGrant? || step.RevokeGrant?
  }

  function MailboxOf(s: Store, connection: nat): string
    requires HasBindings(s) && connection in s.connections
  {
    s.bindings[s.connections[connection].binding].mailbox
  }

  /** The binding that resolving a mailbox comes to. */
  function Resolved(s: Store, mailbox: string, newId: nat): nat
    requires UniqueLive(s)
  {
    if HasLive(s, mailbox) then LiveOf(s, mailbox) else newId
  }

  predicate CanAct(w: World, a: Action)
    requires Inv(w.store)
  {
    match a
    case Do(step) => AtOnce(step) && CanStep(w.store, step)
    case BeginCreate(f, _, _, newId, _) => f !in w.flights && newId !in w.store.bindings
    case BeginUpdate(f, c, _, newId) =>
      && f !in w.flights && newId !in w.store.bindings
      && c in w.store.connections && w.store.connections[c].state != RevokedConnection
    case BeginCheck(f, c, vault) =>
      f !in w.flights && c in w.store.connections && HealthOf(w.store, w.store.connections[c].binding, vault) == Healthy
    case Verified(f, _) =>
      && f in w.flights && w.flights[f].binding in w.store.bindings
      && ((w.flights[f].Creating? && !w.flights[f].ready) || (w.flights[f].Updating? && !w.flights[f].stored))
    case FinishCreate(f, c, expiresAt, vault) =>
      && f in w.flights && w.flights[f].Creating? && w.flights[f].ready
      && CanStep(w.store, CreateConnection(c, w.flights[f].binding, expiresAt, vault))
    case FinishUpdate(f) =>
      f in w.flights && w.flights[f].Updating? && w.flights[f].stored && w.flights[f].binding in w.store.bindings
    case Rejected(f) => f in w.flights && w.flights[f].Checking? && w.flights[f].binding in w.store.bindings
    case Ended(f) => f in w.flights
  }

  /** What an action does to the tables, which is at most one step. */
  function StepOf(w: World, a: Action): (step: Option<Step>)
    requires Inv(w.store) && CanAct(w, a)
    ensures step.Some? ==> CanStep(w.store, step.value)
  {
    match a
    case Do(step) => Some(step)
    case BeginCreate(_, mailbox, fingerprint, newId, _) => Some(Resolve(mailbox, fingerprint, newId))
    case BeginUpdate(_, c, fingerprint, newId) => Some(Resolve(MailboxOf(w.store, c), fingerprint, newId))
    case BeginCheck(_, _, _) => None
    case Verified(f, key) => Some(StoreCredential(w.flights[f].binding, key))
    case FinishCreate(f, c, expiresAt, vault) => Some(CreateConnection(c, w.flights[f].binding, expiresAt, vault))
    case FinishUpdate(f) => if w.flights[f].wasActive then None else Some(ActivateBinding(w.flights[f].binding))
    case Rejected(f) => Some(RejectCredential(w.flights[f].binding))
    case Ended(_) => None
  }

  function StoreAfter(w: World, a: Action): Store
    requires Inv(w.store) && CanAct(w, a)
  {
    var step := StepOf(w, a);
    if step.Some? then Apply(w.store, step.value) else w.store
  }

  /** What an action does to the table of operations; `s` is the store after it. */
  function FlightsAfter(w: World, a: Action, s: Store): map<nat, Flight>
    requires Inv(w.store) && CanAct(w, a)
  {
    match a
    case Do(_) => w.flights
    case BeginCreate(f, mailbox, _, newId, withPassword) =>
      w.flights[f := Creating(Resolved(w.store, mailbox, newId), !withPassword)]
    case BeginUpdate(f, c, _, newId) =>
      var b := Resolved(w.store, MailboxOf(w.store, c), newId);
      if b != w.store.connections[c].binding then w.flights
      else w.flights[f := Updating(b, b in s.bindings && s.bindings[b].state == Active, false)]
    case BeginCheck(f, c, _) => w.flights[f := Checking(w.store.connections[c].binding)]
    case Verified(f, _) =>
      w.flights[f := match w.flights[f]
                     case Creating(b, _) => Creating(b, true)
                     case Updating(b, wasActive, _) => Updating(b, wasActive, true)
                     case Checking(b) => Checking(b)]
    case _ => w.flights - {a.flight}
  }

  function Act(w: World, a: Action): World
    requires Inv(w.store) && CanAct(w, a)
  {
    var s := StoreAfter(w, a);
    World(s, FlightsAfter(w, a, s))
  }

  // ----- runs -----

  ghost predicate IsRunOf(worlds: seq<World>, actions: seq<Action>) {
    && |worlds| == |actions| + 1 && Inv(worlds[0].store)
    && forall i :: 0 <= i < |actions| ==>
         Inv(worlds[i].store) && CanAct(worlds[i], actions[i]) && worlds[i + 1] == Act(worlds[i], actions[i])
  }

  lemma ActKeeps(w: World, a: Action)
    requires Inv(w.store) && CanAct(w, a)
    ensures Inv(Act(w, a).store)
  {
    hide Inv, Apply, CanStep, StepOf, CanAct;
    var step := StepOf(w, a);
    if step.Some? {
      StepKeeps(w.store, step.value);
    }
  }

  /** What the operations do to the tables is a run of the control steps, so all that holds of those runs holds here. */
  lemma {:induction false} TablesRun(worlds: seq<World>, actions: seq<Action>)
      returns (states: seq<Store>, steps: seq<Step>)
    requires IsRunOf(worlds, actions)
    ensures IsRun(states, steps) && states[0] == worlds[0].store && states[|steps|] == worlds[|actions|].store
    decreases |actions|
  {
    hide Inv, Apply, CanStep, StepOf, CanAct, UniqueLive;
    if actions == [] {
      return [worlds[0].store], [];
    }
    var n := |actions| - 1;
    states, steps := TablesRun(worlds[..n + 1], actions[..n]);
    var step := StepOf(worlds[n], actions[n]);
    assert worlds[..n + 1][n] == worlds[n];
    if step.Some? {
      InvHasUniqueLive(worlds[n].store);
      states, steps := states + [worlds[n + 1].store], steps + [step.value];
    }
  }

  lemma InvHasUniqueLive(s: Store)
    requires Inv(s)
    ensures UniqueLive(s) && HasBindings(s)
  {
  }

  // ----- what creates and updates come to -----

  /** Both begin by resolving the mailbox: it then has a live binding with the fingerprint just read. */
  lemma BothResolve(w: World, a: Action)
    requires Inv(w.store) && CanAct(w, a) && (a.BeginCreate? || a.BeginUpdate?)
    ensures var mailbox := if a.BeginCreate? then a.mailbox else MailboxOf(w.store, a.connection);
            var t := Act(w, a);
            && UniqueLive(t.store) && HasLive(t.store, mailbox)
            && var b := LiveOf(t.store, mailbox);
               && t.store.bindings[b].fingerprint == a.fingerprint && t.store.bindings[b].state != MailboxMissing
               && (a.BeginCreate? ==> a.flight in t.flights && t.flights[a.flight] == Creating(b, !a.withPassword))
               && (a.BeginUpdate? ==>
                     if w.store.connections[a.connection].binding == b
                     then
                       && a.flight in t.flights
                       && t.flights[a.flight] == Updating(b, t.store.bindings[b].state == Active, false)
                     else t.flights == w.flights)
  {
    hide Inv, UniqueLive, ResolveBinding;
    ActKeeps(w, a);
    InvHasUniqueLive(Act(w, a).store);
    InvHasUniqueLive(w.store);
    var mailbox := if a.BeginCreate? then a.mailbox else MailboxOf(w.store, a.connection);
    ResolvedIsLive(w.store, mailbox, a.fingerprint, a.newId);
  }

  lemma ResolvedIsLive(s: Store, mailbox: string, fingerprint: string, newId: nat)
    requires Inv(s) && newId !in s.bindings
    ensures var t := ResolveBinding(s, mailbox, fingerprint, newId); var b := Resolved(s, mailbox, newId);
            && UniqueLive(t) && LiveFor(t, b, mailbox) && HasLive(t, mailbox) && LiveOf(t, mailbox) == b
            && t.bindings[b].fingerprint == fingerprint && t.bindings[b].state != MailboxMissing
  {
    ResolveKeeps(s, mailbox, fingerprint, newId);
    ResolvingAnchors(s, mailbox, fingerprint, newId);
    var t, b := ResolveBinding(s, mailbox, fingerprint, newId), Resolved(s, mailbox, newId);
    assert LiveFor(t, b, mailbox);
  }

  /**
   * An update that nothing comes between leaves its connection's binding active with the new
   * credential, however it was before.
   */
  lemma UpdateRepairs(w: World, f: nat, connection: nat, fingerprint: string, newId: nat, key: string)
    requires Inv(w.store) && CanAct(w, BeginUpdate(f, connection, fingerprint, newId))
    requires var b := w.store.connections[connection].binding;
             HasLive(w.store, w.store.bindings[b].mailbox) && LiveOf(w.store, w.store.bindings[b].mailbox) == b
    ensures var b := w.store.connections[connection].binding;
            var begun := Act(w, BeginUpdate(f, connection, fingerprint, newId));
            && Inv(begun.store) && CanAct(begun, Verified(f, key))
            && var stored := Act(begun, Verified(f, key));
               && Inv(stored.store) && CanAct(stored, FinishUpdate(f))
               && var t := Act(stored, FinishUpdate(f));
                  && b in t.store.bindings && t.store.bindings[b].state == Active
                  && t.store.bindings[b].fingerprint == fingerprint
                  && b in t.store.credentials && t.store.credentials[b] == key && f !in t.flights
  {
    hide Inv, UniqueLive, ResolveBinding;
    InvHasUniqueLive(w.store);
    var begin := BeginUpdate(f, connection, fingerprint, newId);
    BothResolve(w, begin);
    ResolvedIsLive(w.store, MailboxOf(w.store, connection), fingerprint, newId);
    ActKeeps(w, begin);
    ActKeeps(Act(w, begin), Verified(f, key));
  }

  /** One whose binding was active stores its password all the same, and leaves whatever state came between. */
  lemma UpdateLeavesState(w: World, f: nat)
    requires Inv(w.store) && CanAct(w, FinishUpdate(f))
    ensures var t := Act(w, FinishUpdate(f)); var b := w.flights[f].binding;
            && t.flights == w.flights - {f} && t.store.credentials == w.store.credentials && b in t.store.bindings
            && t.store.bindings[b].state == (if w.flights[f].wasActive then w.store.bindings[b].state else Active)
  {
  }

  // ----- deleted mailboxes -----

  /** The operation still has a write of the binding before it, whatever has become of the binding. */
  predicate MayWrite(flight: Flight, id: nat) {
    && flight.binding == id
    && match flight
       case Creating(_, ready) => !ready
       case Updating(_, wasActive, stored) => !stored || !wasActive
       case Checking(_) => true
  }

  predicate NoneMayWrite(w: World, id: nat) {
    forall f :: f in w.flights ==> !MayWrite(w.flights[f], id)
  }

  /** The action is the next write of an operation that may write the binding. */
  predicate WritesFor(w: World, a: Action, id: nat) {
    (a.Verified? || a.FinishUpdate? || a.Rejected?) && a.flight in w.flights && MayWrite(w.flights[a.flight], id)
  }

  lemma SealedAct(w: World, a: Action, id: nat)
    requires Inv(w.store) && CanAct(w, a) && Sealed(w.store, id)
    ensures Sealed(Act(w, a).store, id) <==> !WritesFor(w, a, id)
  {
    hide Inv, Apply, Sealed, CanStep;
    var step := StepOf(w, a);
    if step.Some? {
      SealedStep(w.store, step.value, id);
    }
  }

  /** While a binding is sealed no operation begins on it. */
  lemma NoNewWriters(w: World, a: Action, id: nat)
    requires Inv(w.store) && CanAct(w, a) && Sealed(w.store, id)
    ensures var t := Act(w, a);
            forall f :: f in t.flights && MayWrite(t.flights[f], id) ==> f in w.flights && MayWrite(w.flights[f], id)
  {
    hide Apply, CanStep, GrantsAreHeld, HasNoAccess;
  }

  /** The run leaves the binding sealed at every moment from `i` to `n`. */
  ghost predicate StaysSealed(worlds: seq<World>, i: nat, n: nat, id: nat)
    requires n < |worlds|
  {
    forall m :: i <= m <= n ==> Sealed(worlds[m].store, id)
  }

  /**
   * Over every run, a sealed binding stays sealed exactly until an operation that was under way at
   * the start writes it.
   */
  lemma {:induction false} SealedUntilWritten(worlds: seq<World>, actions: seq<Action>, i: nat, n: nat, id: nat)
    requires IsRunOf(worlds, actions) && i <= n < |worlds| && Sealed(worlds[i].store, id)
    ensures StaysSealed(worlds, i, n, id) <==> forall k :: i <= k < n ==> !WritesFor(worlds[k], actions[k], id)
    ensures StaysSealed(worlds, i, n, id) ==>
              forall f :: f in worlds[n].flights && MayWrite(worlds[n].flights[f], id) ==>
                f in worlds[i].flights && MayWrite(worlds[i].flights[f], id)
    decreases n
  {
    hide Inv, CanAct, Act, Sealed, WritesFor, MayWrite;
    if n > i {
      SealedUntilWritten(worlds, actions, i, n - 1, id);
      if StaysSealed(worlds, i, n - 1, id) {
        assert Sealed(worlds[n - 1].store, id);
        SealedAct(worlds[n - 1], actions[n - 1], id);
        NoNewWriters(worlds[n - 1], actions[n - 1], id);
        assert Sealed(worlds[n].store, id) <==> !WritesFor(worlds[n - 1], actions[n - 1], id);
      } else {
        var k :| i <= k < n - 1 && WritesFor(worlds[k], actions[k], id);
      }
    }
  }

  /** Whatever is done from here on, the binding stays sealed. */
  ghost predicate ForGood(w: World, id: nat) {
    forall worlds: seq<World>, actions :: IsRunOf(worlds, actions) && worlds[0] == w ==>
      Sealed(worlds[|actions|].store, id)
  }

  lemma {:induction false} NoWriterNoWrite(worlds: seq<World>, actions: seq<Action>, n: nat, id: nat)
    requires IsRunOf(worlds, actions) && n < |worlds| && Sealed(worlds[0].store, id) && NoneMayWrite(worlds[0], id)
    ensures StaysSealed(worlds, 0, n, id)
  {
    hide Inv, CanAct, Act, Sealed, MayWrite;
    if n > 0 {
      NoWriterNoWrite(worlds, actions, n - 1, id);
      SealedUntilWritten(worlds, actions, 0, n - 1, id);
      assert Sealed(worlds[n - 1].store, id);
      SealedAct(worlds[n - 1], actions[n - 1], id);
    }
  }

  /** What an operation that may write the binding may do next. */
  function NextWrite(w: World, f: nat, id: nat): (a: Action)
    requires Inv(w.store) && Sealed(w.store, id) && f in w.flights && MayWrite(w.flights[f], id)
    ensures CanAct(w, a) && WritesFor(w, a, id)
  {
    match w.flights[f]
    case Creating(_, _) => Verified(f, "k")
    case Updating(_, _, stored) => if stored then FinishUpdate(f) else Verified(f, "k")
    case Checking(_) => Rejected(f)
  }

  /** A sealed binding is sealed for good if and only if no operation under way may write it. */
  lemma ForGoodIff(w: World, id: nat)
    requires Inv(w.store) && Sealed(w.store, id)
    ensures ForGood(w, id) <==> NoneMayWrite(w, id)
  {
    hide Inv, CanAct, Act, Sealed, MayWrite, WritesFor;
    if NoneMayWrite(w, id) {
      forall worlds: seq<World>, actions | IsRunOf(worlds, actions) && worlds[0] == w
        ensures Sealed(worlds[|actions|].store, id)
      {
        NoWriterNoWrite(worlds, actions, |actions|, id);
      }
    } else {
      var f :| f in w.flights && MayWrite(w.flights[f], id);
      var a := NextWrite(w, f, id);
      SealedAct(w, a, id);
      assert IsRunOf([w, Act(w, a)], [a]);
      assert [w, Act(w, a)][|[a]|] == Act(w, a);
    }
  }

  /**
   * A deleted mailbox's identity is revoked for good, with everything that hung off it, if and
   * only if at the deletion no operation that resolved its binding has a write of it left.
   */
  lemma DeletedForGoodIff(w: World, mailbox: string)
    requires Inv(w.store) && HasLive(w.store, mailbox)
    ensures var id := LiveOf(w.store, mailbox); var t := Act(w, Do(Event(mailbox, Deleted)));
            && Inv(t.store) && Sealed(t.store, id)
            && (ForGood(t, id) <==> NoneMayWrite(w, id))
  {
    hide Inv, Sealed, ForGood, MayWrite;
    InvHasUniqueLive(w.store);
    var deletion := Do(Event(mailbox, Deleted));
    DeletedMailboxLeavesNothing(w.store, mailbox, None, 0);
    ActKeeps(w, deletion);
    ForGoodIff(Act(w, deletion), LiveOf(w.store, mailbox));
  }

  /** In a run, what first breaks the seal is a write by an operation that was under way at the deletion. */
  lemma FirstWriteWasUnderWay(worlds: seq<World>, actions: seq<Action>, i: nat, n: nat, mailbox: string)
    requires IsRunOf(worlds, actions) && i < n < |worlds|
    requires actions[i] == Do(Event(mailbox, Deleted)) && HasLive(worlds[i].store, mailbox)
    ensures Inv(worlds[i].store)
    ensures var id := LiveOf(worlds[i].store, mailbox);
            || StaysSealed(worlds, i + 1, n, id)
            || exists k :: i < k < n && StaysSealed(worlds, i + 1, k, id) && WritesFor(worlds[k], actions[k], id)
                           && actions[k].flight in worlds[i].flights
                              && MayWrite(worlds[i].flights[actions[k].flight], id)
  {
    hide Inv, CanAct, Act, Sealed, MayWrite;
    InvHasUniqueLive(worlds[i].store);
    var id := LiveOf(worlds[i].store, mailbox);
    DeletionSeals(worlds[i], mailbox);
    if !StaysSealed(worlds, i + 1, n, id) {
      var k := FirstWrite(worlds, actions, i + 1, n, id);
      SealedUntilWritten(worlds, actions, i + 1, k, id);
      assert worlds[i + 1].flights == worlds[i].flights;
    }
  }

  lemma DeletionSeals(w: World, mailbox: string)
    requires Inv(w.store) && HasLive(w.store, mailbox)
    ensures var t := Act(w, Do(Event(mailbox, Deleted)));
            t.flights == w.flights && Sealed(t.store, LiveOf(w.store, mailbox))
  {
    hide Inv, Sealed;
    DeletedMailboxLeavesNothing(w.store, mailbox, None, 0);
  }

  lemma {:induction false} FirstWrite(worlds: seq<World>, actions: seq<Action>, i: nat, n: nat, id: nat)
      returns (k: nat)
    requires IsRunOf(worlds, actions) && i <= n < |worlds| && Sealed(worlds[i].store, id)
    requires !StaysSealed(worlds, i, n, id)
    ensures i <= k < n && StaysSealed(worlds, i, k, id) && WritesFor(worlds[k], actions[k], id)
    decreases n
  {
    hide Inv, CanAct, Act, Sealed, WritesFor;
    if n == i {
      assert false;
    } else if !StaysSealed(worlds, i, n - 1, id) {
      k := FirstWrite(worlds, actions, i, n - 1, id);
    } else {
      k := n - 1;
      assert Sealed(worlds[k].store, id);
      SealedAct(worlds[k], actions[k], id);
    }
  }

  // ----- a deletion that does not last -----

  function Tables(state: BindingState, revoked: bool, credentials: map<nat, string>,
                  connections: map<nat, Connection>): Store
  {
    Store(map[0 := Binding("m", "f", state, revoked)], credentials, connections, {}, connections.Keys)
  }

  predicate Goes(w: World, a: Action, t: World) {
    Inv(w.store) && CanAct(w, a) && t == Act(w, a)
  }

  const LIVE := Connection(0, Enabled, None)
  const GONE := Connection(0, RevokedConnection, None)

  lemma BeginsToCreate()
    ensures Goes(World(NOTHING, map[]), BeginCreate(0, "m", "f", 0, true),
                 World(Tables(Active, false, map[], map[]), map[0 := Creating(0, false)]))
  {
  }

  lemma StoresFirst()
    ensures Goes(World(Tables(Active, false, map[], map[]), map[0 := Creating(0, false)]), Verified(0, "k"),
                 World(Tables(Active, false, map[0 := "k"], map[]), map[0 := Creating(0, true)]))
  {
  }

  lemma MakesFirst()
    ensures Goes(World(Tables(Active, false, map[0 := "k"], map[]), map[0 := Creating(0, true)]),
                 FinishCreate(0, 1, None, Some("k")),
                 World(Tables(Active, false, map[0 := "k"], map[1 := LIVE]), map[]))
  {
  }

  lemma RejectsIt()
    ensures Goes(World(Tables(Active, false, map[0 := "k"], map[1 := LIVE]), map[]), BeginCheck(0, 1, Some("k")),
                 World(Tables(Active, false, map[0 := "k"], map[1 := LIVE]), map[0 := Checking(0)]))
    ensures Goes(World(Tables(Active, false, map[0 := "k"], map[1 := LIVE]), map[0 := Checking(0)]), Rejected(0),
                 World(Tables(Invalid, false, map[], map[1 := LIVE]), map[]))
  {
  }

  lemma ResolvesItTwice()
    ensures Goes(World(Tables(Invalid, false, map[], map[1 := LIVE]), map[]), BeginUpdate(0, 1, "f", 9),
                 World(Tables(Invalid, false, map[], map[1 := LIVE]), map[0 := Updating(0, false, false)]))
    ensures Goes(World(Tables(Invalid, false, map[], map[1 := LIVE]), map[0 := Updating(0, false, false)]),
                 BeginCreate(1, "m", "f", 9, true),
                 World(Tables(Invalid, false, map[], map[1 := LIVE]),
                       map[0 := Updating(0, false, false), 1 := Creating(0, false)]))
  {
    var s := Tables(Invalid, false, map[], map[1 := LIVE]);
    assert LiveFor(s, 0, "m") && LiveOf(s, "m") == 0;
  }

  lemma DeletesIt()
    ensures Goes(World(Tables(Invalid, false, map[], map[1 := LIVE]),
                       map[0 := Updating(0, false, false), 1 := Creating(0, false)]),
                 Do(Event("m", Deleted)),
                 World(Tables(Revoked, true, map[], map[1 := GONE]),
                       map[0 := Updating(0, false, false), 1 := Creating(0, false)]))
  {
    var s := Tables(Invalid, false, map[], map[1 := LIVE]);
    assert LiveFor(s, 0, "m") && LiveOf(s, "m") == 0;
  }

  lemma StoresUpdate()
    ensures Goes(World(Tables(Revoked, true, map[], map[1 := GONE]),
                       map[0 := Updating(0, false, false), 1 := Creating(0, false)]),
                 Verified(0, "k"),
                 World(Tables(Revoked, true, map[0 := "k"], map[1 := GONE]),
                       map[0 := Updating(0, false, true), 1 := Creating(0, false)]))
  {
  }

  lemma ActivatesIt()
    ensures Goes(World(Tables(Revoked, true, map[0 := "k"], map[1 := GONE]),
                       map[0 := Updating(0, false, true), 1 := Creating(0, false)]),
                 FinishUpdate(0),
                 World(Tables(Active, true, map[0 := "k"], map[1 := GONE]), map[1 := Creating(0, false)]))
  {
  }

  lemma StoresSecond()
    ensures Goes(World(Tables(Active, true, map[0 := "k"], map[1 := GONE]), map[1 := Creating(0, false)]),
                 Verified(1, "k"),
                 World(Tables(Active, true, map[0 := "k"], map[1 := GONE]), map[1 := Creating(0, true)]))
  {
  }

  lemma MakesSecond()
    ensures Goes(World(Tables(Active, true, map[0 := "k"], map[1 := GONE]), map[1 := Creating(0, true)]),
                 FinishCreate(1, 2, None, Some("k")),
                 World(Tables(Active, true, map[0 := "k"], map[1 := GONE, 2 := LIVE]), map[]))
  {
  }

  lemma AnotherIsUsable()
    ensures var s := Tables(Active, true, map[0 := "k"], map[1 := GONE, 2 := LIVE]);
            2 in s.connections && s.connections[2].binding == 0 && 0 in s.bindings && s.bindings[0].revoked
            && Usable(StatusOf(s, 2, Some("k"), 0))
  {
  }

  /**
   * It can happen. A credential is rejected; while an update of it and another `create` await the
   * mail server, the mailbox is deleted. The update stores its password and activates the
   * binding, and the `create` makes a usable connection on it.
   */
  lemma DeletedMailboxRevives() returns (worlds: seq<World>, actions: seq<Action>)
    ensures actions == [BeginCreate(0, "m", "f", 0, true), Verified(0, "k"), FinishCreate(0, 1, None, Some("k")),
                        BeginCheck(0, 1, Some("k")), Rejected(0),
                        BeginUpdate(0, 1, "f", 9), BeginCreate(1, "m", "f", 9, true),
                        Do(Event("m", Deleted)),
                        Verified(0, "k"), FinishUpdate(0), Verified(1, "k"), FinishCreate(1, 2, None, Some("k"))]
    ensures IsRunOf(worlds, actions) && worlds[0] == World(NOTHING, map[])
    ensures var s := worlds[12].store;
            2 in s.connections && s.connections[2].binding == 0 && 0 in s.bindings && s.bindings[0].revoked
            && Usable(StatusOf(s, 2, Some("k"), 0))
  {
    hide Act, CanAct, Inv, Tables, StatusOf, Usable;
    BeginsToCreate();
    StoresFirst();
    MakesFirst();
    RejectsIt();
    ResolvesItTwice();
    DeletesIt();
    StoresUpdate();
    ActivatesIt();
    StoresSecond();
    MakesSecond();
    AnotherIsUsable();
    var update, create := Updating(0, false, false), Creating(0, false);
    actions := [BeginCreate(0, "m", "f", 0, true), Verified(0, "k"), FinishCreate(0, 1, None, Some("k")),
                BeginCheck(0, 1, Some("k")), Rejected(0),
                BeginUpdate(0, 1, "f", 9), BeginCreate(1, "m", "f", 9, true),
                Do(Event("m", Deleted)),
                Verified(0, "k"), FinishUpdate(0), Verified(1, "k"), FinishCreate(1, 2, None, Some("k"))];
    worlds := [World(NOTHING, map[]),
               World(Tables(Active, false, map[], map[]), map[0 := create]),
               World(Tables(Active, false, map[0 := "k"], map[]), map[0 := Creating(0, true)]),
               World(Tables(Active, false, map[0 := "k"], map[1 := LIVE]), map[]),
               World(Tables(Active, false, map[0 := "k"], map[1 := LIVE]), map[0 := Checking(0)]),
               World(Tables(Invalid, false, map[], map[1 := LIVE]), map[]),
               World(Tables(Invalid, false, map[], map[1 := LIVE]), map[0 := update]),
               World(Tables(Invalid, false, map[], map[1 := LIVE]), map[0 := update, 1 := create]),
               World(Tables(Revoked, true, map[], map[1 := GONE]), map[0 := update, 1 := create]),
               World(Tables(Revoked, true, map[0 := "k"], map[1 := GONE]),
                     map[0 := Updating(0, false, true), 1 := create]),
               World(Tables(Active, true, map[0 := "k"], map[1 := GONE]), map[1 := create]),
               World(Tables(Active, true, map[0 := "k"], map[1 := GONE]), map[1 := Creating(0, true)]),
               World(Tables(Active, true, map[0 := "k"], map[1 := GONE, 2 := LIVE]), map[])];
  }
}
