/**
 * Mailbox bindings and the connections that hang off them: what the control
 * operations and the periodic reconciliation do to the store.
 */
module Reconciliation {
  import opened Bytes

  datatype BindingState = Active | Stale | Invalid | MailboxMissing | Revoked

  /** `revoked` is a set `revoked_at`, which is what makes a binding no longer live. */
  datatype Binding = Binding(mailbox: string, fingerprint: string, state: BindingState, revoked: bool)

  datatype ConnectionState = Enabled | Disabled | RevokedConnection

  datatype Connection = Connection(binding: nat, state: ConnectionState, expiresAt: Option<int>)

  /** An active grant of a connection. */
  datatype Grant = Grant(connection: nat, id: nat)

  /** The tables; `credentials` holds each stored credential's vault key, `known` every connection id ever used. */
  datatype Store = Store(
    bindings: map<nat, Binding>,
    credentials: map<nat, string>,
    connections: map<nat, Connection>,
    grants: set<Grant>,
    known: set<nat>)

  // ----- repository updates -----

  function SetBindingState(s: Store, id: nat, state: BindingState): Store
    requires id in s.bindings
  {
    var b := s.bindings[id];
    s.(bindings := s.bindings[id := b.(state := state, revoked := b.revoked || state == Revoked)])
  }

  function DeleteCredential(s: Store, id: nat): Store {
    s.(credentials := s.credentials - {id})
  }

  /** Whether a connection hangs off a binding. */
  predicate Of(s: Store, connection: nat, binding: nat) {
    connection in s.connections && s.connections[connection].binding == binding
  }

  function RevokeGrantsOf(s: Store, binding: nat): Store {
    s.(grants := set g | g in s.grants && !Of(s, g.connection, binding))
  }

  // ----- identity lifecycle -----

  /** Wipes the credential and revokes every grant of every connection of the binding. */
  function InvalidateBinding(s: Store, id: nat, state: BindingState): Store
    requires id in s.bindings
  {
    RevokeGrantsOf(SetBindingState(DeleteCredential(s, id), id, state), id)
  }

  /** What the mailbox list says about one binding: its fingerprint there, or that it is missing. */
  function Reading(byMailbox: map<string, string>, b: Binding): Option<string> {
    if b.mailbox in byMailbox then Some(byMailbox[b.mailbox]) else None
  }

  predicate GoesMissing(b: Binding, reading: Option<string>) {
    !b.revoked && reading == None && b.state != MailboxMissing
  }

  predicate GoesStale(b: Binding, reading: Option<string>) {
    !b.revoked && reading.Some? && reading.value != b.fingerprint && b.state != Stale
  }

  predicate ComesBack(b: Binding, reading: Option<string>) {
    !b.revoked && reading == Some(b.fingerprint) && b.state == MailboxMissing
  }

  function ReconcileBinding(b: Binding, reading: Option<string>): Binding {
    if GoesMissing(b, reading) then b.(state := MailboxMissing)
    else if GoesStale(b, reading) then b.(state := Stale)
    else if ComesBack(b, reading) then b.(state := Active)
    else b
  }

  /** Every binding of `ids` reconciled on its own, each with its credential and grants. */
  function ReconcileThese(s: Store, byMailbox: map<string, string>, ids: set<nat>): Store {
    s.(bindings := map id | id in s.bindings ::
                     if id in ids then ReconcileBinding(s.bindings[id], Reading(byMailbox, s.bindings[id]))
                     else s.bindings[id],
       credentials := map id | id in s.credentials && !WipedBy(s, byMailbox, ids, id) :: s.credentials[id],
       grants := set g | g in s.grants && !(g.connection in s.connections
                                            && WipedBy(s, byMailbox, ids, s.connections[g.connection].binding)))
  }

  predicate WipedBy(s: Store, byMailbox: map<string, string>, ids: set<nat>, id: nat) {
    id in ids && id in s.bindings && GoesStale(s.bindings[id], Reading(byMailbox, s.bindings[id]))
  }

  function LiveBindings(s: Store): set<nat> {
    set id | id in s.bindings && !s.bindings[id].revoked
  }

  function Reconcile(s: Store, byMailbox: map<string, string>): Store {
    ReconcileThese(s, byMailbox, LiveBindings(s))
  }

  datatype Entry = Entry(mailbox: string, fingerprint: string)

  function ByMailbox(entries: seq<Entry>): map<string, string> {
    if entries == [] then map[]
    else ByMailbox(entries[..|entries| - 1])[entries[|entries| - 1].mailbox := entries[|entries| - 1].fingerprint]
  }

  datatype Counts = Counts(checked: nat, stale: nat, missing: nat, restored: nat)

  function Where(ids: set<nat>, p: nat -> bool): set<nat> {
    set id | id in ids && p(id)
  }

  function StaleTest(s: Store, byMailbox: map<string, string>): nat -> bool {
    id => id in s.bindings && GoesStale(s.bindings[id], Reading(byMailbox, s.bindings[id]))
  }

  function MissingTest(s: Store, byMailbox: map<string, string>): nat -> bool {
    id => id in s.bindings && GoesMissing(s.bindings[id], Reading(byMailbox, s.bindings[id]))
  }

  function RestoredTest(s: Store, byMailbox: map<string, string>): nat -> bool {
    id => id in s.bindings && ComesBack(s.bindings[id], Reading(byMailbox, s.bindings[id]))
  }

  function CountsOf(s: Store, byMailbox: map<string, string>, ids: set<nat>): Counts {
    Counts(|ids|, |Where(ids, StaleTest(s, byMailbox))|, |Where(ids, MissingTest(s, byMailbox))|,
           |Where(ids, RestoredTest(s, byMailbox))|)
  }

  lemma WhereOneMore(ids: set<nat>, id: nat, p: nat -> bool)
    requires id !in ids
    ensures |Where(ids + {id}, p)| == |Where(ids, p)| + if p(id) then 1 else 0
  {
    assert Where(ids + {id}, p) == Where(ids, p) + if p(id) then {id} else {};
  }

  function Elements(ids: seq<nat>): set<nat> {
    set id | id in ids
  }

  /** The updates the loop makes for one binding. */
  function ReconcileOne(s: Store, id: nat, reading: Option<string>): Store
    requires id in s.bindings
  {
    var b := s.bindings[id];
    if GoesMissing(b, reading) then SetBindingState(s, id, MailboxMissing)
    else if GoesStale(b, reading) then InvalidateBinding(s, id, Stale)
    else if ComesBack(b, reading) then SetBindingState(s, id, Active)
    else s
  }

  /** Adding one binding to those reconciled. */
  lemma ReconcileOneMore(s: Store, byMailbox: map<string, string>, done: set<nat>, id: nat)
    requires id in s.bindings && id !in done && !s.bindings[id].revoked
    ensures var t := ReconcileThese(s, byMailbox, done); var u := ReconcileThese(s, byMailbox, done + {id});
            var b := s.bindings[id]; var reading := Reading(byMailbox, b);
            && id in t.bindings && t.bindings[id] == b
            && u == ReconcileOne(t, id, reading)
  {
    var t, u := ReconcileThese(s, byMailbox, done), ReconcileThese(s, byMailbox, done + {id});
    var b := s.bindings[id];
    var reading := Reading(byMailbox, b);
    assert u.bindings == t.bindings[id := ReconcileBinding(b, reading)];
    if !GoesStale(b, reading) {
      assert u.credentials == t.credentials && u.grants == t.grants;
      if !GoesMissing(b, reading) && !ComesBack(b, reading) {
        assert t.bindings[id := b] == t.bindings;
      }
    } else {
      assert u.credentials == t.credentials - {id};
      assert u.grants == InvalidateBinding(t, id, Stale).grants;
    }
  }

  class ConnectionsService {
    var store: Store

    constructor (store: Store)
      ensures this.store == store
    {
      this.store := store;
    }

    /** The live bindings, in some order. */
    method ListLive() returns (ids: seq<nat>)
      ensures |ids| == |LiveBindings(store)| && Elements(ids) == LiveBindings(store)
      ensures forall i, j :: 0 <= i < j < |ids| ==> ids[i] != ids[j]
    {
      var left := LiveBindings(store);
      ids := [];
      while left != {}
        invariant left <= LiveBindings(store) && |ids| + |left| == |LiveBindings(store)|
        invariant Elements(ids) + left == LiveBindings(store)
        invariant forall id :: id in ids ==> id !in left
        invariant forall i, j :: 0 <= i < j < |ids| ==> ids[i] != ids[j]
        decreases |left|
      {
        var id :| id in left;
        ghost var before := ids;
        ids := ids + [id];
        left := left - {id};
        assert Elements(ids) == Elements(before) + {id};
      }
    }

    /** The bindings one after another, in whatever order: the result is each one reconciled on its own. */
    method ReconcileAll(entries: seq<Entry>) returns (counts: Counts)
      modifies this
      ensures store == Reconcile(old(store), ByMailbox(entries))
      ensures counts == CountsOf(old(store), ByMailbox(entries), LiveBindings(old(store)))
    {
      hide ReconcileThese, CountsOf, ReconcileOne, GoesStale, GoesMissing, ComesBack;
      var byMailbox := ByMailbox(entries);
      var live := ListLive();
      counts := Counts(|live|, 0, 0, 0);
      ghost var start := store;
      ReconcileNone(start, byMailbox);
      assert Elements(live[..0]) == {};
      for i := 0 to |live|
        invariant store == ReconcileThese(start, byMailbox, Elements(live[..i]))
        invariant counts.(checked := i) == CountsOf(start, byMailbox, Elements(live[..i])) && counts.checked == |live|
      {
        var id := live[i];
        ghost var done := Elements(live[..i]);
        assert live[i] in live && id !in done;
        assert id in LiveBindings(start);
        ReconcileOneMore(start, byMailbox, done, id);
        CountOneMore(start, byMailbox, done, id);
        assert Elements(live[..i + 1]) == done + {id} by { assert live[..i + 1] == live[..i] + [id]; }
        counts := ReconcileLive(id, Reading(byMailbox, store.bindings[id]), counts);
      }
      assert live[..|live|] == live;
    }

    /** One turn of the loop: at most one of the three things happens, and is counted. */
    method ReconcileLive(id: nat, reading: Option<string>, before: Counts) returns (counts: Counts)
      requires id in store.bindings && !store.bindings[id].revoked
      modifies this
      ensures store == ReconcileOne(old(store), id, reading)
      ensures var b := old(store).bindings[id];
              counts == Counts(before.checked, before.stale + if GoesStale(b, reading) then 1 else 0,
                               before.missing + if GoesMissing(b, reading) then 1 else 0,
                               before.restored + if ComesBack(b, reading) then 1 else 0)
    {
      counts := before;
      var binding := store.bindings[id];
      if reading == None {
        if binding.state != MailboxMissing {
          store := SetBindingState(store, id, MailboxMissing);
          counts := counts.(missing := counts.missing + 1);
        }
        return;
      }
      if reading.value != binding.fingerprint {
        if binding.state != Stale {
          store := InvalidateBinding(store, id, Stale);
          counts := counts.(stale := counts.stale + 1);
        }
        return;
      }
      if binding.state == MailboxMissing {
        store := SetBindingState(store, id, Active);
        counts := counts.(restored := counts.restored + 1);
      }
    }
  }

  lemma ReconcileNone(s: Store, byMailbox: map<string, string>)
    ensures ReconcileThese(s, byMailbox, {}) == s
    ensures CountsOf(s, byMailbox, {}) == Counts(0, 0, 0, 0)
  {
  }

  lemma CountOneMore(s: Store, byMailbox: map<string, string>, done: set<nat>, id: nat)
    requires id in s.bindings && id !in done
    ensures var b := s.bindings[id]; var reading := Reading(byMailbox, b);
            var c := CountsOf(s, byMailbox, done);
            CountsOf(s, byMailbox, done + {id})
            == Counts(c.checked + 1, c.stale + if GoesStale(b, reading) then 1 else 0,
                      c.missing + if GoesMissing(b, reading) then 1 else 0,
                      c.restored + if ComesBack(b, reading) then 1 else 0)
  {
    WhereOneMore(done, id, StaleTest(s, byMailbox));
    WhereOneMore(done, id, MissingTest(s, byMailbox));
    WhereOneMore(done, id, RestoredTest(s, byMailbox));
  }

  // ----- reconciling again -----

  /** A second pass over the same list changes nothing and counts nothing. */
  lemma ReconcileTwice(s: Store, byMailbox: map<string, string>)
    ensures var once := Reconcile(s, byMailbox);
            && Reconcile(once, byMailbox) == once
            && CountsOf(once, byMailbox, LiveBindings(once)) == Counts(|LiveBindings(s)|, 0, 0, 0)
  {
    var once := Reconcile(s, byMailbox);
    SameLive(s, byMailbox);
    forall id | id in once.bindings
      ensures var b := once.bindings[id]; var r := Reading(byMailbox, b);
              !GoesStale(b, r) && !GoesMissing(b, r) && !ComesBack(b, r)
    {
    }
    var twice := Reconcile(once, byMailbox);
    assert twice.bindings == once.bindings;
    assert twice.credentials == once.credentials;
    assert twice.grants == once.grants;
    var live := LiveBindings(once);
    assert Where(live, StaleTest(once, byMailbox)) == {};
    assert Where(live, MissingTest(once, byMailbox)) == {};
    assert Where(live, RestoredTest(once, byMailbox)) == {};
  }

  /** Reconciling neither revokes a binding nor changes what it is anchored to. */
  lemma SameLive(s: Store, byMailbox: map<string, string>)
    ensures var r := Reconcile(s, byMailbox);
            && r.bindings.Keys == s.bindings.Keys && LiveBindings(r) == LiveBindings(s)
            && (forall id :: id in s.bindings ==> r.bindings[id].mailbox == s.bindings[id].mailbox
                                                  && r.bindings[id].fingerprint == s.bindings[id].fingerprint
                                                  && r.bindings[id].revoked == s.bindings[id].revoked)
            && r.connections == s.connections
  {
  }

  // ----- a mailbox that vanishes and comes back -----

  /** The binding with its credential and the active grants of its connections. */
  datatype Access = Access(binding: Binding, credential: Option<string>, grants: set<Grant>)

  function AccessOf(s: Store, id: nat): Access
    requires id in s.bindings
  {
    Access(s.bindings[id], if id in s.credentials then Some(s.credentials[id]) else None,
           set g | g in s.grants && Of(s, g.connection, id))
  }

  /** What one pass does to one binding's access depends on that binding alone. */
  lemma ReconcileAccess(s: Store, byMailbox: map<string, string>, id: nat)
    requires id in s.bindings
    ensures var b := s.bindings[id]; var reading := Reading(byMailbox, b);
            id in Reconcile(s, byMailbox).bindings
            && AccessOf(Reconcile(s, byMailbox), id)
               == if GoesStale(b, reading) then Access(b.(state := Stale), None, {})
                  else AccessOf(s, id).(binding := ReconcileBinding(b, reading))
  {
    var r := Reconcile(s, byMailbox);
    var b := s.bindings[id];
    var reading := Reading(byMailbox, b);
    assert !b.revoked <==> id in LiveBindings(s);
    if GoesStale(b, reading) {
      assert AccessOf(r, id).grants == {};
    } else {
      assert AccessOf(r, id).grants == AccessOf(s, id).grants;
    }
  }

  function ReconcileAlong(s: Store, lists: seq<map<string, string>>): Store {
    if lists == [] then s else Reconcile(ReconcileAlong(s, lists[..|lists| - 1]), lists[|lists| - 1])
  }

  /** However long a mailbox stays missing, its access is kept but for the state. */
  lemma {:induction false} StaysMissing(s: Store, id: nat, lists: seq<map<string, string>>)
    requires id in s.bindings && !s.bindings[id].revoked && s.bindings[id].state == Active && lists != []
    requires forall l :: l in lists ==> s.bindings[id].mailbox !in l
    ensures var r := ReconcileAlong(s, lists);
            id in r.bindings && AccessOf(r, id) == AccessOf(s, id).(binding := s.bindings[id].(state := MailboxMissing))
    decreases |lists|
  {
    var init, last := lists[..|lists| - 1], lists[|lists| - 1];
    assert last in lists;
    if init == [] {
      assert ReconcileAlong(s, init) == s;
      ReconcileAccess(s, last, id);
    } else {
      assert forall l :: l in init ==> l in lists;
      StaysMissing(s, id, init);
      ReconcileAccess(ReconcileAlong(s, init), last, id);
    }
  }

  /**
   * An active binding whose mailbox vanishes for any number of passes and then is seen
   * again: with its fingerprint unchanged everything is as it was, credential and grants
   * included; with another fingerprint neither is left.
   */
  lemma VanishesAndReappears(s: Store, id: nat, missing: seq<map<string, string>>, seen: map<string, string>)
    requires id in s.bindings && !s.bindings[id].revoked && s.bindings[id].state == Active && missing != []
    requires (forall l :: l in missing ==> s.bindings[id].mailbox !in l) && s.bindings[id].mailbox in seen
    ensures var b := s.bindings[id]; var r := Reconcile(ReconcileAlong(s, missing), seen);
            id in r.bindings
            && AccessOf(r, id) == if seen[b.mailbox] == b.fingerprint then AccessOf(s, id)
                                  else Access(b.(state := Stale), None, {})
  {
    StaysMissing(s, id, missing);
    ReconcileAccess(ReconcileAlong(s, missing), seen, id);
  }

  /**
   * A changed fingerprint wipes a live binding's credential and grants, unless the
   * binding is stale already: then whatever it holds stays.
   */
  lemma ChangedFingerprintWipesIff(s: Store, id: nat, byMailbox: map<string, string>)
    requires id in s.bindings && !s.bindings[id].revoked
    requires s.bindings[id].mailbox in byMailbox && byMailbox[s.bindings[id].mailbox] != s.bindings[id].fingerprint
    ensures var r := Reconcile(s, byMailbox);
            id in r.bindings && r.bindings[id].state == Stale
            && (AccessOf(r, id).credential == None && AccessOf(r, id).grants == {}
                <==> s.bindings[id].state != Stale
                     || (AccessOf(s, id).credential == None && AccessOf(s, id).grants == {}))
  {
    ReconcileAccess(s, byMailbox, id);
  }

  // ----- connection status -----

  datatype CredentialHealth =
    | Healthy
    | Missing
    | StaleCredential
    | InvalidCredential
    | NoMailbox
    | RevokedMailbox
    | VaultUnavailable

  function HealthOf(s: Store, id: nat, vaultKey: Option<string>): CredentialHealth
    requires id in s.bindings
  {
    match s.bindings[id].state
    case Revoked => RevokedMailbox
    case MailboxMissing => NoMailbox
    case Stale => StaleCredential
    case Invalid => InvalidCredential
    case Active =>
      if id !in s.credentials then Missing
      else if vaultKey != Some(s.credentials[id]) then VaultUnavailable
      else Healthy
  }

  datatype ConnectionStatus =
    | StatusRevoked
    | StatusExpired
    | StatusDisabled
    | StatusSuspended(health: CredentialHealth)
    | StatusActive
    | StatusPending

  function StatusOf(s: Store, connection: nat, vaultKey: Option<string>, now: int): ConnectionStatus
    requires connection in s.connections && s.connections[connection].binding in s.bindings
  {
    var c := s.connections[connection];
    var b := s.bindings[c.binding];
    if c.state == RevokedConnection || b.state == Revoked then StatusRevoked
    else if c.expiresAt.Some? && c.expiresAt.value <= now then StatusExpired
    else if c.state == Disabled then StatusDisabled
    else
      var health := HealthOf(s, c.binding, vaultKey);
      if health != Healthy then StatusSuspended(health)
      else if exists g :: g in s.grants && g.connection == connection then StatusActive
      else StatusPending
  }

  /** Whether tools may be used, or the mailbox owner may still authorize. */
  predicate Usable(status: ConnectionStatus) {
    status.StatusActive? || status.StatusPending?
  }

  /** A connection is usable if and only if nothing stands in its way. */
  lemma UsableIff(s: Store, connection: nat, vaultKey: Option<string>, now: int)
    requires connection in s.connections && s.connections[connection].binding in s.bindings
    ensures var c := s.connections[connection];
            Usable(StatusOf(s, connection, vaultKey, now))
            <==>
            && c.state != RevokedConnection && c.state != Disabled
            && (c.expiresAt.Some? ==> now < c.expiresAt.value)
            && s.bindings[c.binding].state == Active
            && c.binding in s.credentials && vaultKey == Some(s.credentials[c.binding])
  {
  }

  /** What stands in its way, the gravest first. */
  lemma StatusSays(s: Store, connection: nat, vaultKey: Option<string>, now: int)
    requires connection in s.connections && s.connections[connection].binding in s.bindings
    ensures var c := s.connections[connection]; var status := StatusOf(s, connection, vaultKey, now);
            var revoked := c.state == RevokedConnection || s.bindings[c.binding].state == Revoked;
            var expired := c.expiresAt.Some? && c.expiresAt.value <= now;
            && (status == StatusRevoked <==> revoked)
            && (status == StatusExpired <==> !revoked && expired)
            && (status == StatusDisabled <==> !revoked && !expired && c.state == Disabled)
            && (status == StatusActive ==> exists g :: g in s.grants && g.connection == connection)
            && (status == StatusPending ==> forall g :: g in s.grants ==> g.connection != connection)
            && (status.StatusSuspended? ==>
                  status.health == match s.bindings[c.binding].state
                                   case MailboxMissing => NoMailbox
                                   case Stale => StaleCredential
                                   case Invalid => InvalidCredential
                                   case _ => if c.binding in s.credentials then VaultUnavailable else Missing)
  {
  }

  /**
   * While its mailbox is missing no connection of a binding is usable; when it is back
   * unchanged each has the status it had; when it is back changed none is usable.
   */
  lemma StatusAcrossVanishing(s: Store, connection: nat, missing: seq<map<string, string>>, seen: map<string, string>,
                              vaultKey: Option<string>, now: int)
    requires connection in s.connections && s.connections[connection].binding in s.bindings && missing != []
    requires var b := s.bindings[s.connections[connection].binding];
             && !b.revoked && b.state == Active && b.mailbox in seen
             && forall l :: l in missing ==> b.mailbox !in l
    ensures var b := s.bindings[s.connections[connection].binding];
            var gone := ReconcileAlong(s, missing); var back := Reconcile(gone, seen);
            && gone.connections == s.connections && back.connections == s.connections
            && s.connections[connection].binding in gone.bindings && s.connections[connection].binding in back.bindings
            && !Usable(StatusOf(gone, connection, vaultKey, now))
            && (if seen[b.mailbox] == b.fingerprint
                then StatusOf(back, connection, vaultKey, now) == StatusOf(s, connection, vaultKey, now)
                else !Usable(StatusOf(back, connection, vaultKey, now)))
  {
    hide Reconcile, Reading;
    var id := s.connections[connection].binding;
    var gone := ReconcileAlong(s, missing);
    var back := Reconcile(gone, seen);
    SameConnections(s, missing);
    SameLive(gone, seen);
    StaysMissing(s, id, missing);
    VanishesAndReappears(s, id, missing, seen);
    if seen[s.bindings[id].mailbox] == s.bindings[id].fingerprint {
      SameGrants(s, back, connection, id);
    }
  }

  lemma SameGrants(s: Store, t: Store, connection: nat, id: nat)
    requires t.connections == s.connections && Of(s, connection, id) && id in s.bindings && id in t.bindings
    requires AccessOf(t, id) == AccessOf(s, id)
    ensures forall g: Grant :: g.connection == connection ==> (g in t.grants <==> g in s.grants)
  {
    forall g: Grant | g.connection == connection ensures g in t.grants <==> g in s.grants {
      assert g in AccessOf(t, id).grants <==> g in t.grants;
      assert g in AccessOf(s, id).grants <==> g in s.grants;
    }
  }

  lemma {:induction false} SameConnections(s: Store, lists: seq<map<string, string>>)
    ensures ReconcileAlong(s, lists).connections == s.connections
    decreases |lists|
  {
    if lists != [] {
      SameConnections(s, lists[..|lists| - 1]);
    }
  }
}
