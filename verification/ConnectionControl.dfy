/**
 * The control operations as steps. `create` and `updateCredentials` await the mail
 * server between resolving a binding and storing a credential, so those halves are
 * separate steps and anything may happen in between; ConnectionFlights says which
 * operations have such a half before them. A connection is created only on
 * a binding that is healthy at that moment, and a grant only for a usable connection.
 */
module ConnectionControl {
  import opened Bytes
  import opened Reconciliation

  datatype ControlError = NotFound | Conflict

  datatype Outcome = Done(store: Store) | Refused(error: ControlError)

  datatype MailboxEvent = PasswordChanged | Deleted

  // ----- connections -----

  /** The update's own guard: a revoked row keeps its state. */
  function SetConnectionState(s: Store, id: nat, state: ConnectionState): Store
    requires id in s.connections
  {
    var c := s.connections[id];
    if c.state == RevokedConnection then s else s.(connections := s.connections[id := c.(state := state)])
  }

  function RevokeGrantsOfConnection(s: Store, id: nat): Store {
    s.(grants := set g | g in s.grants && g.connection != id)
  }

  function SetIfMutable(s: Store, id: nat, state: ConnectionState): Outcome {
    if id !in s.connections then Refused(NotFound)
    else if s.connections[id].state == RevokedConnection then Refused(Conflict)
    else Done(SetConnectionState(s, id, state))
  }

  function RevokeInternal(s: Store, id: nat): Store
    requires id in s.connections
  {
    SetConnectionState(RevokeGrantsOfConnection(s, id), id, RevokedConnection)
  }

  function Revoke(s: Store, id: nat): Outcome {
    if id !in s.connections then Refused(NotFound)
    else if s.connections[id].state == RevokedConnection then Done(s)
    else Done(RevokeInternal(s, id))
  }

  /** Removing the row removes its grants with it. */
  function Delete(s: Store, id: nat): Outcome {
    if id !in s.connections then Refused(NotFound)
    else
      var revoked := if s.connections[id].state == RevokedConnection then s else RevokeInternal(s, id);
      Done(RevokeGrantsOfConnection(revoked.(connections := revoked.connections - {id}), id))
  }

  // ----- bindings -----

  predicate LiveFor(s: Store, id: nat, mailbox: string) {
    id in s.bindings && !s.bindings[id].revoked && s.bindings[id].mailbox == mailbox
  }

  /** The unique index on live bindings. */
  predicate UniqueLive(s: Store) {
    forall a, b :: a in s.bindings && b in s.bindings && !s.bindings[a].revoked && !s.bindings[b].revoked
                   ==> s.bindings[a].mailbox == s.bindings[b].mailbox ==> a == b
  }

  predicate HasLive(s: Store, mailbox: string) {
    exists id :: id in s.bindings && LiveFor(s, id, mailbox)
  }

  function LiveOf(s: Store, mailbox: string): (id: nat)
    requires UniqueLive(s) && HasLive(s, mailbox)
    ensures LiveFor(s, id, mailbox)
  {
    assert forall a, b :: a in s.bindings && b in s.bindings ==>
      LiveFor(s, a, mailbox) ==> LiveFor(s, b, mailbox) ==> a == b;
    var id :| id in s.bindings && LiveFor(s, id, mailbox);
    id
  }

  function Reanchor(s: Store, id: nat, fingerprint: string): Store
    requires id in s.bindings
  {
    var b := s.bindings[id];
    if b.revoked then s else s.(bindings := s.bindings[id := b.(fingerprint := fingerprint, state := Active)])
  }

  /** The live binding of a mailbox, brought in line with the fingerprint just read; a new one when there is none. */
  function ResolveBinding(s: Store, mailbox: string, fingerprint: string, newId: nat): Store
    requires UniqueLive(s) && newId !in s.bindings
  {
    if !HasLive(s, mailbox) then s.(bindings := s.bindings[newId := Binding(mailbox, fingerprint, Active, false)])
    else
      var id := LiveOf(s, mailbox);
      if s.bindings[id].fingerprint != fingerprint then Reanchor(InvalidateBinding(s, id, Stale), id, fingerprint)
      else if s.bindings[id].state == MailboxMissing then SetBindingState(s, id, Active)
      else s
  }

  /** A deleted mailbox takes every connection of its binding with it. */
  function RevokeAllOf(s: Store, binding: nat): Store {
    s.(connections := map c | c in s.connections ::
                        if s.connections[c].binding == binding then s.connections[c].(state := RevokedConnection)
                        else s.connections[c],
       grants := set g | g in s.grants && !(Of(s, g.connection, binding)
                                            && s.connections[g.connection].state != RevokedConnection))
  }

  function OnMailboxEvent(s: Store, mailbox: string, event: MailboxEvent): Store
    requires UniqueLive(s)
  {
    if !HasLive(s, mailbox) then s
    else
      var id := LiveOf(s, mailbox);
      match event
      case PasswordChanged => InvalidateBinding(s, id, Stale)
      case Deleted => SetBindingState(DeleteCredential(RevokeAllOf(s, id), id), id, Revoked)
  }

  // ----- steps -----

  datatype Step =
    | Enable(connection: nat)
    | Disable(connection: nat)
    | RevokeConnection(connection: nat)
    | DeleteConnection(connection: nat)
    | Event(mailbox: string, event: MailboxEvent)
    | ReconcileList(entries: seq<Entry>)
    | Resolve(mailbox: string, fingerprint: string, newId: nat)
    | StoreCredential(binding: nat, vaultKey: string)
    | ActivateBinding(binding: nat)
    | RejectCredential(binding: nat)
    | CreateConnection(connection: nat, binding: nat, expiresAt: Option<int>, vault: Option<string>)
    | AddGrant(grant: Grant, vault: Option<string>, now: int)
    | RevokeGrant(grant: Grant)

  predicate CanStep(s: Store, step: Step) {
    match step
    case Resolve(_, _, newId) => newId !in s.bindings
    case StoreCredential(b, _) => b in s.bindings
    case ActivateBinding(b) => b in s.bindings
    case RejectCredential(b) => b in s.bindings
    case CreateConnection(c, b, _, vault) => c !in s.known && b in s.bindings && HealthOf(s, b, vault) == Healthy
    case AddGrant(g, vault, now) =>
      && g.connection in s.connections && s.connections[g.connection].binding in s.bindings
      && Usable(StatusOf(s, g.connection, vault, now))
    case _ => true
  }

  function Or(s: Store, outcome: Outcome): Store {
    if outcome.Done? then outcome.store else s
  }

  function Apply(s: Store, step: Step): Store
    requires UniqueLive(s) && CanStep(s, step)
  {
    match step
    case Enable(c) => Or(s, SetIfMutable(s, c, Enabled))
    case Disable(c) => Or(s, SetIfMutable(s, c, Disabled))
    case RevokeConnection(c) => Or(s, Revoke(s, c))
    case DeleteConnection(c) => Or(s, Delete(s, c))
    case Event(mailbox, event) => OnMailboxEvent(s, mailbox, event)
    case ReconcileList(entries) => Reconcile(s, ByMailbox(entries))
    case Resolve(mailbox, fingerprint, newId) => ResolveBinding(s, mailbox, fingerprint, newId)
    case StoreCredential(b, key) => s.(credentials := s.credentials[b := key])
    case ActivateBinding(b) => SetBindingState(s, b, Active)
    case RejectCredential(b) => InvalidateBinding(s, b, Invalid)
    case CreateConnection(c, b, expiresAt, _) =>
      s.(connections := s.connections[c := Connection(b, Enabled, expiresAt)], known := s.known + {c})
    case AddGrant(g, _, _) => s.(grants := s.grants + {g})
    case RevokeGrant(g) => s.(grants := s.grants - {g})
  }

  // ----- what every step keeps -----

  /** The tables' keys, and that a revoked connection holds no grant. */
  predicate Inv(s: Store) {
    UniqueLive(s) && s.connections.Keys <= s.known && HasBindings(s) && GrantsAreHeld(s)
  }

  predicate HasBindings(s: Store) {
    forall c :: c in s.connections ==> s.connections[c].binding in s.bindings
  }

  predicate GrantsAreHeld(s: Store) {
    forall g :: g in s.grants ==>
      g.connection in s.connections && s.connections[g.connection].state != RevokedConnection
  }

  /** A connection that was revoked is still revoked, or has been deleted. */
  predicate StaysRevoked(s: Store, t: Store) {
    && s.known <= t.known
    && forall c :: c in t.connections && c in s.known ==>
         && c in s.connections
         && (s.connections[c].state == RevokedConnection ==> t.connections[c].state == RevokedConnection)
  }

  lemma StepKeeps(s: Store, step: Step)
    requires Inv(s) && CanStep(s, step)
    ensures Inv(Apply(s, step)) && StaysRevoked(s, Apply(s, step))
  {
    hide Inv, StaysRevoked, ResolveBinding, OnMailboxEvent, Reconcile, UniqueLive;
    match step
    case ReconcileList(entries) => ReconcileKeeps(s, ByMailbox(entries));
    case Resolve(mailbox, fingerprint, newId) => ResolveKeeps(s, mailbox, fingerprint, newId);
    case Event(mailbox, event) => EventKeeps(s, mailbox, event);
    case CreateConnection(c, b, _, _) => CreateKeeps(s, step);
    case AddGrant(g, vault, now) => GrantKeeps(s, g, vault, now);
    case RevokeConnection(c) => RevokeKeeps(s, c);
    case DeleteConnection(c) => RevokeKeeps(s, c);
    case ActivateBinding(_) => BindingKeeps(s, step);
    case RejectCredential(_) => BindingKeeps(s, step);
    case _ => RowKeeps(s, step);
  }

  /** The steps that write a connection's state, a credential or a grant. */
  lemma RowKeeps(s: Store, step: Step)
    requires Inv(s) && CanStep(s, step)
    requires step.Enable? || step.Disable? || step.StoreCredential? || step.RevokeGrant?
    ensures Inv(Apply(s, step)) && StaysRevoked(s, Apply(s, step))
  {
    hide ResolveBinding, OnMailboxEvent, ReconcileThese, UniqueLive;
    SameBindings(s, Apply(s, step));
  }

  /** The steps that write a binding's state. */
  lemma BindingKeeps(s: Store, step: Step)
    requires Inv(s) && CanStep(s, step) && (step.ActivateBinding? || step.RejectCredential?)
    ensures Inv(Apply(s, step)) && StaysRevoked(s, Apply(s, step))
  {
    hide ResolveBinding, OnMailboxEvent, ReconcileThese;
  }

  lemma RevokeKeeps(s: Store, c: nat)
    requires Inv(s)
    ensures var t := Apply(s, RevokeConnection(c)); Inv(t) && StaysRevoked(s, t)
    ensures var t := Apply(s, DeleteConnection(c)); Inv(t) && StaysRevoked(s, t)
  {
    hide UniqueLive;
    assert UniqueLive(Apply(s, RevokeConnection(c))) && UniqueLive(Apply(s, DeleteConnection(c))) by {
      SameBindings(s, Apply(s, RevokeConnection(c)));
      SameBindings(s, Apply(s, DeleteConnection(c)));
    }
  }

  lemma SameBindings(s: Store, t: Store)
    requires UniqueLive(s) && t.bindings == s.bindings
    ensures UniqueLive(t)
  {
  }

  lemma ReconcileKeeps(s: Store, byMailbox: map<string, string>)
    requires Inv(s)
    ensures var t := Reconcile(s, byMailbox); Inv(t) && StaysRevoked(s, t)
  {
    SameLive(s, byMailbox);
  }

  lemma CreateKeeps(s: Store, step: Step)
    requires Inv(s) && step.CreateConnection? && CanStep(s, step)
    ensures Inv(Apply(s, step)) && StaysRevoked(s, Apply(s, step))
  {
    hide HealthOf;
  }

  lemma GrantKeeps(s: Store, g: Grant, vault: Option<string>, now: int)
    requires Inv(s) && CanStep(s, AddGrant(g, vault, now))
    ensures var t := Apply(s, AddGrant(g, vault, now)); Inv(t) && StaysRevoked(s, t)
  {
    hide HealthOf;
    var t := Apply(s, AddGrant(g, vault, now));
    assert t.connections == s.connections && t.bindings == s.bindings;
    assert s.connections[g.connection].state != RevokedConnection;
  }

  lemma ResolveKeeps(s: Store, mailbox: string, fingerprint: string, newId: nat)
    requires Inv(s) && newId !in s.bindings
    ensures var t := ResolveBinding(s, mailbox, fingerprint, newId); Inv(t) && StaysRevoked(s, t)
  {
  }

  lemma EventKeeps(s: Store, mailbox: string, event: MailboxEvent)
    requires Inv(s)
    ensures var t := OnMailboxEvent(s, mailbox, event); Inv(t) && StaysRevoked(s, t)
  {
  }

  ghost predicate IsRun(states: seq<Store>, steps: seq<Step>) {
    && |states| == |steps| + 1 && Inv(states[0])
    && forall i :: 0 <= i < |steps| ==>
         UniqueLive(states[i]) && CanStep(states[i], steps[i]) && states[i + 1] == Apply(states[i], steps[i])
  }

  lemma {:induction false} RunKeeps(states: seq<Store>, steps: seq<Step>, n: nat)
    requires IsRun(states, steps) && n < |states|
    ensures Inv(states[n])
  {
    hide Inv, Apply;
    if n > 0 {
      RunKeeps(states, steps, n - 1);
      StepKeeps(states[n - 1], steps[n - 1]);
    }
  }

  /** Over every run, a connection once revoked never leaves that state except by being deleted. */
  lemma {:induction false} RevokedIsForever(states: seq<Store>, steps: seq<Step>, i: nat, j: nat, connection: nat)
    requires IsRun(states, steps) && i <= j < |states|
    requires connection in states[i].connections && states[i].connections[connection].state == RevokedConnection
    ensures connection in states[j].known
    ensures connection in states[j].connections ==> states[j].connections[connection].state == RevokedConnection
    decreases j
  {
    hide Apply, UniqueLive, CanStep;
    RunKeeps(states, steps, i);
    if i < j {
      RevokedIsForever(states, steps, i, j - 1, connection);
      RunKeeps(states, steps, j - 1);
      StepKeeps(states[j - 1], steps[j - 1]);
      assert StaysRevoked(states[j - 1], states[j]);
    }
  }

  /** Once a connection has been deleted it never comes back. */
  lemma {:induction false} DeletedIsForever(states: seq<Store>, steps: seq<Step>, i: nat, j: nat, connection: nat)
    requires IsRun(states, steps) && i <= j < |states|
    requires connection in states[i].known && connection !in states[i].connections
    ensures connection in states[j].known && connection !in states[j].connections
    decreases j
  {
    hide Apply, UniqueLive, CanStep;
    if i < j {
      DeletedIsForever(states, steps, i, j - 1, connection);
      RunKeeps(states, steps, j - 1);
      StepKeeps(states[j - 1], steps[j - 1]);
      assert StaysRevoked(states[j - 1], states[j]);
    }
  }

  // ----- what a step does, and to what -----

  predicate HasNoGrant(s: Store, connection: nat) {
    forall g :: g in s.grants ==> g.connection != connection
  }

  /** Nothing but one connection and its grants differs. */
  ghost predicate OnlyConnection(s: Store, t: Store, connection: nat) {
    && t.bindings == s.bindings && t.credentials == s.credentials && t.known == s.known
    && (forall c :: c != connection ==> (c in t.connections <==> c in s.connections))
    && (forall c :: c in s.connections && c != connection ==> t.connections[c] == s.connections[c])
    && (forall g: Grant :: g.connection != connection ==> (g in t.grants <==> g in s.grants))
  }

  /** Revoking leaves the connection revoked, with no grant, and everything else as it was. */
  lemma RevokingRevokes(s: Store, connection: nat, vaultKey: Option<string>, now: int)
    requires Inv(s) && connection in s.connections
    ensures var t := Apply(s, RevokeConnection(connection));
            && connection in t.connections
            && t.connections[connection] == s.connections[connection].(state := RevokedConnection)
            && t.connections[connection].binding in t.bindings && HasNoGrant(t, connection)
            && StatusOf(t, connection, vaultKey, now) == StatusRevoked
            && OnlyConnection(s, t, connection)
  {
  }

  /** Deleting takes the connection and its grants away, and nothing else. */
  lemma DeletingRemoves(s: Store, connection: nat)
    requires Inv(s) && connection in s.connections
    ensures var t := Apply(s, DeleteConnection(connection));
            connection !in t.connections && HasNoGrant(t, connection) && OnlyConnection(s, t, connection)
  {
  }

  /** Enabling and disabling set exactly that of a connection that is not revoked, and leave its grants. */
  lemma SwitchingSwitches(s: Store, connection: nat)
    requires Inv(s) && connection in s.connections && s.connections[connection].state != RevokedConnection
    ensures var c := s.connections[connection];
            && Apply(s, Enable(connection)) == s.(connections := s.connections[connection := c.(state := Enabled)])
            && Apply(s, Disable(connection)) == s.(connections := s.connections[connection := c.(state := Disabled)])
  {
  }

  /** A revoked connection can be neither enabled nor disabled, and no step on a missing one does anything. */
  lemma RefusedStepsDoNothing(s: Store, connection: nat)
    requires Inv(s)
    ensures connection !in s.connections || s.connections[connection].state == RevokedConnection ==>
              && Apply(s, Enable(connection)) == s && Apply(s, Disable(connection)) == s
              && var why := if connection in s.connections then Conflict else NotFound;
                 SetIfMutable(s, connection, Enabled) == SetIfMutable(s, connection, Disabled) == Refused(why)
    ensures connection !in s.connections ==>
              && Apply(s, RevokeConnection(connection)) == s && Apply(s, DeleteConnection(connection)) == s
              && Revoke(s, connection) == Refused(NotFound) && Delete(s, connection) == Refused(NotFound)
  {
  }

  /** From the step that revokes a connection on, in every later state that still has it, it is of no use. */
  lemma RevokedFromThenOn(states: seq<Store>, steps: seq<Step>, i: nat, j: nat, connection: nat,
                          vaultKey: Option<string>, now: int)
    requires IsRun(states, steps) && i < j < |states|
    requires steps[i] == RevokeConnection(connection) && connection in states[i].connections
    ensures HasNoGrant(states[j], connection)
    ensures connection in states[j].connections ==>
              && states[j].connections[connection].state == RevokedConnection
              && states[j].connections[connection].binding in states[j].bindings
              && StatusOf(states[j], connection, vaultKey, now) == StatusRevoked
  {
    RunKeeps(states, steps, i);
    RevokingRevokes(states[i], connection, vaultKey, now);
    hide Apply, UniqueLive, CanStep, OnlyConnection;
    RevokedIsForever(states, steps, i + 1, j, connection);
    RunKeeps(states, steps, j);
  }

  /** Nothing but one binding's row, credential and grants differs. */
  ghost predicate OnlyBinding(s: Store, t: Store, id: nat) {
    && t.connections == s.connections && t.known == s.known
    && (forall b :: b != id ==> (b in t.bindings <==> b in s.bindings) && (b in t.credentials <==> b in s.credentials))
    && (forall b :: b in s.bindings && b != id ==> t.bindings[b] == s.bindings[b])
    && (forall b :: b in s.credentials && b != id ==> t.credentials[b] == s.credentials[b])
    && (forall g: Grant :: !Of(s, g.connection, id) ==> (g in t.grants <==> g in s.grants))
  }

  lemma Invalidating(s: Store, id: nat, state: BindingState)
    requires id in s.bindings && state != Revoked
    ensures var t := InvalidateBinding(s, id, state);
            && id in t.bindings && t.bindings[id] == s.bindings[id].(state := state)
            && HasNoAccess(t, id) && OnlyBinding(s, t, id)
  {
  }

  /** A changed password takes the binding's access away, and nothing else. */
  lemma PasswordChangeWipes(s: Store, mailbox: string)
    requires Inv(s) && HasLive(s, mailbox)
    ensures var live := LiveOf(s, mailbox); var t := Apply(s, Event(mailbox, PasswordChanged));
            && live in t.bindings && t.bindings[live] == s.bindings[live].(state := Stale)
            && HasNoAccess(t, live) && OnlyBinding(s, t, live)
  {
    hide InvalidateBinding, HasNoAccess, OnlyBinding;
    Invalidating(s, LiveOf(s, mailbox), Stale);
  }

  /** So does a rejected credential. */
  lemma RejectionWipes(s: Store, id: nat)
    requires Inv(s) && id in s.bindings
    ensures var t := Apply(s, RejectCredential(id));
            && id in t.bindings && t.bindings[id] == s.bindings[id].(state := Invalid)
            && HasNoAccess(t, id) && OnlyBinding(s, t, id)
  {
    hide InvalidateBinding, HasNoAccess, OnlyBinding, UniqueLive;
    Invalidating(s, id, Invalid);
  }

  /**
   * Resolving a mailbox: without a live binding a fresh one is made; one with another fingerprint
   * is taken over with nothing of its access left; one with the same keeps everything it has, and
   * is active again if it was missing.
   */
  lemma ResolvingAnchors(s: Store, mailbox: string, fingerprint: string, newId: nat)
    requires Inv(s) && newId !in s.bindings
    ensures var t := Apply(s, Resolve(mailbox, fingerprint, newId));
            if !HasLive(s, mailbox) then
              && newId in t.bindings && t.bindings[newId] == Binding(mailbox, fingerprint, Active, false)
              && t.grants == s.grants && t.credentials == s.credentials && OnlyBinding(s, t, newId)
            else
              var id := LiveOf(s, mailbox);
              && id in t.bindings && t.bindings[id].mailbox == mailbox && !t.bindings[id].revoked
              && t.bindings[id].fingerprint == fingerprint && OnlyBinding(s, t, id)
              && if s.bindings[id].fingerprint != fingerprint then t.bindings[id].state == Active && HasNoAccess(t, id)
                 else
                   && t.bindings[id].state == (if s.bindings[id].state == MailboxMissing then Active
                                               else s.bindings[id].state)
                   && t.credentials == s.credentials && t.grants == s.grants
  {
    hide UniqueLive;
  }

  // ----- stale bindings -----

  predicate HasNoAccess(s: Store, id: nat) {
    id !in s.credentials && forall g :: g in s.grants ==> !Of(s, g.connection, id)
  }

  /** What a binding's documentation says: a stale one has its credential wiped and its grants revoked. */
  predicate StaleIsWiped(s: Store) {
    forall id :: id in s.bindings && s.bindings[id].state == Stale ==> HasNoAccess(s, id)
  }

  /** A verified password is stored whether its binding was stale already or went stale meanwhile. */
  predicate StoresForStale(s: Store, step: Step)
    requires CanStep(s, step)
  {
    step.StoreCredential? && s.bindings[step.binding].state == Stale
  }

  /** One step keeps stale bindings wiped unless it stores a credential for one. */
  lemma StaleStep(s: Store, step: Step)
    requires Inv(s) && CanStep(s, step) && StaleIsWiped(s)
    ensures StaleIsWiped(Apply(s, step)) <==> !StoresForStale(s, step)
  {
    hide Inv, StaleIsWiped, ResolveBinding, OnMailboxEvent, Reconcile, UniqueLive;
    match step
    case ReconcileList(entries) => StaleReconcile(s, ByMailbox(entries));
    case Resolve(mailbox, fingerprint, newId) => StaleResolve(s, mailbox, fingerprint, newId);
    case Event(mailbox, event) => StaleEvent(s, mailbox, event);
    case _ => StaleRow(s, step);
  }

  lemma StaleRow(s: Store, step: Step)
    requires Inv(s) && CanStep(s, step) && StaleIsWiped(s)
    requires !step.ReconcileList? && !step.Resolve? && !step.Event?
    ensures StaleIsWiped(Apply(s, step)) <==> !StoresForStale(s, step)
  {
    hide ResolveBinding, OnMailboxEvent, ReconcileThese;
    if step.StoreCredential? {
      assert step.binding in Apply(s, step).credentials;
    }
  }

  lemma StaleReconcile(s: Store, byMailbox: map<string, string>)
    requires StaleIsWiped(s)
    ensures StaleIsWiped(Reconcile(s, byMailbox))
  {
    hide Reconcile;
    SameLive(s, byMailbox);
    var t := Reconcile(s, byMailbox);
    forall id | id in t.bindings && t.bindings[id].state == Stale ensures HasNoAccess(t, id) {
      ReconcileAccess(s, byMailbox, id);
      if !GoesStale(s.bindings[id], Reading(byMailbox, s.bindings[id])) {
        assert HasNoAccess(s, id);
        NoAccess(s, id);
      }
      NoAccess(t, id);
    }
  }

  lemma NoAccess(s: Store, id: nat)
    requires id in s.bindings
    ensures HasNoAccess(s, id) <==> AccessOf(s, id).credential == None && AccessOf(s, id).grants == {}
  {
    if AccessOf(s, id).grants == {} {
      forall g | g in s.grants ensures !Of(s, g.connection, id) {
        assert g !in AccessOf(s, id).grants;
      }
    }
  }

  lemma StaleResolve(s: Store, mailbox: string, fingerprint: string, newId: nat)
    requires Inv(s) && newId !in s.bindings && StaleIsWiped(s)
    ensures StaleIsWiped(ResolveBinding(s, mailbox, fingerprint, newId))
  {
  }

  lemma StaleEvent(s: Store, mailbox: string, event: MailboxEvent)
    requires Inv(s) && StaleIsWiped(s)
    ensures StaleIsWiped(OnMailboxEvent(s, mailbox, event))
  {
  }

  /** In every run, stale bindings are wiped exactly as long as no credential is stored for one. */
  lemma {:induction false} StaleIsWipedIff(states: seq<Store>, steps: seq<Step>, n: nat)
    requires IsRun(states, steps) && n < |states| && StaleIsWiped(states[0])
    ensures (forall m :: 0 <= m <= n ==> StaleIsWiped(states[m]))
            <==> (forall i :: 0 <= i < n ==> !StoresForStale(states[i], steps[i]))
  {
    hide Inv, Apply, CanStep, StaleIsWiped, StoresForStale, UniqueLive;
    if n > 0 {
      StaleIsWipedIff(states, steps, n - 1);
      RunKeeps(states, steps, n - 1);
      if forall m :: 0 <= m <= n - 1 ==> StaleIsWiped(states[m]) {
        assert StaleIsWiped(states[n - 1]);
        StaleStep(states[n - 1], steps[n - 1]);
        assert StaleIsWiped(states[n]) <==> !StoresForStale(states[n - 1], steps[n - 1]);
      } else {
        var i :| 0 <= i < n - 1 && StoresForStale(states[i], steps[i]);
      }
    }
  }

  /**
   * Until then, a pass that sees a live binding's fingerprint changed leaves it stale with no
   * credential and no grant.
   */
  lemma ChangedFingerprintWipes(states: seq<Store>, steps: seq<Step>, n: nat, id: nat)
    requires IsRun(states, steps) && n < |steps| && steps[n].ReconcileList? && StaleIsWiped(states[0])
    requires forall i :: 0 <= i < n ==> !StoresForStale(states[i], steps[i])
    requires id in states[n].bindings && !states[n].bindings[id].revoked
    requires var b, byMailbox := states[n].bindings[id], ByMailbox(steps[n].entries);
             b.mailbox in byMailbox && byMailbox[b.mailbox] != b.fingerprint
    ensures id in states[n + 1].bindings && states[n + 1].bindings[id].state == Stale && HasNoAccess(states[n + 1], id)
  {
    hide Inv, StaleIsWiped, StoresForStale, UniqueLive, HasNoAccess, AccessOf, Reconcile;
    var s, byMailbox := states[n], ByMailbox(steps[n].entries);
    StaleIsWipedIff(states, steps, n);
    ChangedFingerprintWipesIff(s, id, byMailbox);
    assert states[n + 1] == Reconcile(s, byMailbox);
    NoAccess(states[n + 1], id);
    if s.bindings[id].state == Stale {
      StaleMeans(s, id);
      NoAccess(s, id);
    }
  }

  lemma StaleMeans(s: Store, id: nat)
    requires StaleIsWiped(s) && id in s.bindings && s.bindings[id].state == Stale
    ensures HasNoAccess(s, id)
  {
  }

  const NOTHING := Store(map[], map[], map[], {}, {})

  /** The one binding of mailbox "m" in a state, with or without a credential. */
  function OneBinding(state: BindingState, credentials: map<nat, string>): Store {
    Store(map[0 := Binding("m", "f", state, state == Revoked)], credentials, map[], {}, {})
  }

  lemma OneBindingSteps(state: BindingState, credentials: map<nat, string>)
    ensures var s := OneBinding(state, credentials);
            && UniqueLive(s) && CanStep(s, StoreCredential(0, "k"))
            && Apply(s, StoreCredential(0, "k")) == OneBinding(state, credentials[0 := "k"])
  {
  }

  lemma FirstStep()
    ensures UniqueLive(NOTHING) && Inv(NOTHING) && StaleIsWiped(NOTHING)
    ensures CanStep(NOTHING, Resolve("m", "f", 0)) && Apply(NOTHING, Resolve("m", "f", 0)) == OneBinding(Active, map[])
  {
  }

  lemma MailboxEvents()
    ensures var s := OneBinding(Active, map[]);
            && UniqueLive(s) && CanStep(s, Event("m", PasswordChanged)) && CanStep(s, Event("m", Deleted))
            && Apply(s, Event("m", PasswordChanged)) == OneBinding(Stale, map[])
            && Apply(s, Event("m", Deleted)) == OneBinding(Revoked, map[])
  {
    var s := OneBinding(Active, map[]);
    assert LiveFor(s, 0, "m") && LiveOf(s, "m") == 0;
    assert OnMailboxEvent(s, "m", PasswordChanged) == InvalidateBinding(s, 0, Stale);
  }

  lemma PassOver(state: BindingState, credentials: map<nat, string>, byMailbox: map<string, string>,
                 after: BindingState)
    requires state != Revoked && after != Revoked
    requires var b := Binding("m", "f", state, false); var reading := Reading(byMailbox, b);
             !GoesStale(b, reading) && ReconcileBinding(b, reading).state == after
    ensures UniqueLive(OneBinding(state, credentials))
    ensures Reconcile(OneBinding(state, credentials), byMailbox) == OneBinding(after, credentials)
  {
  }

  lemma Passes(credentials: map<nat, string>)
    ensures var stale, missing := OneBinding(Stale, credentials), OneBinding(MailboxMissing, credentials);
            && UniqueLive(stale) && UniqueLive(missing)
            && CanStep(stale, ReconcileList([])) && CanStep(missing, ReconcileList([Entry("m", "f")]))
            && CanStep(stale, ReconcileList([Entry("m", "g")]))
            && Apply(stale, ReconcileList([])) == missing
            && Apply(missing, ReconcileList([Entry("m", "f")])) == OneBinding(Active, credentials)
            && Apply(stale, ReconcileList([Entry("m", "g")])) == stale
  {
    hide Reconcile, UniqueLive, OneBinding;
    assert [Entry("m", "f")][..0] == [] && [Entry("m", "g")][..0] == [];
    assert ByMailbox([Entry("m", "f")]) == map["m" := "f"] && ByMailbox([Entry("m", "g")]) == map["m" := "g"];
    PassOver(Stale, credentials, map[], MailboxMissing);
    PassOver(MailboxMissing, credentials, map["m" := "f"], Active);
    PassOver(Stale, credentials, map["m" := "g"], Stale);
  }

  /**
   * A stale binding can hold a credential: a password is stored for it by a `create`
   * that then refuses, and a later pass that finds the fingerprint changed leaves it.
   */
  lemma StaleBindingKeepsCredential() returns (states: seq<Store>, steps: seq<Step>)
    ensures steps == [Resolve("m", "f", 0), Event("m", PasswordChanged), StoreCredential(0, "k"),
                      ReconcileList([Entry("m", "g")])]
    ensures IsRun(states, steps) && states[0] == NOTHING && states[4] == OneBinding(Stale, map[0 := "k"])
  {
    hide Apply, UniqueLive, OneBinding, CanStep, StatusOf, Usable, Inv, StaleIsWiped;
    FirstStep();
    MailboxEvents();
    OneBindingSteps(Stale, map[]);
    Passes(map[0 := "k"]);
    steps := [Resolve("m", "f", 0), Event("m", PasswordChanged), StoreCredential(0, "k"),
              ReconcileList([Entry("m", "g")])];
    states := [NOTHING, OneBinding(Active, map[]), OneBinding(Stale, map[]), OneBinding(Stale, map[0 := "k"]),
               OneBinding(Stale, map[0 := "k"])];
  }

  /**
   * Such a credential can become usable: when the mailbox goes missing and is back with
   * the old fingerprint, the binding is active again and connections can be made on it.
   */
  lemma StaleCredentialRevives() returns (states: seq<Store>, steps: seq<Step>)
    ensures steps == [Resolve("m", "f", 0), Event("m", PasswordChanged), StoreCredential(0, "k"), ReconcileList([]),
                      ReconcileList([Entry("m", "f")]), CreateConnection(1, 0, None, Some("k"))]
    ensures IsRun(states, steps) && states[0] == NOTHING
    ensures 1 in states[6].connections && 0 in states[6].bindings && states[6].connections[1].binding == 0
            && Usable(StatusOf(states[6], 1, Some("k"), 0))
  {
    hide Apply, UniqueLive, OneBinding, CanStep, StatusOf, Usable, Inv, StaleIsWiped;
    FirstStep();
    MailboxEvents();
    OneBindingSteps(Stale, map[]);
    Passes(map[0 := "k"]);
    var active := OneBinding(Active, map[0 := "k"]);
    ActiveBinding(active);
    var create := CreateConnection(1, 0, None, Some("k"));
    CreatedIsUsable(active);
    var last := Apply(active, create);
    steps := [Resolve("m", "f", 0), Event("m", PasswordChanged), StoreCredential(0, "k"), ReconcileList([]),
              ReconcileList([Entry("m", "f")]), create];
    states := [NOTHING, OneBinding(Active, map[]), OneBinding(Stale, map[]), OneBinding(Stale, map[0 := "k"]),
               OneBinding(MailboxMissing, map[0 := "k"]), active, last];
  }

  lemma ActiveBinding(s: Store)
    requires s == OneBinding(Active, map[0 := "k"])
    ensures s.bindings == map[0 := Binding("m", "f", Active, false)] && s.credentials == map[0 := "k"] && s.known == {}
  {
  }

  /** A connection made on an active binding with a credential is usable, whether or not the binding counts as live. */
  lemma CreatedIsUsable(s: Store)
    requires s.bindings.Keys == {0} && s.bindings[0].state == Active && s.credentials == map[0 := "k"] && s.known == {}
    ensures var create := CreateConnection(1, 0, None, Some("k"));
            && UniqueLive(s) && CanStep(s, create)
            && var t := Apply(s, create);
               1 in t.connections && t.connections[1].binding == 0 && t.bindings == s.bindings
               && Usable(StatusOf(t, 1, Some("k"), 0))
  {
  }

  // ----- deleted mailboxes -----

  /**
   * Nothing of a deleted mailbox can be used: the binding is revoked, with no credential, no grant
   * and only revoked connections.
   */
  predicate Sealed(s: Store, id: nat) {
    && id in s.bindings && s.bindings[id].revoked && s.bindings[id].state == Revoked && HasNoAccess(s, id)
    && forall c :: c in s.connections && s.connections[c].binding == id ==> s.connections[c].state == RevokedConnection
  }

  /** A step that writes the binding whatever its state. */
  predicate Writes(step: Step, id: nat) {
    (step.StoreCredential? || step.ActivateBinding? || step.RejectCredential?) && step.binding == id
  }

  /** Deleting a mailbox seals its binding, and its address starts afresh. */
  lemma DeletedMailboxLeavesNothing(s: Store, mailbox: string, vaultKey: Option<string>, now: int)
    requires Inv(s) && HasLive(s, mailbox)
    ensures var id := LiveOf(s, mailbox); var t := OnMailboxEvent(s, mailbox, Deleted);
            && Sealed(t, id) && !HasLive(t, mailbox)
            && (forall c :: Of(t, c, id) ==> StatusOf(t, c, vaultKey, now) == StatusRevoked)
            && (forall fingerprint, newId :: newId !in t.bindings ==>
                  LiveFor(ResolveBinding(t, mailbox, fingerprint, newId), newId, mailbox))
  {
    var id := LiveOf(s, mailbox);
    var t := OnMailboxEvent(s, mailbox, Deleted);
    assert forall k :: k in s.bindings && LiveFor(s, k, mailbox) ==> k == id;
    assert UniqueLive(t) by { StepKeeps(s, Event(mailbox, Deleted)); }
  }

  lemma SealedStep(s: Store, step: Step, id: nat)
    requires Inv(s) && CanStep(s, step) && Sealed(s, id)
    ensures Sealed(Apply(s, step), id) <==> !Writes(step, id)
  {
    hide Inv, Sealed, ResolveBinding, OnMailboxEvent, Reconcile, UniqueLive;
    match step
    case ReconcileList(entries) => SealedReconcile(s, ByMailbox(entries), id);
    case Resolve(mailbox, fingerprint, newId) => SealedResolve(s, mailbox, fingerprint, newId, id);
    case Event(mailbox, event) => SealedEvent(s, mailbox, event, id);
    case AddGrant(g, vault, now) => SealedGrant(s, g, vault, now, id);
    case _ => SealedRow(s, step, id);
  }

  lemma SealedGrant(s: Store, g: Grant, vault: Option<string>, now: int, id: nat)
    requires Inv(s) && CanStep(s, AddGrant(g, vault, now)) && Sealed(s, id)
    ensures Sealed(Apply(s, AddGrant(g, vault, now)), id)
  {
    hide UniqueLive, HealthOf;
    assert s.connections[g.connection].state != RevokedConnection;
  }

  lemma SealedRow(s: Store, step: Step, id: nat)
    requires Inv(s) && CanStep(s, step) && Sealed(s, id)
    requires !step.ReconcileList? && !step.Resolve? && !step.Event? && !step.AddGrant?
    ensures Sealed(Apply(s, step), id) <==> !Writes(step, id)
  {
    hide ResolveBinding, OnMailboxEvent, ReconcileThese;
  }

  lemma SealedReconcile(s: Store, byMailbox: map<string, string>, id: nat)
    requires Sealed(s, id)
    ensures Sealed(Reconcile(s, byMailbox), id)
  {
  }

  lemma SealedResolve(s: Store, mailbox: string, fingerprint: string, newId: nat, id: nat)
    requires Inv(s) && newId !in s.bindings && Sealed(s, id)
    ensures Sealed(ResolveBinding(s, mailbox, fingerprint, newId), id)
  {
  }

  lemma SealedEvent(s: Store, mailbox: string, event: MailboxEvent, id: nat)
    requires Inv(s) && Sealed(s, id)
    ensures Sealed(OnMailboxEvent(s, mailbox, event), id)
  {
  }
}
