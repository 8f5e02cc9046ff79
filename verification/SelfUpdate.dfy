/**
 * The panel's self-update: both panel containers recreated on new images, or rolled
 * back, with a durable record written before anything is torn down. Every change to
 * the machine is logged, so a crash is a run that stops at some logged moment.
 */
module SelfUpdate {
  import opened Bytes
  import opened ImageSwap

  // ----- waiting for health -----

  const HEALTH_POLL_TIMEOUT_MS := 90_000
  const HEALTH_POLL_INTERVAL_MS := 2_000

  /** What one wait observes: the clock when it starts, and at each poll the health and the clock. */
  datatype Polls = Polls(start: int, healthy: nat -> bool, clock: nat -> int)

  /** Every delay advances the clock by at least the interval. */
  ghost predicate Advances(p: Polls) {
    p.start <= p.clock(0) && forall i: nat :: p.clock(i) + HEALTH_POLL_INTERVAL_MS <= p.clock(i + 1)
  }

  /** Health is seen before a poll finds the deadline passed. */
  ghost predicate SeenHealthy(p: Polls) {
    exists i: nat :: p.healthy(i) && forall j: nat :: j < i ==> p.clock(j) < p.start + HEALTH_POLL_TIMEOUT_MS
  }

  /** The wait is over at this poll. */
  ghost predicate EndsAt(p: Polls, i: nat) {
    p.healthy(i) || p.clock(i) >= p.start + HEALTH_POLL_TIMEOUT_MS
  }

  /** The wait is over at some poll, however the clock gets there. */
  ghost predicate Ends(p: Polls) {
    exists i: nat :: EndsAt(p, i)
  }

  lemma {:induction false} AdvancesBy(p: Polls, i: nat)
    requires Advances(p)
    ensures p.start + i * HEALTH_POLL_INTERVAL_MS <= p.clock(i)
  {
    if i > 0 {
      AdvancesBy(p, i - 1);
    }
  }

  /** A clock that every delay advances ends the wait by itself, at the 46th poll if not before. */
  lemma AdvancingEnds(p: Polls)
    requires Advances(p)
    ensures EndsAt(p, 45) && Ends(p)
  {
    AdvancesBy(p, 45);
    assert EndsAt(p, 45);
  }

  /** Polls two seconds apart end the wait at the 46th, if not before. */
  lemma TwoSeconds(p: Polls)
    requires p.start <= p.clock(0) && forall i: nat :: p.clock(i) + 2000 <= p.clock(i + 1)
    ensures Advances(p) && EndsAt(p, 45)
  {
    AdvancingEnds(p);
  }

  /** A wait turns out healthy if and only if health is seen before a poll finds 90 seconds gone. */
  lemma NinetySeconds(p: Polls)
    ensures SeenHealthy(p) <==> exists i: nat :: p.healthy(i) && forall j: nat :: j < i ==> p.clock(j) < p.start + 90000
  {
  }

  /** Any clock: late, early or set back; only the bound on the number of inspections needs it to advance. */
  method WaitForHealthy(p: Polls) returns (healthy: bool, inspections: nat)
    requires Ends(p)
    ensures healthy <==> SeenHealthy(p)
    ensures inspections >= 1 && EndsAt(p, inspections - 1) && forall i: nat :: i < inspections - 1 ==> !EndsAt(p, i)
    ensures Advances(p) ==> inspections <= 46
    ensures healthy <==> p.healthy(inspections - 1)
  {
    hide Advances;
    ghost var end: nat :| EndsAt(p, end);
    var deadline := p.start + HEALTH_POLL_TIMEOUT_MS;
    var poll: nat := 0;
    while true
      invariant poll <= end && (Advances(p) ==> poll <= 45)
      invariant forall j: nat :: j < poll ==> !EndsAt(p, j)
      invariant forall j: nat :: j < poll ==> !p.healthy(j) && p.clock(j) < deadline
      decreases end - poll
    {
      if Advances(p) {
        AdvancingEnds(p);
      }
      if p.healthy(poll) {
        return true, poll + 1;
      }
      if p.clock(poll) >= deadline {
        return false, poll + 1;
      }
      poll := poll + 1;
    }
  }

  // ----- the record -----

  datatype Plans = Plans(server: RecreateSpec, broker: RecreateSpec)

  datatype Outcome = Success | RolledBack | Failed

  datatype Stage = PreFlight | ServerHealth | BrokerHealth

  datatype ResultFile =
    | InProgress(toVersion: string, rollbackPlan: Plans)
    | Done(outcome: Outcome, fromVersion: Option<string>, toVersion: string, failedAt: Option<Stage>)

  // ----- the machine -----

  type Containers = map<nat, Container>

  /** What is left behind when the updater stops at some point. */
  datatype Moment = Moment(containers: Containers, result: Option<ResultFile>)

  /** `after` differs from `before` at most at `ids`. */
  predicate OnlyAt(before: Containers, after: Containers, ids: set<nat>) {
    && (forall k :: k in before && k !in ids ==> k in after && after[k] == before[k])
    && (forall k :: k in after && k !in ids ==> k in before)
  }

  class Machine {
    const images: Images
    const repoTags: map<string, seq<string>>
    var containers: Containers
    var nextId: nat
    var result: Option<ResultFile>
    ghost var log: seq<Moment>

    ghost predicate Valid()
      reads this
    {
      forall id :: id in containers ==> id < nextId
    }

    constructor (images: Images, repoTags: map<string, seq<string>>, containers: Containers, nextId: nat,
                 result: Option<ResultFile>)
      requires forall id :: id in containers ==> id < nextId
      ensures Valid() && this.images == images && this.repoTags == repoTags
      ensures this.containers == containers && this.result == result && log == []
    {
      this.images, this.repoTags := images, repoTags;
      this.containers, this.nextId, this.result, log := containers, nextId, result, [];
    }

    method WriteResultFile(content: ResultFile)
      modifies this`result, this`log
      ensures result == Some(content) && log == old(log) + [Moment(containers, result)]
    {
      result := Some(content);
      log := log + [Moment(containers, result)];
    }

    /** Any container with the name, when there is one. */
    method ResolveIdByName(name: string) returns (id: Option<nat>)
      ensures id.Some? ==> id.value in containers && containers[id.value].config.name == name
      ensures id == None ==> forall k :: k in containers ==> containers[k].config.name != name
    {
      if k :| k in containers && containers[k].config.name == name {
        return Some(k);
      }
      return None;
    }

    /** Stopping may fail, which is ignored; removal is what matters. */
    method StopAndRemove(id: nat)
      requires Valid() && id in containers
      modifies this`containers, this`log
      ensures Valid() && containers == old(containers) - {id}
      ensures Extends(old(log), log, old(containers), result, {id})
      ensures NewNamed(old(log), log, id, old(containers[id].config.name))
    {
      if * {
        containers := containers[id := containers[id].(running := false)];
        log := log + [Moment(containers, result)];
      }
      containers := containers - {id};
      log := log + [Moment(containers, result)];
    }

    method CreateAndStart(spec: RecreateSpec) returns (id: nat)
      requires Valid()
      modifies this`containers, this`nextId, this`log
      ensures Valid() && id == old(nextId) < nextId
      ensures containers == old(containers)[id := Container(spec, true)]
      ensures Extends(old(log), log, old(containers), result, {id})
      ensures NewNamed(old(log), log, id, spec.name)
    {
      id := nextId;
      nextId := nextId + 1;
      containers := containers[id := Container(spec, false)];
      log := log + [Moment(containers, result)];
      containers := containers[id := containers[id].(running := true)];
      log := log + [Moment(containers, result)];
    }

    /** One container replaced by one made from `spec`. */
    method Recreate(id: nat, spec: RecreateSpec) returns (newId: nat)
      requires Valid() && id in containers
      modifies this`containers, this`nextId, this`log
      ensures Valid() && old(nextId) == newId < nextId
      ensures containers == (old(containers) - {id})[newId := Container(spec, true)]
      ensures Extends(old(log), log, old(containers), result, {id, newId})
      ensures NewNamed(old(log), log, newId, spec.name) && NewNamed(old(log), log, id, old(containers[id].config.name))
    {
      StopAndRemove(id);
      ghost var middle, removed := log, containers;
      newId := CreateAndStart(spec);
      ExtendsTwice(old(log), middle, log, old(containers), removed, result, {id}, {newId});
      assert forall i :: |old(log)| <= i < |middle| ==> log[i] == middle[i];
    }
  }

  /** The log grows by moments that keep the record and differ from `before` only at `ids`. */
  ghost predicate Extends(was: seq<Moment>, now: seq<Moment>, before: Containers, result: Option<ResultFile>,
                          ids: set<nat>) {
    && was <= now
    && forall i :: |was| <= i < |now| ==> now[i].result == result && OnlyAt(before, now[i].containers, ids)
  }

  /** Whatever appears at `id` in the new moments has this name. */
  ghost predicate NewNamed(was: seq<Moment>, now: seq<Moment>, id: nat, name: string) {
    && was <= now
    && forall i :: |was| <= i < |now| && id in now[i].containers ==> now[i].containers[id].config.name == name
  }

  lemma ExtendsTwice(a: seq<Moment>, b: seq<Moment>, c: seq<Moment>, before: Containers, middle: Containers,
                     result: Option<ResultFile>, ids: set<nat>, more: set<nat>)
    requires Extends(a, b, before, result, ids) && Extends(b, c, middle, result, more)
    requires OnlyAt(before, middle, ids)
    ensures Extends(a, c, before, result, ids + more)
  {
    forall i | |a| <= i < |c| ensures c[i].result == result && OnlyAt(before, c[i].containers, ids + more) {
      if i < |b| {
        assert c[i] == b[i];
      }
    }
  }

  // ----- the run -----

  datatype UpdaterTarget = UpdaterTarget(serverContainerName: string, brokerContainerName: string,
                                         serverImageRef: string, brokerImageRef: string)

  /** Everything about the outside world that decides a run. */
  datatype Schedule = Schedule(pullServer: bool, pullBroker: bool, serverImageReadable: bool, brokerImageReadable: bool,
                               serverPolls: Polls, brokerPolls: Polls)

  /** Every wait the run gets to comes to an end. */
  ghost predicate WaitsEnd(schedule: Schedule) {
    Ends(schedule.serverPolls) && (SeenHealthy(schedule.serverPolls) ==> Ends(schedule.brokerPolls))
  }

  const PANEL_SERVER_REPOSITORY := "ghcr.io/arvinrahnama/docker-webmail-gui-server"

  /** The first of the tags that is a full version of the repository. */
  ghost predicate IsFirstTag(repoTags: seq<string>, repository: string, version: string) {
    exists i :: 0 <= i < |repoTags| && repoTags[i] == repository + ":" + version
                && forall j, v :: 0 <= j < i && repoTags[j] == repository + ":" + v ==> !IsVersion(v)
  }

  /** The full version tag of a repository among an image's tags. */
  method ExtractPanelVersion(repoTags: seq<string>, repository: string) returns (version: Option<string>)
    ensures version.Some? ==> IsVersion(version.value) && PanelImageReference(repository, version.value) in repoTags
    ensures version.Some? ==> IsFirstTag(repoTags, repository, version.value)
    ensures version == None ==> forall v :: PanelImageReference(repository, v) in repoTags ==> !IsVersion(v)
  {
    hide IsVersion;
    var prefix := repository + ":";
    for i := 0 to |repoTags|
      invariant forall j, v :: 0 <= j < i && repoTags[j] == repository + ":" + v ==> !IsVersion(v)
    {
      var tag := repoTags[i];
      if prefix <= tag {
        assert tag == PanelImageReference(repository, tag[|prefix|..]);
        if IsVersion(tag[|prefix|..]) {
          assert repoTags[i] == repository + ":" + tag[|prefix|..];
          return Some(tag[|prefix|..]);
        }
      }
      forall v | tag == PanelImageReference(repository, v) ensures !IsVersion(v) {
        assert v == tag[|prefix|..];
      }
    }
    return None;
  }

  /** A run that got past its checks: where it started, and which containers it left as the pair. */
  datatype Run = Run(images: Images, before: Containers, server: nat, broker: nat, target: UpdaterTarget,
                     serverOldImage: Option<ImageConfig>, brokerOldImage: Option<ImageConfig>,
                     newServer: nat, newBroker: nat)
  {
    ghost predicate Valid() {
      && server in before && broker in before && server != broker
      && before[server].config.name == target.serverContainerName
      && before[broker].config.name == target.brokerContainerName
      && (serverOldImage.Some? ==> serverOldImage == ImageOf(images, before[server].config.image))
      && (brokerOldImage.Some? ==> brokerOldImage == ImageOf(images, before[broker].config.image))
    }

    /** Each old image is the one the container was on, if the schedule lets it be read. */
    ghost predicate ReadBy(schedule: Schedule)
      requires Valid()
    {
      && serverOldImage == (if schedule.serverImageReadable then ImageOf(images, before[server].config.image) else None)
      && brokerOldImage == (if schedule.brokerImageReadable then ImageOf(images, before[broker].config.image) else None)
    }

    /** Both captured specs. */
    ghost function Captured(): Plans
      requires Valid()
    {
      Plans(Inspect(images, before[server]), Inspect(images, before[broker]))
    }

    /** What is on record while the pair is being replaced. */
    ghost function Plan(): ResultFile
      requires Valid()
    {
      InProgress(VersionFromReference(target.serverImageRef), Captured())
    }

    /** Both specs the new containers are made from. */
    ghost function Swapped(): Plans
      requires Valid()
    {
      Plans(BuildImageSwapSpec(Captured().server, serverOldImage, target.serverImageRef),
            BuildImageSwapSpec(Captured().broker, brokerOldImage, target.brokerImageRef))
    }

    /** No other container changes, and nothing new appears under another name. */
    ghost predicate OthersKept(now: Containers) {
      && (forall k :: k in before && k != server && k != broker ==> k in now && now[k] == before[k])
      && (forall k :: k in now && k !in before ==>
            now[k].config.name == target.serverContainerName || now[k].config.name == target.brokerContainerName)
    }

    ghost predicate PairUntouched(now: Containers)
      requires Valid()
    {
      server in now && broker in now && now[server] == before[server] && now[broker] == before[broker]
    }

    /** Some container inspects as the spec. */
    ghost predicate Stands(now: Containers, spec: RecreateSpec) {
      exists k :: k in now && Inspect(images, now[k]) == spec
    }

    ghost predicate Truthful(outcome: Outcome, now: Containers)
      requires Valid()
    {
      match outcome
      case Success =>
        && (exists k :: k in now && now[k] == Container(Swapped().server, true))
        && (exists k :: k in now && now[k] == Container(Swapped().broker, true))
      case RolledBack => Stands(now, Captured().server) && Stands(now, Captured().broker)
      case Failed => false
    }

    /** If the pair has been touched, the record holds the rollback plan or a truthful verdict. */
    ghost predicate Recorded(m: Moment)
      requires Valid()
    {
      && OthersKept(m.containers)
      && (PairUntouched(m.containers)
          || m.result == Some(Plan())
          || (m.result.Some? && m.result.value.Done? && Truthful(m.result.value.outcome, m.containers)))
    }

    /** What a completed run leaves, by its outcome. */
    ghost predicate Final(schedule: Schedule, outcome: Outcome, now: Containers)
      requires Valid()
    {
      match outcome
      case Success =>
        && SeenHealthy(schedule.serverPolls) && SeenHealthy(schedule.brokerPolls)
        && newServer !in before && newBroker !in before && newServer != newBroker
        && now == (before - {server, broker})[newServer := Container(Swapped().server, true)]
                                             [newBroker := Container(Swapped().broker, true)]
      case RolledBack =>
        if !SeenHealthy(schedule.serverPolls) then
          && newServer !in before && newBroker == broker
          && now == (before - {server})[newServer := Container(Captured().server, true)]
        else
          && !SeenHealthy(schedule.brokerPolls)
          && newServer !in before && newBroker !in before && newServer != newBroker
          && now == (before - {server, broker})[newServer := Container(Captured().server, true)]
                                               [newBroker := Container(Captured().broker, true)]
      case Failed => now == before
    }
  }

  /** All-or-nothing: the pair ends on both target images, or inspects as it did before; never mixed. */
  lemma AllOrNothing(r: Run, schedule: Schedule, outcome: Outcome, now: Containers)
    requires r.Valid() && outcome != Failed && r.Final(schedule, outcome, now)
    ensures r.newServer in now && r.newBroker in now && r.newServer != r.newBroker && r.OthersKept(now)
    ensures var server, broker := now[r.newServer], now[r.newBroker];
            if outcome == Success
            then server.config.image == r.target.serverImageRef && broker.config.image == r.target.brokerImageRef
                 && server.running && broker.running
            else Inspect(r.images, server) == r.Captured().server && Inspect(r.images, broker) == r.Captured().broker
                 && server.running
    ensures r.Truthful(outcome, now)
  {
    hide Inspect, BuildImageSwapSpec, SeenHealthy;
    RollbackFidelity(r.images, r.before[r.server], true);
    RollbackFidelity(r.images, r.before[r.broker], true);
    Names(r);
    if outcome == Success {
      assert now[r.newServer] == Container(r.Swapped().server, true);
    } else if SeenHealthy(schedule.serverPolls) {
      assert now[r.newServer] == Container(r.Captured().server, true)
             && now[r.newBroker] == Container(r.Captured().broker, true);
    } else {
      assert now[r.newServer] == Container(r.Captured().server, true) && now[r.newBroker] == r.before[r.broker];
    }
  }

  // ----- runs one after another -----

  datatype Role = ServerRole | BrokerRole

  /** A run that got past its checks, with what decided it and what it left. */
  datatype Update = Update(run: Run, schedule: Schedule, outcome: Outcome, now: Containers)
  {
    /** What the updater promises of such a run. */
    ghost predicate Valid() {
      run.Valid() && outcome != Failed && run.ReadBy(schedule) && run.Final(schedule, outcome, now)
    }

    ghost function Before(role: Role): Container
      requires Valid()
    {
      if role == ServerRole then run.before[run.server] else run.before[run.broker]
    }

    ghost function After(role: Role): Container
      requires Valid()
    {
      AllOrNothing(run, schedule, outcome, now);
      if role == ServerRole then now[run.newServer] else now[run.newBroker]
    }

    ghost function Reference(role: Role): string {
      if role == ServerRole then run.target.serverImageRef else run.target.brokerImageRef
    }

    ghost predicate Read(role: Role) {
      if role == ServerRole then schedule.serverImageReadable else schedule.brokerImageReadable
    }
  }

  /** One run swaps the image, reading the old one, or leaves a container that inspects as before. */
  lemma UpdateSwapsOrKeeps(u: Update, role: Role)
    requires u.Valid()
    ensures u.outcome == Success && u.Read(role) ==>
              u.After(role) == Swap(u.run.images, u.Before(role), u.Reference(role))
    ensures u.outcome == RolledBack ==> Inspect(u.run.images, u.After(role)) == Inspect(u.run.images, u.Before(role))
  {
    hide Inspect, BuildImageSwapSpec, SeenHealthy, ImageOf;
    AllOrNothing(u.run, u.schedule, u.outcome, u.now);
    InspectKeeps(u.run.images, u.Before(role));
  }

  /**
   * A successful run that could not read the old image leaves what the container inspected as,
   * on the target image, without provenance.
   */
  lemma UnreadUpdate(u: Update, role: Role)
    requires u.Valid() && u.outcome == Success && !u.Read(role)
    ensures u.After(role).config
            == Genuine(u.run.images, [], Inspect(u.run.images, u.Before(role))).(image := u.Reference(role))
    ensures u.After(role).running
  {
    hide Inspect, BuildImageSwapSpec, SeenHealthy, ImageOf, Genuine;
    AllOrNothing(u.run, u.schedule, u.outcome, u.now);
    UnreadIsGenuine(u.run.images, Inspect(u.run.images, u.Before(role)), u.Reference(role));
  }

  /** The references that the runs that succeeded moved a container to. */
  ghost function Reached(updates: seq<Update>, role: Role): seq<string> {
    if updates == [] then [] else ReachedBy(updates[0], role) + Reached(updates[1..], role)
  }

  ghost function ReachedBy(u: Update, role: Role): seq<string> {
    if u.outcome == Success then [u.Reference(role)] else []
  }

  /** A run that can read the image it moves away from. */
  ghost predicate Informed(images: Images, u: Update, role: Role) {
    u.Valid() && u.run.images == images && (u.outcome == Success ==> u.Read(role))
  }

  /** Each run finds the pair as the one before it left it. */
  ghost predicate Consecutive(images: Images, updates: seq<Update>, role: Role) {
    && (forall i :: 0 <= i < |updates| ==> Informed(images, updates[i], role))
    && forall i, j :: 0 <= i && j == i + 1 && j < |updates| ==> Follows(images, updates[i], updates[j], role)
  }

  ghost predicate Follows(images: Images, u: Update, next: Update, role: Role)
    requires u.Valid() && next.Valid()
  {
    Inspect(images, next.Before(role)) == Inspect(images, u.After(role))
  }

  lemma SwapsOfSame(images: Images, a: Container, b: Container, targets: seq<string>)
    requires Inspect(images, a) == Inspect(images, b)
    ensures Inspect(images, Swaps(images, a, targets)) == Inspect(images, Swaps(images, b, targets))
  {
    hide Inspect, BuildImageSwapSpec, VersionFromReference;
    InspectKeeps(images, a);
    InspectKeeps(images, b);
    if targets != [] {
      assert Swap(images, a, targets[0]) == Swap(images, b, targets[0]);
    }
  }

  /**
   * Whatever it is swapped to later, a run's container ends as if it had been swapped by the run
   * too, or not at all.
   */
  lemma OneRunSwaps(images: Images, u: Update, role: Role, targets: seq<string>)
    requires Informed(images, u, role)
    ensures Inspect(images, Swaps(images, u.Before(role), ReachedBy(u, role) + targets))
            == Inspect(images, Swaps(images, u.After(role), targets))
  {
    hide Inspect, Swap;
    UpdateSwapsOrKeeps(u, role);
    var before, after := u.Before(role), u.After(role);
    if u.outcome == Success {
      assert ([u.Reference(role)] + targets)[1..] == targets;
    } else {
      assert [] + targets == targets;
      SwapsOfSame(images, before, after, targets);
    }
  }

  /**
   * However many updates were run, and however many of them were rolled back in between,
   * each container of the pair inspects as the one it was, swapped along the images of
   * the successful ones.
   */
  lemma {:induction false} RunsAreSwaps(images: Images, updates: seq<Update>, role: Role)
    requires updates != [] && Consecutive(images, updates, role)
    ensures Inspect(images, updates[|updates| - 1].After(role))
            == Inspect(images, Swaps(images, updates[0].Before(role), Reached(updates, role)))
    decreases |updates|
  {
    hide Inspect, Swaps, ReachedBy, Follows, Informed;
    var rest := updates[1..];
    assert updates[0].Valid() by { InformedIsValid(images, updates[0], role); }
    OneRunSwaps(images, updates[0], role, Reached(rest, role));
    if rest == [] {
      NoSwaps(images, updates[0].After(role));
    } else {
      LaterRuns(images, updates, role);
      RunsAreSwaps(images, rest, role);
      SwapsOfSame(images, updates[0].After(role), rest[0].Before(role), Reached(rest, role));
    }
  }

  /** So what the pair inspects as is what it was given, on the new image, without what any image left behind put in. */
  lemma RunsAreGenuine(images: Images, updates: seq<Update>, role: Role)
    requires updates != [] && Consecutive(images, updates, role) && Reached(updates, role) != []
    requires var c, targets := updates[0].Before(role), Reached(updates, role);
             forall i :: i in OldImages(c, targets) ==> i in images
    ensures var c, targets := updates[0].Before(role), Reached(updates, role);
            var genuine := Genuine(images, OldImages(c, targets), c.config).(image := targets[|targets| - 1]);
            Inspect(images, updates[|updates| - 1].After(role)) == Inspect(images, Container(genuine, true))
  {
    hide Swaps, Genuine, Reached, OldImages;
    var c, targets := updates[0].Before(role), Reached(updates, role);
    RunsAreSwaps(images, updates, role);
    ChainIsGenuine(images, c, targets);
  }

  lemma InformedIsValid(images: Images, u: Update, role: Role)
    requires Informed(images, u, role)
    ensures u.Valid()
  {
  }

  lemma NoSwaps(images: Images, c: Container)
    ensures Swaps(images, c, []) == c
  {
  }

  lemma LaterRuns(images: Images, updates: seq<Update>, role: Role)
    requires |updates| > 1 && Consecutive(images, updates, role)
    ensures updates[0].Valid() && updates[1].Valid() && Consecutive(images, updates[1..], role)
    ensures Inspect(images, updates[1].Before(role)) == Inspect(images, updates[0].After(role))
  {
    hide Inspect, Informed;
    forall i | 0 <= i < |updates| ensures updates[i].Valid() {
      InformedIsValid(images, updates[i], role);
    }
    assert Follows(images, updates[0], updates[1], role);
    var rest := updates[1..];
    forall i, j | 0 <= i && j == i + 1 && j < |rest| ensures Follows(images, rest[i], rest[j], role) {
      assert Follows(images, updates[i + 1], updates[j + 1], role);
    }
  }

  lemma Names(r: Run)
    requires r.Valid()
    ensures r.Captured().server.name == r.Swapped().server.name == r.target.serverContainerName
    ensures r.Captured().broker.name == r.Swapped().broker.name == r.target.brokerContainerName
    ensures r.Swapped().server.image == r.target.serverImageRef && r.Swapped().broker.image == r.target.brokerImageRef
  {
    hide Inspect, BuildImageSwapSpec, VersionFromReference;
    InspectKeeps(r.images, r.before[r.server]);
    InspectKeeps(r.images, r.before[r.broker]);
    SwapKeeps(r.Captured().server, r.serverOldImage, r.target.serverImageRef);
    SwapKeeps(r.Captured().broker, r.brokerOldImage, r.target.brokerImageRef);
  }

  lemma InspectKeeps(images: Images, c: Container)
    ensures Inspect(images, c).name == c.config.name && Inspect(images, c).image == c.config.image
  {
  }

  lemma SwapKeeps(spec: RecreateSpec, oldImage: Option<ImageConfig>, target: string)
    ensures BuildImageSwapSpec(spec, oldImage, target).name == spec.name
    ensures BuildImageSwapSpec(spec, oldImage, target).image == target
  {
  }

  /** Which containers end up as the pair has no part in the plan. */
  lemma SamePlan(r: Run, run: Run, was: seq<Moment>, now: seq<Moment>)
    requires r.Valid() && run == r.(newServer := run.newServer, newBroker := run.newBroker)
    requires UnderPlan(r, was, now)
    ensures UnderPlan(run, was, now)
  {
    hide PlanHolds;
    SameRun(r, run);
    forall i | |was| <= i < |now| ensures PlanHolds(run, now[i]) {
      assert PlanHolds(r, now[i]);
    }
  }

  lemma SameRun(r: Run, run: Run)
    requires r.Valid() && run == r.(newServer := run.newServer, newBroker := run.newBroker)
    ensures run.Valid() && forall m :: PlanHolds(r, m) ==> PlanHolds(run, m)
  {
    hide Inspect, BuildImageSwapSpec, VersionFromReference, ImageOf;
  }

  /** A moment with the plan on record and every other container as it was. */
  ghost predicate PlanHolds(r: Run, m: Moment)
    requires r.Valid()
  {
    m.result == Some(r.Plan()) && r.OthersKept(m.containers)
  }

  /** The new moments of a log keep the plan on record and every other container. */
  ghost predicate UnderPlan(r: Run, was: seq<Moment>, now: seq<Moment>)
    requires r.Valid()
  {
    && was <= now
    && forall i :: |was| <= i < |now| ==> PlanHolds(r, now[i])
  }

  /** Recreating one of the pair, or one of its replacements, is done under the plan. */
  lemma RecreateUnderPlan(r: Run, was: seq<Moment>, now: seq<Moment>, before: Containers, result: Option<ResultFile>,
                          id: nat, newId: nat)
    requires r.Valid() && r.OthersKept(before) && id in before
    requires result == Some(r.Plan())
    requires id == r.server || id == r.broker || id !in r.before
    requires newId !in r.before
    requires Extends(was, now, before, result, {id, newId})
    requires NewNamed(was, now, id, r.target.serverContainerName)
             || NewNamed(was, now, id, r.target.brokerContainerName)
    requires NewNamed(was, now, newId, r.target.serverContainerName)
             || NewNamed(was, now, newId, r.target.brokerContainerName)
    ensures UnderPlan(r, was, now)
  {
    hide Inspect, VersionFromReference;
    forall i | |was| <= i < |now| ensures PlanHolds(r, now[i]) {
      var c := now[i].containers;
      assert OnlyAt(before, c, {id, newId});
      forall k | k in c && k !in r.before
        ensures c[k].config.name == r.target.serverContainerName || c[k].config.name == r.target.brokerContainerName
      {
        if k != id && k != newId {
          assert k in before && c[k] == before[k];
        }
      }
    }
  }

  lemma UnderPlanTwice(r: Run, a: seq<Moment>, b: seq<Moment>, c: seq<Moment>)
    requires r.Valid() && UnderPlan(r, a, b) && UnderPlan(r, b, c)
    ensures UnderPlan(r, a, c)
  {
    hide PlanHolds;
    forall i | |a| <= i < |c| ensures PlanHolds(r, c[i]) {
      if i < |b| {
        assert c[i] == b[i];
      }
    }
  }

  /** Every new moment is recorded: a crash at any of them leaves the plan or a true verdict behind. */
  ghost predicate AllRecorded(r: Run, was: seq<Moment>, now: seq<Moment>)
    requires r.Valid()
  {
    was <= now && forall i :: |was| <= i < |now| ==> r.Recorded(now[i])
  }

  lemma FinishRecorded(r: Run, was: seq<Moment>, middle: seq<Moment>, now: seq<Moment>, outcome: Outcome, last: Moment)
    requires r.Valid() && UnderPlan(r, was, middle) && now == middle + [last]
    requires r.OthersKept(last.containers)
    requires last.result.Some? && last.result.value.Done? && last.result.value.outcome == outcome
    requires r.Truthful(outcome, last.containers)
    ensures AllRecorded(r, was, now)
  {
    hide Inspect, BuildImageSwapSpec, VersionFromReference, ImageOf;
    forall i | |was| <= i < |now| ensures r.Recorded(now[i]) {
      if i < |middle| {
        assert now[i] == middle[i] && PlanHolds(r, middle[i]);
      } else {
        assert now[i] == last;
      }
    }
  }

  method ReadOldImage(m: Machine, reference: string, readable: bool) returns (image: Option<ImageConfig>)
    ensures image == if readable then ImageOf(m.images, reference) else None
  {
    return if readable then ImageOf(m.images, reference) else None;
  }

  /** The full version among an image's tags, when it has one. */
  ghost predicate IsFromVersion(repoTags: map<string, seq<string>>, image: string, version: Option<string>) {
    var tags := if image in repoTags then repoTags[image] else [];
    if version.Some? then
      && IsVersion(version.value) && PanelImageReference(PANEL_SERVER_REPOSITORY, version.value) in tags
      && IsFirstTag(tags, PANEL_SERVER_REPOSITORY, version.value)
    else forall v :: PanelImageReference(PANEL_SERVER_REPOSITORY, v) in tags ==> !IsVersion(v)
  }

  /** The version an update came from is that of the panel server's own repository. */
  lemma FromServerImage(repoTags: map<string, seq<string>>, image: string, version: string)
    requires IsFromVersion(repoTags, image, Some(version))
    ensures IsVersion(version) && image in repoTags
    ensures "ghcr.io/arvinrahnama/docker-webmail-gui-server:" + version in repoTags[image]
  {
    assert PANEL_SERVER_REPOSITORY + ":" == "ghcr.io/arvinrahnama/docker-webmail-gui-server:";
  }

  method ResolveFromVersion(m: Machine, serverImage: string) returns (version: Option<string>)
    ensures IsFromVersion(m.repoTags, serverImage, version)
  {
    hide IsVersion;
    if serverImage !in m.repoTags {
      return None;
    }
    version := ExtractPanelVersion(m.repoTags[serverImage], PANEL_SERVER_REPOSITORY);
  }

  /** Gives up before anything is touched. */
  method FailPreFlight(m: Machine, toVersion: string)
    requires m.Valid()
    modifies m`result, m`log
    ensures m.Valid() && m.containers == old(m.containers)
    ensures m.result == Some(Done(Failed, None, toVersion, Some(PreFlight)))
    ensures m.log == old(m.log) + [Moment(m.containers, m.result)]
  {
    m.WriteResultFile(Done(Failed, None, toVersion, Some(PreFlight)));
  }

  /** Which check a run that went this way failed at. */
  ghost function StageOf(schedule: Schedule, outcome: Outcome): Option<Stage> {
    match outcome
    case Success => None
    case Failed => Some(PreFlight)
    case RolledBack => Some(if SeenHealthy(schedule.serverPolls) then BrokerHealth else ServerHealth)
  }

  ghost predicate CanStart(target: UpdaterTarget, schedule: Schedule, containers: Containers) {
    schedule.pullServer && schedule.pullBroker && BothExist(target, containers)
  }

  ghost predicate BothExist(target: UpdaterTarget, containers: Containers) {
    && (exists k :: k in containers && containers[k].config.name == target.serverContainerName)
    && (exists k :: k in containers && containers[k].config.name == target.brokerContainerName)
  }

  method ResolvePair(m: Machine, target: UpdaterTarget) returns (serverId: Option<nat>, brokerId: Option<nat>)
    ensures serverId.Some? && brokerId.Some? <==> BothExist(target, m.containers)
    ensures serverId.Some? ==>
              && serverId.value in m.containers
              && m.containers[serverId.value].config.name == target.serverContainerName
    ensures brokerId.Some? ==>
              && brokerId.value in m.containers
              && m.containers[brokerId.value].config.name == target.brokerContainerName
  {
    serverId := m.ResolveIdByName(target.serverContainerName);
    brokerId := m.ResolveIdByName(target.brokerContainerName);
  }

  method RunSelfUpdate(m: Machine, target: UpdaterTarget, schedule: Schedule)
      returns (outcome: Outcome, ghost run: Option<Run>)
    requires m.Valid() && target.serverContainerName != target.brokerContainerName
    requires CanStart(target, schedule, m.containers) ==> WaitsEnd(schedule)
    modifies m
    ensures m.Valid() && old(m.log) <= m.log
    ensures outcome == Failed <==> !CanStart(target, schedule, old(m.containers))
    ensures outcome == Failed ==>
              m.containers == old(m.containers) && m.log == old(m.log) + [Moment(m.containers, m.result)]
    ensures outcome == Success <==> CanStart(target, schedule, old(m.containers))
                                    && SeenHealthy(schedule.serverPolls) && SeenHealthy(schedule.brokerPolls)
    ensures m.result.Some? && m.result.value.Done?
            && m.result == Some(Done(outcome, m.result.value.fromVersion, VersionFromReference(target.serverImageRef),
                                     StageOf(schedule, outcome)))
    ensures m.result.value.failedAt
            == match outcome
               case Success => None
               case Failed => Some(PreFlight)
               case RolledBack => Some(if SeenHealthy(schedule.serverPolls) then BrokerHealth else ServerHealth)
    ensures run == None ==> m.result.value.fromVersion == None
    ensures run.Some? <==> outcome != Failed
    ensures run.Some? ==>
              && run.value.Valid() && run.value.images == m.images
              && run.value.before == old(m.containers) && run.value.target == target
              && run.value.ReadBy(schedule) && run.value.Final(schedule, outcome, m.containers)
              && AllRecorded(run.value, old(m.log), m.log)
              && IsFromVersion(m.repoTags, run.value.Captured().server.image, m.result.value.fromVersion)
  {
    hide SeenHealthy, WaitsEnd, AllRecorded, Inspect, BuildImageSwapSpec, VersionFromReference, BothExist, ImageOf,
         IsFromVersion;
    var toVersion := VersionFromReference(target.serverImageRef);
    run := None;
    if !(schedule.pullServer && schedule.pullBroker) {
      FailPreFlight(m, toVersion);
      return Failed, None;
    }
    var serverId, brokerId := ResolvePair(m, target);
    if serverId == None || brokerId == None {
      FailPreFlight(m, toVersion);
      return Failed, None;
    }
    var serverPlan := Inspect(m.images, m.containers[serverId.value]);
    var brokerPlan := Inspect(m.images, m.containers[brokerId.value]);
    InspectKeeps(m.images, m.containers[serverId.value]);
    InspectKeeps(m.images, m.containers[brokerId.value]);
    var serverOldImage := ReadOldImage(m, serverPlan.image, schedule.serverImageReadable);
    var brokerOldImage := ReadOldImage(m, brokerPlan.image, schedule.brokerImageReadable);
    var fromVersion := ResolveFromVersion(m, serverPlan.image);
    ghost var r := Run(m.images, m.containers, serverId.value, brokerId.value, target, serverOldImage, brokerOldImage,
                       0, 0);
    outcome, r := Proceed(m, r, schedule, serverId.value, brokerId.value, Plans(serverPlan, brokerPlan),
                          serverOldImage, brokerOldImage, target, fromVersion, toVersion);
    run := Some(r);
  }

  /** The part of the run after both plans are captured. */
  method Proceed(m: Machine, ghost r: Run, schedule: Schedule, serverId: nat, brokerId: nat, plans: Plans,
                 serverOldImage: Option<ImageConfig>, brokerOldImage: Option<ImageConfig>,
                 target: UpdaterTarget, fromVersion: Option<string>, toVersion: string)
      returns (outcome: Outcome, ghost run: Run)
    requires m.Valid() && r.Valid() && r.before == m.containers && r.images == m.images
    requires serverId == r.server && brokerId == r.broker && plans == r.Captured() && target == r.target
    requires serverOldImage == r.serverOldImage && brokerOldImage == r.brokerOldImage
    requires toVersion == VersionFromReference(target.serverImageRef)
    requires WaitsEnd(schedule)
    modifies m
    ensures m.Valid() && old(m.log) <= m.log
    ensures run == r.(newServer := run.newServer, newBroker := run.newBroker)
    ensures outcome == Success <==> SeenHealthy(schedule.serverPolls) && SeenHealthy(schedule.brokerPolls)
    ensures outcome != Failed && m.result == Some(Done(outcome, fromVersion, toVersion, StageOf(schedule, outcome)))
    ensures run.Final(schedule, outcome, m.containers)
    ensures AllRecorded(run, old(m.log), m.log)
  {
    hide SeenHealthy, Ends, Extends, NewNamed, UnderPlan, AllRecorded, Inspect, BuildImageSwapSpec,
         VersionFromReference;
    Names(r);
    ghost var start := m.log;
    m.WriteResultFile(InProgress(toVersion, plans));
    StartsUnderPlan(r, start, m.log, Moment(m.containers, m.result));
    var serverSpec := BuildImageSwapSpec(plans.server, serverOldImage, target.serverImageRef);
    var newServer, serverHealthy := RecreateAndWaitHealthy(m, r, start, serverId, serverSpec, schedule.serverPolls);
    if !serverHealthy {
      var oldServer := Replace(m, r, start, newServer, plans.server);
      run := r.(newServer := oldServer, newBroker := brokerId);
      SamePlan(r, run, start, m.log);
      outcome := RolledBack;
      assert run.Final(schedule, outcome, m.containers);
      Finish(m, run, schedule, start, outcome, fromVersion, toVersion, Some(ServerHealth));
      return;
    }
    outcome, run := ProceedWithBroker(m, r, schedule, start, newServer, brokerId, plans, brokerOldImage, target,
                                      fromVersion, toVersion);
  }

  /** The broker's turn, with the server already on its new image. */
  method ProceedWithBroker(m: Machine, ghost r: Run, schedule: Schedule, ghost start: seq<Moment>, newServer: nat,
                           brokerId: nat, plans: Plans, brokerOldImage: Option<ImageConfig>,
                           target: UpdaterTarget, fromVersion: Option<string>, toVersion: string)
      returns (outcome: Outcome, ghost run: Run)
    requires UnderWay(m, r, start) && newServer !in r.before
    requires m.containers == (r.before - {r.server})[newServer := Container(r.Swapped().server, true)]
    requires brokerId == r.broker && plans == r.Captured() && target == r.target && brokerOldImage == r.brokerOldImage
    requires Ends(schedule.brokerPolls) && SeenHealthy(schedule.serverPolls)
    modifies m
    ensures m.Valid() && old(m.log) <= m.log
    ensures run == r.(newServer := run.newServer, newBroker := run.newBroker)
    ensures outcome == Success <==> SeenHealthy(schedule.brokerPolls)
    ensures outcome != Failed && m.result == Some(Done(outcome, fromVersion, toVersion, StageOf(schedule, outcome)))
    ensures run.Final(schedule, outcome, m.containers)
    ensures AllRecorded(run, start, m.log)
  {
    hide SeenHealthy, Ends, UnderPlan, AllRecorded, Inspect, BuildImageSwapSpec, VersionFromReference;
    Names(r);
    var brokerSpec := BuildImageSwapSpec(plans.broker, brokerOldImage, target.brokerImageRef);
    var newBroker, brokerHealthy := RecreateAndWaitHealthy(m, r, start, brokerId, brokerSpec, schedule.brokerPolls);
    if !brokerHealthy {
      run := RollBackBoth(m, r, schedule, start, newServer, newBroker, plans, fromVersion, toVersion);
      return RolledBack, run;
    }
    run := r.(newServer := newServer, newBroker := newBroker);
    SamePlan(r, run, start, m.log);
    outcome := Success;
    assert run.Final(schedule, outcome, m.containers);
    Finish(m, run, schedule, start, outcome, fromVersion, toVersion, None);
  }

  /** Both containers recreated from their captured specs. */
  method RollBackBoth(m: Machine, ghost r: Run, schedule: Schedule, ghost start: seq<Moment>, newServer: nat,
                      newBroker: nat, plans: Plans, fromVersion: Option<string>, toVersion: string)
      returns (ghost run: Run)
    requires UnderWay(m, r, start) && newServer !in r.before && newBroker !in r.before && newServer != newBroker
    requires m.containers == (r.before - {r.server, r.broker})[newServer := Container(r.Swapped().server, true)]
                                                               [newBroker := Container(r.Swapped().broker, true)]
    requires plans == r.Captured() && SeenHealthy(schedule.serverPolls) && !SeenHealthy(schedule.brokerPolls)
    modifies m
    ensures m.Valid() && old(m.log) <= m.log
    ensures run == r.(newServer := run.newServer, newBroker := run.newBroker)
    ensures m.result == Some(Done(RolledBack, fromVersion, toVersion, Some(BrokerHealth)))
    ensures run.Final(schedule, RolledBack, m.containers)
    ensures AllRecorded(run, start, m.log)
  {
    hide SeenHealthy, UnderPlan, AllRecorded, Inspect, BuildImageSwapSpec, VersionFromReference;
    Names(r);
    var oldServer := Replace(m, r, start, newServer, plans.server);
    var oldBroker := Replace(m, r, start, newBroker, plans.broker);
    run := r.(newServer := oldServer, newBroker := oldBroker);
    SamePlan(r, run, start, m.log);
    BothBack(r, run, schedule, m.containers, newServer, newBroker);
    Finish(m, run, schedule, start, RolledBack, fromVersion, toVersion, Some(BrokerHealth));
  }

  lemma BothBack(r: Run, run: Run, schedule: Schedule, now: Containers, newServer: nat, newBroker: nat)
    requires r.Valid() && run == r.(newServer := run.newServer, newBroker := run.newBroker)
    requires newServer !in r.before && newBroker !in r.before && newServer != newBroker
    requires run.newServer !in r.before && run.newBroker !in r.before && run.newServer != run.newBroker
    requires run.newServer != newServer && run.newServer != newBroker && run.newBroker != newBroker
    requires var swapped := (r.before - {r.server, r.broker})[newServer := Container(r.Swapped().server, true)]
                                                             [newBroker := Container(r.Swapped().broker, true)];
             now == ((swapped - {newServer})[run.newServer := Container(r.Captured().server, true)]
                     - {newBroker})[run.newBroker := Container(r.Captured().broker, true)]
    requires SeenHealthy(schedule.serverPolls) && !SeenHealthy(schedule.brokerPolls)
    ensures run.Valid() && run.Final(schedule, RolledBack, now)
  {
    hide SeenHealthy, Inspect, BuildImageSwapSpec, VersionFromReference;
    assert now == (r.before - {r.server, r.broker})[run.newServer := Container(r.Captured().server, true)]
                                                   [run.newBroker := Container(r.Captured().broker, true)];
  }

  /** The plan is on record, and every moment since `start` has been under it. */
  ghost predicate UnderWay(m: Machine, r: Run, start: seq<Moment>)
    reads m
  {
    && m.Valid() && r.Valid() && r.OthersKept(m.containers) && UnderPlan(r, start, m.log)
    && m.result == Some(r.Plan())
    && forall k :: k in r.before ==> k < m.nextId
  }

  /** Replaces one of the pair, or one of its replacements, by a container made from `spec`. */
  method Replace(m: Machine, ghost r: Run, ghost start: seq<Moment>, id: nat, spec: RecreateSpec) returns (newId: nat)
    requires UnderWay(m, r, start) && id in m.containers
    requires id == r.server || id == r.broker || id !in r.before
    requires spec.name == m.containers[id].config.name
    requires spec.name == r.target.serverContainerName || spec.name == r.target.brokerContainerName
    modifies m`containers, m`nextId, m`log
    ensures UnderWay(m, r, start) && old(m.log) <= m.log
    ensures newId == old(m.nextId) < m.nextId
    ensures m.containers == (old(m.containers) - {id})[newId := Container(spec, true)]
  {
    hide UnderPlan, Inspect, BuildImageSwapSpec, VersionFromReference;
    ghost var was, before := m.log, m.containers;
    newId := m.Recreate(id, spec);
    RecreateUnderPlan(r, was, m.log, before, m.result, id, newId);
    UnderPlanTwice(r, start, was, m.log);
  }

  /** Replaces a container and waits for the new one to report healthy. */
  method RecreateAndWaitHealthy(m: Machine, ghost r: Run, ghost start: seq<Moment>, id: nat, spec: RecreateSpec,
                                polls: Polls)
      returns (newId: nat, healthy: bool)
    requires UnderWay(m, r, start) && id in m.containers && Ends(polls)
    requires id == r.server || id == r.broker || id !in r.before
    requires spec.name == m.containers[id].config.name
    requires spec.name == r.target.serverContainerName || spec.name == r.target.brokerContainerName
    modifies m`containers, m`nextId, m`log
    ensures UnderWay(m, r, start) && old(m.log) <= m.log
    ensures newId == old(m.nextId) < m.nextId
    ensures m.containers == (old(m.containers) - {id})[newId := Container(spec, true)]
    ensures healthy <==> SeenHealthy(polls)
  {
    hide SeenHealthy, Ends, UnderWay;
    newId := Replace(m, r, start, id, spec);
    var inspections;
    healthy, inspections := WaitForHealthy(polls);
  }

  lemma StartsUnderPlan(r: Run, was: seq<Moment>, now: seq<Moment>, first: Moment)
    requires r.Valid() && now == was + [first]
    requires first.containers == r.before
    requires first.result == Some(r.Plan())
    ensures UnderPlan(r, was, now)
  {
    hide Inspect, BuildImageSwapSpec, VersionFromReference, ImageOf;
  }

  /** Writes the verdict, which is true of the pair. */
  method Finish(m: Machine, ghost r: Run, schedule: Schedule, ghost start: seq<Moment>, outcome: Outcome,
                fromVersion: Option<string>, toVersion: string, failedAt: Option<Stage>)
    requires m.Valid() && r.Valid() && outcome != Failed && r.Final(schedule, outcome, m.containers)
    requires UnderPlan(r, start, m.log)
    modifies m`result, m`log
    ensures m.Valid() && m.result == Some(Done(outcome, fromVersion, toVersion, failedAt))
    ensures m.log == old(m.log) + [Moment(m.containers, m.result)]
    ensures AllRecorded(r, start, m.log)
  {
    hide UnderPlan, AllRecorded, Inspect, BuildImageSwapSpec, VersionFromReference;
    ghost var middle := m.log;
    AllOrNothing(r, schedule, outcome, m.containers);
    m.WriteResultFile(Done(outcome, fromVersion, toVersion, failedAt));
    FinishRecorded(r, start, middle, m.log, outcome, Moment(m.containers, m.result));
  }
}
