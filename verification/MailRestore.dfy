/**
 * The rows behind `mail_restore` as steps. A deletion writes a row; a restore looks the
 * row up, awaits the mail server, and then marks the row, which only one handler can do.
 * Handlers interleave at that await, and the process may crash at any point.
 */
module MailRestore {
  import opened Bytes

  /** A row of kind `delete`; `restored` is a set `restoredAt`. */
  datatype Row = Row(connection: string, restorable: bool, restored: bool)

  datatype Progress = Idle | Restoring(op: nat)

  /** One call, with the restore ids it has yet to deal with. */
  datatype Handler = Handler(connection: string, left: seq<nat>, progress: Progress)

  /** What a call answers for one id. */
  datatype Report = Report(connection: string, op: nat, restored: bool)

  datatype Service = Service(
    live: set<string>,             // connections not deleted
    known: set<string>,            // connection ids ever created
    rows: map<nat, Row>,
    nextOp: nat,
    handlers: map<nat, Handler>,
    reports: seq<Report>,
    owners: map<nat, string>)      // the connection each row was ever written for

  const START := Service({}, {}, map[], 0, map[], [], map[])

  datatype Step =
    | CreateConnection(connection: string)
    | DeleteConnection(connection: string)
    | MessageDeleted(connection: string, restorable: bool)
    | Call(handler: nat, connection: string, ids: seq<nat>)
    | Next(handler: nat)
    | RestoreFailed(handler: nat)
    | CredentialRejected(handler: nat)                // ends the whole call
    | RestoreReturned(handler: nat, recorded: bool)   // false when writing the row of kind `restore` fails
    | Crash

  /** A row that the handler's connection may restore. */
  predicate CanRestore(s: Service, connection: string, op: nat) {
    op in s.rows && s.rows[op].connection == connection && s.rows[op].restorable && !s.rows[op].restored
  }

  /** `markRestored`: false where there is no row to mark, or it is marked already. */
  predicate WinsMark(s: Service, op: nat) {
    op in s.rows && !s.rows[op].restored
  }

  predicate Awaits(s: Service, h: nat) {
    h in s.handlers && s.handlers[h].progress.Restoring? && s.handlers[h].left != []
  }

  predicate Enabled(s: Service, step: Step) {
    match step
    case CreateConnection(c) => c !in s.known
    case DeleteConnection(c) => c in s.live
    case MessageDeleted(c, _) => c in s.live
    case Call(h, c, _) => h !in s.handlers && c in s.known
    case Next(h) => h in s.handlers && s.handlers[h].progress == Idle && s.handlers[h].left != []
    case RestoreFailed(h) => Awaits(s, h)
    case CredentialRejected(h) => Awaits(s, h)
    case RestoreReturned(h, _) => Awaits(s, h)
    case Crash => true
  }

  /** The answer for the id at hand, and on to the next. */
  function Answer(s: Service, h: nat, restored: bool): Service
    requires h in s.handlers && s.handlers[h].left != []
  {
    var handler := s.handlers[h];
    s.(reports := s.reports + [Report(handler.connection, handler.left[0], restored)],
       handlers := s.handlers[h := handler.(left := handler.left[1..], progress := Idle)])
  }

  function Apply(s: Service, step: Step): Service
    requires Enabled(s, step)
  {
    match step
    case CreateConnection(c) => s.(known := s.known + {c}, live := s.live + {c})
    case DeleteConnection(c) =>
      s.(live := s.live - {c}, rows := map op | op in s.rows && s.rows[op].connection != c :: s.rows[op])
    case MessageDeleted(c, restorable) =>
      s.(rows := s.rows[s.nextOp := Row(c, restorable, false)], nextOp := s.nextOp + 1,
         owners := s.owners[s.nextOp := c])
    case Call(h, c, ids) => s.(handlers := s.handlers[h := Handler(c, ids, Idle)])
    case Next(h) =>
      var handler := s.handlers[h];
      if CanRestore(s, handler.connection, handler.left[0])
      then s.(handlers := s.handlers[h := handler.(progress := Restoring(handler.left[0]))])
      else Answer(s, h, false)
    case RestoreFailed(h) => Answer(s, h, false)
    case CredentialRejected(h) => s.(handlers := s.handlers - {h})
    case RestoreReturned(h, recorded) =>
      var op := s.handlers[h].progress.op;
      if WinsMark(s, op)
      then Answer(s.(rows := s.rows[op := s.rows[op].(restored := true)]), h, recorded)
      else Answer(s, h, false)
    case Crash => s.(handlers := map[])
  }

  // ----- the invariant -----

  /** A report that an id was restored is backed by the row's mark, which nobody can set again. */
  predicate IsBacked(s: Service, r: Report) {
    r.restored ==>
      && r.op in s.owners && s.owners[r.op] == r.connection
      && (r.op in s.rows ==> s.rows[r.op].restored)
  }

  predicate ReportedOnce(reports: seq<Report>) {
    forall i, j :: 0 <= i < j < |reports| && reports[i].restored && reports[j].restored ==>
      reports[i].op != reports[j].op
  }

  /** What a handler is restoring is the id at hand, and was its own connection's. */
  predicate RestoresItsOwn(s: Service, h: Handler) {
    h.progress.Restoring? ==>
      && h.left != [] && h.progress.op == h.left[0]
      && h.progress.op in s.owners && s.owners[h.progress.op] == h.connection
  }

  ghost predicate Inv(s: Service) {
    && (forall op :: op in s.rows ==> op in s.owners && s.owners[op] == s.rows[op].connection)
    && (forall op :: op in s.owners ==> op < s.nextOp)
    && (forall r :: r in s.reports ==> IsBacked(s, r))
    && ReportedOnce(s.reports)
    && (forall h :: h in s.handlers ==> RestoresItsOwn(s, s.handlers[h]))
  }

  lemma StepKeeps(s: Service, step: Step)
    requires Inv(s) && Enabled(s, step)
    ensures Inv(Apply(s, step))
  {
    match step
    case RestoreReturned(h, recorded) => MarkKeeps(s, h, recorded);
    case RestoreFailed(h) => AnswerKeeps(s, h, false);
    case Next(h) =>
      if !CanRestore(s, s.handlers[h].connection, s.handlers[h].left[0]) {
        AnswerKeeps(s, h, false);
      }
    case _ =>
  }

  lemma AnswerKeeps(s: Service, h: nat, restored: bool)
    requires Inv(s) && h in s.handlers && s.handlers[h].left != []
    requires var r := Report(s.handlers[h].connection, s.handlers[h].left[0], restored);
             IsBacked(s, r) && (restored ==> forall q :: q in s.reports && q.restored ==> q.op != r.op)
    ensures Inv(Answer(s, h, restored))
  {
    var t := Answer(s, h, restored);
    var n := |s.reports|;
    forall i, j | 0 <= i < j < |t.reports| && t.reports[i].restored && t.reports[j].restored
      ensures t.reports[i].op != t.reports[j].op
    {
      if j == n {
        assert s.reports[i] in s.reports;
      }
    }
  }

  lemma MarkKeeps(s: Service, h: nat, recorded: bool)
    requires Inv(s) && Awaits(s, h)
    ensures Inv(Apply(s, RestoreReturned(h, recorded)))
  {
    var op := s.handlers[h].progress.op;
    assert RestoresItsOwn(s, s.handlers[h]);
    if WinsMark(s, op) {
      var t := s.(rows := s.rows[op := s.rows[op].(restored := true)]);
      forall r | r in t.reports ensures IsBacked(t, r) && (r.restored ==> r.op != op) {
        assert IsBacked(s, r);
      }
      AnswerKeeps(t, h, recorded);
    } else {
      AnswerKeeps(s, h, false);
    }
  }

  // ----- runs -----

  ghost predicate IsRun(states: seq<Service>, steps: seq<Step>) {
    && |states| == |steps| + 1 && states[0] == START
    && forall i :: 0 <= i < |steps| ==> Enabled(states[i], steps[i]) && states[i + 1] == Apply(states[i], steps[i])
  }

  lemma {:induction false} RunKeeps(states: seq<Service>, steps: seq<Step>, n: nat)
    requires IsRun(states, steps) && n < |states|
    ensures Inv(states[n])
  {
    hide Inv, Apply, Enabled;
    if n > 0 {
      RunKeeps(states, steps, n - 1);
      StepKeeps(states[n - 1], steps[n - 1]);
    } else {
      StartKeeps();
    }
  }

  lemma StartKeeps()
    ensures Inv(START)
  {
  }

  /**
   * In every run, however handlers interleave or crash and however often an id is given, a
   * deletion is reported restored at most once, and to the connection that made it.
   */
  lemma RestoredAtMostOnce(states: seq<Service>, steps: seq<Step>, n: nat)
    requires IsRun(states, steps) && n < |states|
    ensures var s := states[n];
            && ReportedOnce(s.reports)
            && forall r :: r in s.reports && r.restored ==> r.op in s.owners && s.owners[r.op] == r.connection
  {
    RunKeeps(states, steps, n);
    forall r | r in states[n].reports && r.restored
      ensures r.op in states[n].owners && states[n].owners[r.op] == r.connection
    {
      assert IsBacked(states[n], r);
    }
  }

  // ----- what the marks say -----

  /** The mail server has restored the message behind this row. */
  predicate ComesBack(s: Service, step: Step, op: nat) {
    step.RestoreReturned? && step.handler in s.handlers && s.handlers[step.handler].progress == Restoring(op)
  }

  lemma MarkStep(s: Service, step: Step, op: nat)
    requires Inv(s) && Enabled(s, step) && op in Apply(s, step).rows
    ensures if op in s.rows then Apply(s, step).rows[op].restored <==> s.rows[op].restored || ComesBack(s, step, op)
            else !Apply(s, step).rows[op].restored && op == s.nextOp
  {
  }

  lemma {:induction false} NoneBeforeItsRow(states: seq<Service>, steps: seq<Step>, n: nat, op: nat)
    requires IsRun(states, steps) && n < |states| && op >= states[n].nextOp
    ensures forall i :: 0 <= i < n ==> !ComesBack(states[i], steps[i], op)
  {
    hide Inv, Apply, Enabled, ComesBack;
    if n > 0 {
      RunKeeps(states, steps, n - 1);
      NextOpGrows(states[n - 1], steps[n - 1], op);
      NoneBeforeItsRow(states, steps, n - 1, op);
    }
  }

  lemma NextOpGrows(s: Service, step: Step, op: nat)
    requires Inv(s) && Enabled(s, step) && op >= Apply(s, step).nextOp
    ensures op >= s.nextOp && !ComesBack(s, step, op)
  {
    if step.RestoreReturned? {
      assert RestoresItsOwn(s, s.handlers[step.handler]);
    }
  }

  /** In every run, a row is marked if and only if some restore of it has come back from the mail server. */
  lemma {:induction false} MarkedIffRestored(states: seq<Service>, steps: seq<Step>, n: nat, op: nat)
    requires IsRun(states, steps) && n < |states| && op in states[n].rows
    ensures states[n].rows[op].restored <==> exists i :: 0 <= i < n && ComesBack(states[i], steps[i], op)
  {
    hide Inv, Apply, Enabled, ComesBack;
    if n > 0 {
      RunKeeps(states, steps, n - 1);
      MarkStep(states[n - 1], steps[n - 1], op);
      if op in states[n - 1].rows {
        MarkedIffRestored(states, steps, n - 1, op);
        assert states[n].rows[op].restored
               <==> states[n - 1].rows[op].restored || ComesBack(states[n - 1], steps[n - 1], op);
      } else {
        NoneBeforeItsRow(states, steps, n - 1, op);
        NewRowIsNotAwaited(states[n - 1], steps[n - 1], op);
      }
    }
  }

  lemma NewRowIsNotAwaited(s: Service, step: Step, op: nat)
    requires Inv(s) && Enabled(s, step) && op == s.nextOp
    ensures !ComesBack(s, step, op)
  {
    if step.RestoreReturned? {
      assert RestoresItsOwn(s, s.handlers[step.handler]);
    }
  }

  // ----- what is reported -----

  /**
   * A restore that comes back wins the row's mark unless it is taken or the row is gone; if
   * recorded, it is reported.
   */
  lemma RestoreIsReported(s: Service, h: nat, recorded: bool)
    requires Inv(s) && Awaits(s, h)
    ensures var op := s.handlers[h].progress.op; var t := Apply(s, RestoreReturned(h, recorded));
            var wins := op in s.rows && !s.rows[op].restored;
            && t.reports == s.reports + [Report(s.handlers[h].connection, op, wins && recorded)]
            && (wins ==> t.rows == s.rows[op := s.rows[op].(restored := true)])
            && (!wins ==> t.rows == s.rows)
  {
    assert RestoresItsOwn(s, s.handlers[h]);
  }

  /** An id is looked up: it is restored only if it is its own connection's, restorable and not restored yet. */
  lemma LookupDecides(s: Service, h: nat)
    requires Enabled(s, Next(h))
    ensures var handler := s.handlers[h]; var op := handler.left[0]; var t := Apply(s, Next(h));
            var may := op in s.rows && s.rows[op].connection == handler.connection
                       && s.rows[op].restorable && !s.rows[op].restored;
            if may then h in t.handlers && t.handlers[h].progress == Restoring(op) && t.reports == s.reports
            else t.reports == s.reports + [Report(handler.connection, op, false)]
                 && h in t.handlers && t.handlers[h] == handler.(left := handler.left[1..])
  {
  }

  /** A failed restore is reported as such, and the next id is dealt with. */
  lemma FailureIsReported(s: Service, h: nat)
    requires Awaits(s, h)
    ensures var handler := s.handlers[h]; var t := Apply(s, RestoreFailed(h));
            && t.reports == s.reports + [Report(handler.connection, handler.left[0], false)] && t.rows == s.rows
            && h in t.handlers && t.handlers[h] == Handler(handler.connection, handler.left[1..], Idle)
  {
  }

  predicate IsReported(s: Service, op: nat) {
    exists r :: r in s.reports && r.op == op && r.restored
  }

  /** The first restore of a row that is still there comes back, and is recorded. */
  predicate ComesBackFirst(s: Service, step: Step, op: nat) {
    ComesBack(s, step, op) && step.recorded && op in s.rows && !s.rows[op].restored
  }

  lemma ReportStep(s: Service, step: Step, op: nat)
    requires Inv(s) && Enabled(s, step)
    ensures IsReported(Apply(s, step), op) <==> IsReported(s, op) || ComesBackFirst(s, step, op)
  {
    var t := Apply(s, step);
    assert s.reports <= t.reports;
    if IsReported(s, op) {
      var r :| r in s.reports && r.op == op && r.restored;
      assert r in t.reports;
    }
    if step.RestoreReturned? {
      RestoreIsReported(s, step.handler, step.recorded);
      assert t.reports[|s.reports|] in t.reports;
    }
  }

  /** In every run, a deletion has been reported restored if and only if its first restore to come back was recorded. */
  lemma {:induction false} ReportedIffRecorded(states: seq<Service>, steps: seq<Step>, n: nat, op: nat)
    requires IsRun(states, steps) && n < |states|
    ensures IsReported(states[n], op) <==> exists i :: 0 <= i < n && ComesBackFirst(states[i], steps[i], op)
  {
    hide Inv, Apply, Enabled, IsReported, ComesBackFirst;
    if n == 0 {
      NothingReported(op);
    } else {
      ReportedIffRecorded(states, steps, n - 1, op);
      RunKeeps(states, steps, n - 1);
      ReportStep(states[n - 1], steps[n - 1], op);
    }
  }

  lemma NothingReported(op: nat)
    ensures !IsReported(START, op)
  {
  }

  // ----- rows and their connections -----

  ghost predicate RowsLive(s: Service) {
    && s.live <= s.known
    && (forall op :: op in s.rows <==> op in s.owners && s.owners[op] in s.live)
    && (forall op :: op in s.owners ==> op < s.nextOp && s.owners[op] in s.known)
  }

  lemma RowsLiveStep(s: Service, step: Step)
    requires Inv(s) && RowsLive(s) && Enabled(s, step)
    ensures RowsLive(Apply(s, step))
  {
  }

  lemma {:induction false} RowsLiveAlong(states: seq<Service>, steps: seq<Step>, n: nat)
    requires IsRun(states, steps) && n < |states|
    ensures RowsLive(states[n])
  {
    hide Inv, Apply, Enabled, RowsLive;
    if n == 0 {
      NoRows();
    } else {
      RowsLiveAlong(states, steps, n - 1);
      RunKeeps(states, steps, n - 1);
      RowsLiveStep(states[n - 1], steps[n - 1]);
    }
  }

  lemma NoRows()
    ensures RowsLive(START)
  {
  }

  /** The deletion that a row is for. */
  predicate IsDeletion(s: Service, step: Step, op: nat, connection: string) {
    step.MessageDeleted? && step.connection == connection && s.nextOp == op
  }

  lemma OwnersStep(s: Service, step: Step, op: nat, connection: string)
    requires Inv(s) && Enabled(s, step)
    ensures (op in Apply(s, step).owners && Apply(s, step).owners[op] == connection)
            <==> (op in s.owners && s.owners[op] == connection) || IsDeletion(s, step, op, connection)
  {
  }

  lemma LiveStep(s: Service, step: Step, connection: string)
    requires Enabled(s, step)
    ensures connection in Apply(s, step).live
            <==> step == CreateConnection(connection)
                 || (connection in s.live && step != DeleteConnection(connection))
  {
  }

  lemma {:induction false} OwnersAlong(states: seq<Service>, steps: seq<Step>, n: nat, op: nat, connection: string)
    requires IsRun(states, steps) && n < |states|
    ensures (op in states[n].owners && states[n].owners[op] == connection)
            <==> exists i :: 0 <= i < n && IsDeletion(states[i], steps[i], op, connection)
  {
    hide Inv, Apply, Enabled, IsDeletion;
    if n > 0 {
      OwnersAlong(states, steps, n - 1, op, connection);
      RunKeeps(states, steps, n - 1);
      OwnersStep(states[n - 1], steps[n - 1], op, connection);
    }
  }

  lemma {:induction false} LiveAlong(states: seq<Service>, steps: seq<Step>, n: nat, connection: string)
    requires IsRun(states, steps) && n < |states|
    ensures connection in states[n].live
            <==> exists i :: 0 <= i < n && steps[i] == CreateConnection(connection)
                             && forall j :: i < j < n ==> steps[j] != DeleteConnection(connection)
  {
    hide Apply, Enabled;
    if n > 0 {
      LiveAlong(states, steps, n - 1, connection);
      LiveStep(states[n - 1], steps[n - 1], connection);
    }
  }

  /**
   * In every run, a row is there exactly as long as it has been written, by a deletion on its
   * connection, and that connection has not been deleted.
   */
  lemma RowsLastAsTheirConnection(states: seq<Service>, steps: seq<Step>, n: nat, op: nat, connection: string)
    requires IsRun(states, steps) && n < |states|
    ensures (op in states[n].rows && states[n].rows[op].connection == connection)
            <==>
            && (exists i :: 0 <= i < n && IsDeletion(states[i], steps[i], op, connection))
            && (exists i :: 0 <= i < n && steps[i] == CreateConnection(connection)
                            && forall j :: i < j < n ==> steps[j] != DeleteConnection(connection))
  {
    RunKeeps(states, steps, n);
    RowsLiveAlong(states, steps, n);
    OwnersAlong(states, steps, n, op, connection);
    LiveAlong(states, steps, n, connection);
  }

  /**
   * It all can happen: a restore is cut off by a crash, the next call for the same id restores
   * the message, a third is told that it is restored already, and the connection is deleted.
   */
  lemma CrashThenRestored() returns (states: seq<Service>, steps: seq<Step>)
    ensures steps == [CreateConnection("c"), MessageDeleted("c", true), Call(0, "c", [0]), Next(0), Crash,
                      Call(0, "c", [0]), Next(0), RestoreReturned(0, true), Call(1, "c", [0]), Next(1),
                      DeleteConnection("c")]
    ensures IsRun(states, steps)
    ensures states[11].reports == [Report("c", 0, true), Report("c", 0, false)] && states[11].rows == map[]
  {
    var row, marked := map[0 := Row("c", true, false)], map[0 := Row("c", true, true)];
    var s1 := START.(known := {"c"}, live := {"c"});
    var s2 := s1.(rows := row, nextOp := 1, owners := map[0 := "c"]);
    var s3 := s2.(handlers := map[0 := Handler("c", [0], Idle)]);
    var s4 := s2.(handlers := map[0 := Handler("c", [0], Restoring(0))]);
    var s8 := s2.(rows := marked, handlers := map[0 := Handler("c", [], Idle)], reports := [Report("c", 0, true)]);
    var s9 := s8.(handlers := s8.handlers[1 := Handler("c", [0], Idle)]);
    var s10 := s8.(handlers := s8.handlers[1 := Handler("c", [], Idle)],
                   reports := [Report("c", 0, true), Report("c", 0, false)]);
    var s11 := s10.(live := {}, rows := map[]);
    Begins(s1, s2, s3, s4);
    Restores(s2, s4, s8);
    AnswersAgain(s8, s9, s10, s11);
    hide Apply, Enabled;
    steps := [CreateConnection("c"), MessageDeleted("c", true), Call(0, "c", [0]), Next(0), Crash,
              Call(0, "c", [0]), Next(0), RestoreReturned(0, true), Call(1, "c", [0]), Next(1), DeleteConnection("c")];
    states := [START, s1, s2, s3, s4, s2, s3, s4, s8, s9, s10, s11];
  }

  predicate Goes(s: Service, step: Step, t: Service) {
    Enabled(s, step) && t == Apply(s, step)
  }

  lemma Begins(s1: Service, s2: Service, s3: Service, s4: Service)
    requires s1 == START.(known := {"c"}, live := {"c"})
    requires s2 == s1.(rows := map[0 := Row("c", true, false)], nextOp := 1, owners := map[0 := "c"])
    requires s3 == s2.(handlers := map[0 := Handler("c", [0], Idle)])
    requires s4 == s2.(handlers := map[0 := Handler("c", [0], Restoring(0))])
    ensures Goes(START, CreateConnection("c"), s1) && Goes(s1, MessageDeleted("c", true), s2)
    ensures Goes(s2, Call(0, "c", [0]), s3) && Goes(s3, Next(0), s4) && Goes(s4, Crash, s2)
  {
  }

  lemma Restores(s2: Service, s4: Service, s8: Service)
    requires s2.rows == map[0 := Row("c", true, false)] && s2.reports == []
    requires s4 == s2.(handlers := map[0 := Handler("c", [0], Restoring(0))])
    requires s8 == s2.(rows := map[0 := Row("c", true, true)], handlers := map[0 := Handler("c", [], Idle)],
                       reports := [Report("c", 0, true)])
    ensures Goes(s4, RestoreReturned(0, true), s8)
  {
    assert [0][1..] == [];
  }

  lemma AnswersAgain(s8: Service, s9: Service, s10: Service, s11: Service)
    requires s8.rows == map[0 := Row("c", true, true)] && s8.handlers == map[0 := Handler("c", [], Idle)]
    requires s8.reports == [Report("c", 0, true)] && s8.live == {"c"} && s8.known == {"c"}
    requires s9 == s8.(handlers := s8.handlers[1 := Handler("c", [0], Idle)])
    requires s10 == s8.(handlers := s8.handlers[1 := Handler("c", [], Idle)],
                        reports := [Report("c", 0, true), Report("c", 0, false)])
    requires s11 == s10.(live := {}, rows := map[])
    ensures Goes(s8, Call(1, "c", [0]), s9) && Goes(s9, Next(1), s10) && Goes(s10, DeleteConnection("c"), s11)
  {
    assert [0][1..] == [];
  }
}
