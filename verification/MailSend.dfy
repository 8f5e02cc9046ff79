/**
 * The idempotent `mail_send` tool as steps. Handlers interleave only where they await:
 * while a message being replied to is fetched, and while the mail server is sending.
 * The process may crash at any point; operation rows survive it.
 */
module MailSend {
  import opened Bytes

  datatype Status = Pending | Completed | Failed | Unknown

  /** An operation of kind `send`. The store keeps (connection, key) unique among rows that have a key. */
  datatype Row = Row(connection: string, key: Option<string>, status: Status)

  /** The answers that name a message name the row that was written for it. */
  datatype ToolResult =
    | Sent(op: nat)
    | AlreadySent(op: nat)
    | PreviousFailed
    | PreviousUnclear
    | KeyInUse
    | NotAllowed      // argument, sender, size and rate checks
    | ReplyNotFound
    | SendFailed

  datatype Progress =
    | Called
    | FetchingReply
    | Sending(op: nat)
    | Finished(result: ToolResult)

  datatype Handler = Handler(connection: string, key: Option<string>, replying: bool, progress: Progress)

  /** A message handed to the mail server. */
  datatype Submission = Submission(op: nat, connection: string, key: Option<string>)

  datatype Service = Service(
    known: set<string>,            // connection ids ever created
    live: set<string>,             // those not deleted
    rows: map<nat, Row>,
    nextOp: nat,
    handlers: map<nat, Handler>,
    submissions: seq<Submission>,
    returned: map<nat, SendOutcome>)   // how each send that came back did

  const START := Service({}, {}, map[], 0, map[], [], map[])

  /** `recorded` is false when writing the row or the audit entry fails after the mail server accepted. */
  datatype SendOutcome = Accepted(recorded: bool) | Uncertain | Rejected

  datatype Step =
    | CreateConnection(connection: string)
    | DeleteConnection(connection: string)
    | Call(handler: nat, connection: string, key: Option<string>, replying: bool)
    | Begin(handler: nat, argumentsPass: bool, quotaLeft: bool)
    | ReplyFetched(handler: nat, found: bool)
    | SendReturned(handler: nat, outcome: SendOutcome)
    | Crash

  predicate HasKey(s: Service, connection: string, key: string) {
    exists op :: op in s.rows && s.rows[op].connection == connection && s.rows[op].key == Some(key)
  }

  function OpFor(s: Service, connection: string, key: string): (op: nat)
    requires HasKey(s, connection, key) && UniqueKeys(s)
    ensures op in s.rows && s.rows[op].connection == connection && s.rows[op].key == Some(key)
  {
    RowIsUnique(s, connection, key);
    var op :| op in s.rows && s.rows[op].connection == connection && s.rows[op].key == Some(key);
    op
  }

  lemma RowIsUnique(s: Service, connection: string, key: string)
    requires UniqueKeys(s)
    ensures forall a, b ::
              (a in s.rows && s.rows[a].connection == connection && s.rows[a].key == Some(key)) ==>
              (b in s.rows && s.rows[b].connection == connection && s.rows[b].key == Some(key)) ==> a == b
  {
  }

  predicate SameKey(a: Row, b: Row) {
    a.key.Some? && a.connection == b.connection && a.key == b.key
  }

  /** The unique index of the operations table. */
  predicate UniqueKeys(s: Service) {
    forall a, b :: a in s.rows && b in s.rows && SameKey(s.rows[a], s.rows[b]) ==> a == b
  }

  function Finish(s: Service, h: nat, result: ToolResult): Service
    requires h in s.handlers
  {
    s.(handlers := s.handlers[h := s.handlers[h].(progress := Finished(result))])
  }

  predicate CanCreate(s: Service, h: nat)
    requires h in s.handlers
  {
    var c, key := s.handlers[h].connection, s.handlers[h].key;
    c in s.live && (key.Some? ==> !HasKey(s, c, key.value))
  }

  /** Inserts the pending row, which fails on a used key or a deleted connection, and starts the send. */
  function CreateAndSend(s: Service, h: nat): Service
    requires h in s.handlers
  {
    var c, key := s.handlers[h].connection, s.handlers[h].key;
    if !CanCreate(s, h) then Finish(s, h, KeyInUse)
    else
      s.(rows := s.rows[s.nextOp := Row(c, key, Pending)],
         nextOp := s.nextOp + 1,
         handlers := s.handlers[h := s.handlers[h].(progress := Sending(s.nextOp))],
         submissions := s.submissions + [Submission(s.nextOp, c, key)])
  }

  function BeginStep(s: Service, h: nat, argumentsPass: bool, quotaLeft: bool): Service
    requires UniqueKeys(s) && h in s.handlers
  {
    var c, key := s.handlers[h].connection, s.handlers[h].key;
    if !argumentsPass then Finish(s, h, NotAllowed)
    else if key.Some? && HasKey(s, c, key.value) then
      var op := OpFor(s, c, key.value);
      Finish(s, h, match s.rows[op].status
                   case Completed => AlreadySent(op)
                   case Failed => PreviousFailed
                   case _ => PreviousUnclear)
    else if !quotaLeft then Finish(s, h, NotAllowed)
    else if s.handlers[h].replying then s.(handlers := s.handlers[h := s.handlers[h].(progress := FetchingReply)])
    else CreateAndSend(s, h)
  }

  function StatusAfter(outcome: SendOutcome): Status {
    match outcome
    case Accepted(recorded) => if recorded then Completed else Failed
    case Uncertain => Unknown
    case Rejected => Failed
  }

  /** Records how the send went; a deleted connection's row is no longer there to update. */
  function ReturnStep(s: Service, h: nat, outcome: SendOutcome): Service
    requires h in s.handlers && s.handlers[h].progress.Sending?
  {
    var op := s.handlers[h].progress.op;
    var rows := if op in s.rows then s.rows[op := s.rows[op].(status := StatusAfter(outcome))] else s.rows;
    Finish(s.(rows := rows, returned := s.returned[op := outcome]), h,
           if outcome == Accepted(true) then Sent(op) else SendFailed)
  }

  predicate Enabled(s: Service, step: Step) {
    match step
    case CreateConnection(c) => c !in s.known
    case DeleteConnection(c) => c in s.live
    case Call(h, c, key, replying) => h !in s.handlers && c in s.known
    case Begin(h, _, _) => h in s.handlers && s.handlers[h].progress == Called
    case ReplyFetched(h, _) => h in s.handlers && s.handlers[h].progress == FetchingReply
    case SendReturned(h, _) => h in s.handlers && s.handlers[h].progress.Sending?
    case Crash => true
  }

  function Apply(s: Service, step: Step): Service
    requires UniqueKeys(s) && Enabled(s, step)
  {
    match step
    case CreateConnection(c) => s.(known := s.known + {c}, live := s.live + {c})
    case DeleteConnection(c) =>
      s.(live := s.live - {c}, rows := map op | op in s.rows && s.rows[op].connection != c :: s.rows[op])
    case Call(h, c, key, replying) => s.(handlers := s.handlers[h := Handler(c, key, replying, Called)])
    case Begin(h, argumentsPass, quotaLeft) => BeginStep(s, h, argumentsPass, quotaLeft)
    case ReplyFetched(h, found) => if found then CreateAndSend(s, h) else Finish(s, h, ReplyNotFound)
    case SendReturned(h, outcome) => ReturnStep(s, h, outcome)
    case Crash => s.(handlers := map[])
  }

  // ----- the invariant -----

  predicate SameSend(a: Submission, b: Submission) {
    a.key.Some? && a.connection == b.connection && a.key == b.key
  }

  /** No connection and key reach the mail server twice. */
  predicate AtMostOnce(submissions: seq<Submission>) {
    forall i, j :: 0 <= i < j < |submissions| ==> !SameSend(submissions[i], submissions[j])
  }

  /** Every row is for one message. */
  predicate InOrder(submissions: seq<Submission>, nextOp: nat) {
    && (forall i :: 0 <= i < |submissions| ==> submissions[i].op < nextOp)
    && forall i, j :: 0 <= i < j < |submissions| ==> submissions[i].op < submissions[j].op
  }

  /** A row is for a message that was handed over, and its status is how that went. */
  predicate RowIsTrue(s: Service, op: nat, row: Row) {
    && op < s.nextOp && row.connection in s.live && Submission(op, row.connection, row.key) in s.submissions
    && row.status == if op in s.returned then StatusAfter(s.returned[op]) else Pending
  }

  /** A submission's connection is gone for good, or its key is taken. */
  predicate Covered(s: Service, m: Submission) {
    m.connection in s.known && (m.connection in s.live && m.key.Some? ==> HasKey(s, m.connection, m.key.value))
  }

  /** The server accepted the handler's own message, and that was recorded. */
  predicate WasAccepted(s: Service, op: nat, h: Handler) {
    Submission(op, h.connection, h.key) in s.submissions && op in s.returned && s.returned[op] == Accepted(true)
  }

  /** A message under the handler's key came back as one that has failed, or that could not be recorded. */
  predicate CameBackFailed(s: Service, h: Handler) {
    exists op :: op in s.returned && StatusAfter(s.returned[op]) == Failed
      && Submission(op, h.connection, h.key) in s.submissions
  }

  /** What a handler has answered is true. */
  predicate AnswerIsTrue(s: Service, h: Handler) {
    h.progress.Finished? ==>
      match h.progress.result
      case Sent(op) => WasAccepted(s, op, h)
      case AlreadySent(op) => WasAccepted(s, op, h)
      case PreviousFailed => CameBackFailed(s, h)
      case _ => true
  }

  /** A handler that is sending waits for a message of its own. */
  predicate SendsItsOwn(s: Service, k: nat)
    requires k in s.handlers
  {
    var h := s.handlers[k];
    h.progress.Sending? ==>
      && h.progress.op < s.nextOp && h.progress.op !in s.returned
      && Submission(h.progress.op, h.connection, h.key) in s.submissions
      && forall j :: j in s.handlers && s.handlers[j].progress == h.progress ==> j == k
  }

  ghost predicate Inv(s: Service) {
    && s.live <= s.known && UniqueKeys(s)
    && (forall op :: op in s.rows ==> RowIsTrue(s, op, s.rows[op]))
    && (forall i :: 0 <= i < |s.submissions| ==> Covered(s, s.submissions[i]))
    && AtMostOnce(s.submissions) && InOrder(s.submissions, s.nextOp)
    && (forall op :: op in s.returned ==> op < s.nextOp)
    && (forall k :: k in s.handlers ==> AnswerIsTrue(s, s.handlers[k]) && SendsItsOwn(s, k))
  }

  lemma FinishKeeps(s: Service, k: nat, result: ToolResult)
    requires Inv(s) && k in s.handlers && AnswerIsTrue(s, s.handlers[k].(progress := Finished(result)))
    ensures Inv(Finish(s, k, result))
  {
    var t := Finish(s, k, result);
    forall i | 0 <= i < |t.submissions| ensures Covered(t, t.submissions[i]) {
      SameRows(s, t, s.submissions[i]);
    }
    forall j | j in t.handlers ensures AnswerIsTrue(t, t.handlers[j]) && SendsItsOwn(t, j) {
      SameAnswers(s, t, t.handlers[j]);
      if j != k {
        assert SendsItsOwn(s, j);
      }
    }
  }

  /** Answers stay true as more is submitted and more comes back. */
  lemma SameAnswers(s: Service, t: Service, h: Handler)
    requires s.submissions <= t.submissions
    requires forall op :: op in s.returned ==> op in t.returned && t.returned[op] == s.returned[op]
    ensures AnswerIsTrue(s, h) ==> AnswerIsTrue(t, h)
  {
    assert forall m :: m in s.submissions ==> m in t.submissions;
    if AnswerIsTrue(s, h) && h.progress == Finished(PreviousFailed) {
      var op :| op in s.returned && StatusAfter(s.returned[op]) == Failed
                && Submission(op, h.connection, h.key) in s.submissions;
      assert op in t.returned;
    }
  }

  lemma SameRows(s: Service, t: Service, m: Submission)
    requires Covered(s, m) && s.known <= t.known && t.live * s.known <= s.live
    requires forall op :: op in s.rows && s.rows[op].connection in t.live ==>
               op in t.rows && t.rows[op].connection == s.rows[op].connection && t.rows[op].key == s.rows[op].key
    ensures Covered(t, m)
  {
    if m.connection in t.live && m.key.Some? {
      var op :| op in s.rows && s.rows[op].connection == m.connection && s.rows[op].key == Some(m.key.value);
      assert op in t.rows;
    }
  }

  lemma CreateAndSendKeeps(s: Service, k: nat)
    requires Inv(s) && k in s.handlers && !s.handlers[k].progress.Finished?
    ensures Inv(CreateAndSend(s, k))
  {
    if !CanCreate(s, k) {
      FinishKeeps(s, k, KeyInUse);
    } else {
      var t := CreateAndSend(s, k);
      NewRow(s, t, k);
      NewSubmission(s, t, k);
      forall j | j in t.handlers ensures AnswerIsTrue(t, t.handlers[j]) && SendsItsOwn(t, j) {
        assert AnswerIsTrue(s, s.handlers[j]) && SendsItsOwn(s, j);
        SameAnswers(s, t, s.handlers[j]);
      }
    }
  }

  lemma NewRow(s: Service, t: Service, k: nat)
    requires Inv(s) && k in s.handlers && CanCreate(s, k) && t == CreateAndSend(s, k)
    ensures UniqueKeys(t) && forall op :: op in t.rows ==> RowIsTrue(t, op, t.rows[op])
  {
    var c, key := s.handlers[k].connection, s.handlers[k].key;
    assert forall op :: op in s.rows && s.rows[op].connection == c && key.Some? ==> s.rows[op].key != key;
    forall op | op in t.rows ensures RowIsTrue(t, op, t.rows[op]) {
      if op != s.nextOp {
        assert RowIsTrue(s, op, s.rows[op]);
      }
    }
  }

  lemma NewSubmission(s: Service, t: Service, k: nat)
    requires Inv(s) && k in s.handlers && CanCreate(s, k) && t == CreateAndSend(s, k)
    ensures forall i :: 0 <= i < |t.submissions| ==> Covered(t, t.submissions[i])
    ensures AtMostOnce(t.submissions) && InOrder(t.submissions, t.nextOp)
  {
    var n := |s.submissions|;
    var m := t.submissions[n];
    assert t.submissions == s.submissions + [m];
    forall i | 0 <= i < |t.submissions| ensures Covered(t, t.submissions[i]) {
      if i == n {
        assert s.nextOp in t.rows;
      } else {
        forall op | op in s.rows ensures op in t.rows && t.rows[op] == s.rows[op] {
          assert RowIsTrue(s, op, s.rows[op]);
        }
        SameRows(s, t, s.submissions[i]);
      }
    }
    forall i, j | 0 <= i < j < |t.submissions|
      ensures !SameSend(t.submissions[i], t.submissions[j]) && t.submissions[i].op < t.submissions[j].op
    {
      if j == n {
        assert Covered(s, s.submissions[i]);
      }
    }
  }

  lemma BeginKeeps(s: Service, k: nat, argumentsPass: bool, quotaLeft: bool)
    requires Inv(s) && k in s.handlers && s.handlers[k].progress == Called
    ensures Inv(BeginStep(s, k, argumentsPass, quotaLeft))
  {
    var h := s.handlers[k];
    if !argumentsPass {
      FinishKeeps(s, k, NotAllowed);
    } else if h.key.Some? && HasKey(s, h.connection, h.key.value) {
      var op := OpFor(s, h.connection, h.key.value);
      assert RowIsTrue(s, op, s.rows[op]);
      FinishKeeps(s, k, BeginStep(s, k, argumentsPass, quotaLeft).handlers[k].progress.result);
    } else if !quotaLeft {
      FinishKeeps(s, k, NotAllowed);
    } else if h.replying {
      NotSending(s, k, h.(progress := FetchingReply));
    } else {
      CreateAndSendKeeps(s, k);
    }
  }

  lemma NotSending(s: Service, k: nat, h: Handler)
    requires Inv(s) && !h.progress.Sending? && !h.progress.Finished?
    ensures Inv(s.(handlers := s.handlers[k := h]))
  {
    var t := s.(handlers := s.handlers[k := h]);
    forall i | 0 <= i < |t.submissions| ensures Covered(t, t.submissions[i]) {
      SameRows(s, t, s.submissions[i]);
    }
    forall op | op in t.rows ensures RowIsTrue(t, op, t.rows[op]) {
      assert RowIsTrue(s, op, s.rows[op]);
    }
    forall j | j in t.handlers ensures AnswerIsTrue(t, t.handlers[j]) && SendsItsOwn(t, j) {
      SameAnswers(s, t, t.handlers[j]);
      if j != k {
        assert SendsItsOwn(s, j);
      }
    }
  }

  lemma SameKeys(s: Service, t: Service)
    requires UniqueKeys(s) && t.rows.Keys == s.rows.Keys
    requires forall op :: op in s.rows ==>
               t.rows[op].connection == s.rows[op].connection && t.rows[op].key == s.rows[op].key
    ensures UniqueKeys(t)
  {
  }

  lemma ReturnKeeps(s: Service, k: nat, outcome: SendOutcome)
    requires Inv(s) && k in s.handlers && s.handlers[k].progress.Sending?
    ensures Inv(ReturnStep(s, k, outcome))
  {
    hide UniqueKeys, AtMostOnce, InOrder, Covered;
    var op := s.handlers[k].progress.op;
    var t := ReturnStep(s, k, outcome);
    assert SendsItsOwn(s, k);
    SameKeys(s, t);
    forall i | 0 <= i < |t.submissions| ensures Covered(t, t.submissions[i]) {
      SameRows(s, t, s.submissions[i]);
    }
    forall o | o in t.rows ensures RowIsTrue(t, o, t.rows[o]) {
      assert RowIsTrue(s, o, s.rows[o]);
    }
    forall j | j in t.handlers ensures AnswerIsTrue(t, t.handlers[j]) && SendsItsOwn(t, j) {
      SameAnswers(s, t, t.handlers[j]);
      assert AnswerIsTrue(s, s.handlers[j]) && SendsItsOwn(s, j);
    }
  }

  lemma DeleteKeeps(s: Service, c: string)
    requires Inv(s) && c in s.live
    ensures Inv(Apply(s, DeleteConnection(c)))
  {
    var t := Apply(s, DeleteConnection(c));
    forall i | 0 <= i < |t.submissions| ensures Covered(t, t.submissions[i]) {
      SameRows(s, t, s.submissions[i]);
    }
    forall op | op in t.rows ensures RowIsTrue(t, op, t.rows[op]) {
      assert RowIsTrue(s, op, s.rows[op]);
    }
    forall k | k in t.handlers ensures AnswerIsTrue(t, t.handlers[k]) && SendsItsOwn(t, k) {
      SameAnswers(s, t, s.handlers[k]);
      assert SendsItsOwn(s, k);
    }
  }

  lemma StepKeeps(s: Service, step: Step)
    requires Inv(s) && Enabled(s, step)
    ensures Inv(Apply(s, step))
  {
    match step
    case DeleteConnection(c) => DeleteKeeps(s, c);
    case Begin(k, argumentsPass, quotaLeft) => BeginKeeps(s, k, argumentsPass, quotaLeft);
    case ReplyFetched(k, found) =>
      if found { CreateAndSendKeeps(s, k); } else { FinishKeeps(s, k, ReplyNotFound); }
    case SendReturned(k, outcome) => ReturnKeeps(s, k, outcome);
    case Call(k, c, key, replying) => NotSending(s, k, Handler(c, key, replying, Called));
    case _ => CreateOrCrashKeeps(s, step);
  }

  lemma CreateOrCrashKeeps(s: Service, step: Step)
    requires Inv(s) && Enabled(s, step) && (step.CreateConnection? || step.Crash?)
    ensures Inv(Apply(s, step))
  {
    var t := Apply(s, step);
    forall i | 0 <= i < |t.submissions| ensures Covered(t, t.submissions[i]) {
      SameRows(s, t, s.submissions[i]);
    }
    forall op | op in t.rows ensures RowIsTrue(t, op, t.rows[op]) {
      assert RowIsTrue(s, op, s.rows[op]);
    }
    forall k | k in t.handlers ensures AnswerIsTrue(t, t.handlers[k]) && SendsItsOwn(t, k) {
      SameAnswers(s, t, s.handlers[k]);
      assert SendsItsOwn(s, k);
    }
  }

  // ----- runs -----

  ghost predicate IsRun(states: seq<Service>, steps: seq<Step>) {
    && |states| == |steps| + 1 && states[0] == START
    && forall i :: 0 <= i < |steps| ==>
         UniqueKeys(states[i]) && Enabled(states[i], steps[i]) && states[i + 1] == Apply(states[i], steps[i])
  }

  lemma {:induction false} RunKeeps(states: seq<Service>, steps: seq<Step>, n: nat)
    requires IsRun(states, steps) && n < |states|
    ensures Inv(states[n])
  {
    if n > 0 {
      RunKeeps(states, steps, n - 1);
      StepKeeps(states[n - 1], steps[n - 1]);
    }
  }

  /**
   * In every run, however handlers interleave, crash or fail, no connection and key
   * reach the mail server twice. A handler that answers that its message was or had
   * been sent is right: the server accepted that message, under the handler's own
   * connection and key. One that answers that an earlier attempt failed had one.
   */
  lemma SendsAtMostOnce(states: seq<Service>, steps: seq<Step>)
    requires IsRun(states, steps)
    ensures forall n :: 0 <= n < |states| ==>
              && AtMostOnce(states[n].submissions)
              && forall k :: k in states[n].handlers ==> AnswerIsTrue(states[n], states[n].handlers[k])
  {
    hide AtMostOnce, AnswerIsTrue;
    forall n | 0 <= n < |states|
      ensures AtMostOnce(states[n].submissions)
      ensures forall k :: k in states[n].handlers ==> AnswerIsTrue(states[n], states[n].handlers[k])
    {
      RunKeeps(states, steps, n);
    }
  }

  // ----- what comes back -----

  /** The step at which the mail server's verdict on a message comes back. */
  predicate Returns(s: Service, step: Step, op: nat, outcome: SendOutcome) {
    step.SendReturned? && step.outcome == outcome && step.handler in s.handlers
      && s.handlers[step.handler].progress == Sending(op)
  }

  ghost predicate CameBack(states: seq<Service>, steps: seq<Step>, n: nat, op: nat, outcome: SendOutcome)
    requires n <= |steps| && n < |states|
  {
    exists i :: 0 <= i < n && Returns(states[i], steps[i], op, outcome)
  }

  lemma {:induction false} ReturnedIsHistory(states: seq<Service>, steps: seq<Step>, n: nat, op: nat,
                                             outcome: SendOutcome)
    requires IsRun(states, steps) && n < |states|
    ensures (op in states[n].returned && states[n].returned[op] == outcome)
            <==> CameBack(states, steps, n, op, outcome)
  {
    hide Inv, Apply, Enabled, Returns, UniqueKeys;
    if n > 0 {
      ReturnedIsHistory(states, steps, n - 1, op, outcome);
      RunKeeps(states, steps, n - 1);
      ReturnedStep(states[n - 1], steps[n - 1], op, outcome);
    }
  }

  lemma ReturnedStep(s: Service, step: Step, op: nat, outcome: SendOutcome)
    requires Inv(s) && Enabled(s, step)
    ensures var t := Apply(s, step);
            (op in t.returned && t.returned[op] == outcome)
            <==> (op in s.returned && s.returned[op] == outcome) || Returns(s, step, op, outcome)
  {
    if step.SendReturned? {
      assert SendsItsOwn(s, step.handler);
    }
  }

  /**
   * In every run, what a row says is what came back for its message. Among the rows that
   * say failed, the message was accepted exactly where recording the acceptance failed.
   */
  lemma RowsTellWhatCameBack(states: seq<Service>, steps: seq<Step>, n: nat, op: nat)
    requires IsRun(states, steps) && n < |states| && op in states[n].rows
    ensures var status := states[n].rows[op].status;
            var accepted, unrecorded := CameBack(states, steps, n, op, Accepted(true)),
                                        CameBack(states, steps, n, op, Accepted(false));
            var uncertain, rejected := CameBack(states, steps, n, op, Uncertain),
                                       CameBack(states, steps, n, op, Rejected);
            && (status == Completed <==> accepted)
            && (status == Unknown <==> uncertain)
            && (status == Failed <==> rejected || unrecorded) && !(rejected && unrecorded)
            && (status == Pending <==> !accepted && !unrecorded && !uncertain && !rejected)
  {
    hide CameBack, Apply, Enabled, UniqueKeys;
    var s := states[n];
    RunKeeps(states, steps, n);
    assert RowIsTrue(s, op, s.rows[op]);
    hide Inv;
    forall outcome
      ensures (op in s.returned && s.returned[op] == outcome) <==> CameBack(states, steps, n, op, outcome)
    {
      ReturnedIsHistory(states, steps, n, op, outcome);
    }
  }

  // ----- what a handler answers -----

  /**
   * In every run, a handler that gets past its checks of the arguments for a live connection,
   * with a key under which a message was submitted already, answers at once by what came back
   * for that message, and submits nothing.
   */
  lemma RetryIsAnswered(states: seq<Service>, steps: seq<Step>, n: nat, key: string, m: Submission)
    requires IsRun(states, steps) && n < |steps| && steps[n].Begin? && steps[n].argumentsPass
    requires var h := states[n].handlers[steps[n].handler];
             && h.key == Some(key) && h.connection in states[n].live
             && m in states[n].submissions && m.connection == h.connection && m.key == Some(key)
    ensures var k := steps[n].handler; var t := states[n + 1];
            var accepted, unrecorded := CameBack(states, steps, n, m.op, Accepted(true)),
                                        CameBack(states, steps, n, m.op, Accepted(false));
            var uncertain, rejected := CameBack(states, steps, n, m.op, Uncertain),
                                       CameBack(states, steps, n, m.op, Rejected);
            && k in t.handlers && t.submissions == states[n].submissions
            && (t.handlers[k].progress == Finished(AlreadySent(m.op)) <==> accepted)
            && (t.handlers[k].progress == Finished(PreviousFailed) <==> rejected || unrecorded)
            && (t.handlers[k].progress == Finished(PreviousUnclear) <==> !accepted && !rejected && !unrecorded)
            && (uncertain ==> t.handlers[k].progress == Finished(PreviousUnclear))
  {
    hide CameBack;
    var s := states[n];
    RunKeeps(states, steps, n);
    RowOfSubmission(s, m);
    RowsTellWhatCameBack(states, steps, n, m.op);
    BeginsOnUsedKey(s, steps[n].handler, key, m.op, steps[n].quotaLeft);
  }

  /** The row of a message with a key, while its connection lives. */
  lemma RowOfSubmission(s: Service, m: Submission)
    requires Inv(s) && m in s.submissions && m.connection in s.live && m.key.Some?
    ensures m.op in s.rows && s.rows[m.op].connection == m.connection && s.rows[m.op].key == m.key
  {
    assert Covered(s, m);
    var op :| op in s.rows && s.rows[op].connection == m.connection && s.rows[op].key == m.key;
    assert RowIsTrue(s, op, s.rows[op]);
    var i :| 0 <= i < |s.submissions| && s.submissions[i] == m;
    var j :| 0 <= j < |s.submissions| && s.submissions[j] == Submission(op, m.connection, m.key);
    SentOnce(s.submissions, i, j);
  }

  lemma SentOnce(submissions: seq<Submission>, i: nat, j: nat)
    requires AtMostOnce(submissions) && i < |submissions| && j < |submissions|
    requires SameSend(submissions[i], submissions[j])
    ensures i == j
  {
  }

  lemma BeginsOnUsedKey(s: Service, k: nat, key: string, op: nat, quotaLeft: bool)
    requires UniqueKeys(s) && k in s.handlers && s.handlers[k].key == Some(key)
    requires op in s.rows && s.rows[op].connection == s.handlers[k].connection && s.rows[op].key == Some(key)
    ensures var t := BeginStep(s, k, true, quotaLeft);
            && k in t.handlers && t.submissions == s.submissions
            && (t.handlers[k].progress == Finished(AlreadySent(op)) <==> s.rows[op].status == Completed)
            && (t.handlers[k].progress == Finished(PreviousFailed) <==> s.rows[op].status == Failed)
            && (t.handlers[k].progress == Finished(PreviousUnclear) <==> s.rows[op].status in {Pending, Unknown})
  {
    RowIsUnique(s, s.handlers[k].connection, key);
    assert HasKey(s, s.handlers[k].connection, key);
  }

  /** A handler whose send came back answers that its own message was sent, exactly if it was accepted and recorded. */
  lemma SendIsAnswered(s: Service, step: Step)
    requires Inv(s) && Enabled(s, step) && step.SendReturned?
    ensures var k := step.handler; var op := s.handlers[k].progress.op; var t := Apply(s, step);
            && k in t.handlers && Submission(op, t.handlers[k].connection, t.handlers[k].key) in t.submissions
            && (t.handlers[k].progress == Finished(Sent(op)) <==> step.outcome == Accepted(true))
            && (t.handlers[k].progress == Finished(SendFailed) <==> step.outcome != Accepted(true))
  {
    assert SendsItsOwn(s, step.handler);
  }

  /** What a handler that begins comes to, apart from a retry: refused without a submission, or on its way. */
  lemma BeginAnswers(s: Service, k: nat, argumentsPass: bool, quotaLeft: bool)
    requires Inv(s) && Enabled(s, Begin(k, argumentsPass, quotaLeft))
    ensures var h := s.handlers[k]; var t := BeginStep(s, k, argumentsPass, quotaLeft);
            var used := h.key.Some? && HasKey(s, h.connection, h.key.value);
            && k in t.handlers && t.handlers[k].connection == h.connection && t.handlers[k].key == h.key
            && (t.handlers[k].progress == Finished(NotAllowed) <==> !argumentsPass || (!used && !quotaLeft))
            && (t.handlers[k].progress == FetchingReply <==> argumentsPass && !used && quotaLeft && h.replying)
            && (t.handlers[k].progress.Sending? <==>
                argumentsPass && !used && quotaLeft && !h.replying && h.connection in s.live)
            && (!t.handlers[k].progress.Sending? ==> t.submissions == s.submissions && t.rows == s.rows)
  {
    hide UniqueKeys, AtMostOnce, InOrder, Covered, RowIsTrue, AnswerIsTrue, SendsItsOwn;
  }

  /** One that is on its way has its message submitted, and a pending row of its own. */
  lemma SubmitsPending(s: Service, k: nat)
    requires k in s.handlers && CanCreate(s, k)
    ensures var h := s.handlers[k]; var t := CreateAndSend(s, k);
            && k in t.handlers && t.handlers[k].progress == Sending(s.nextOp) && t.nextOp == s.nextOp + 1
            && t.submissions == s.submissions + [Submission(s.nextOp, h.connection, h.key)]
            && t.rows == s.rows[s.nextOp := Row(h.connection, h.key, Pending)]
  {
  }

  /** Connection "c" can be called by a handler `k` with an unused key. */
  predicate Ready(s: Service, k: nat, key: string) {
    UniqueKeys(s) && "c" in s.known && "c" in s.live && k !in s.handlers && !HasKey(s, "c", key) && s.nextOp !in s.rows
  }

  /** One call from start to end, by a handler that replies to nothing. */
  lemma OneCall(s: Service, k: nat, key: string, outcome: SendOutcome) returns (t: Service, u: Service)
    requires Ready(s, k, key)
    ensures var call, begin, back := Call(k, "c", Some(key), false), Begin(k, true, true), SendReturned(k, outcome);
            && UniqueKeys(s) && Enabled(s, call) && t == Apply(s, call)
            && UniqueKeys(t) && Enabled(t, begin) && u == Apply(t, begin)
            && UniqueKeys(u) && Enabled(u, back) && Apply(u, back) == AfterCall(s, k, key, outcome)
    ensures u == s.(rows := s.rows[s.nextOp := Row("c", Some(key), Pending)], nextOp := s.nextOp + 1,
                    handlers := u.handlers,
                    submissions := s.submissions + [Submission(s.nextOp, "c", Some(key))])
  {
    hide BeginStep, ReturnStep;
    t := Apply(s, Call(k, "c", Some(key), false));
    assert t.rows == s.rows && !HasKey(t, "c", key);
    u := Begins(t, k, key);
    assert ReturnStep(u, k, outcome) == AfterCall(s, k, key, outcome) by { Comes(s, u, k, key, outcome); }
  }

  lemma Begins(t: Service, k: nat, key: string) returns (u: Service)
    requires UniqueKeys(t) && "c" in t.live && !HasKey(t, "c", key) && t.nextOp !in t.rows
    requires k in t.handlers && t.handlers[k] == Handler("c", Some(key), false, Called)
    ensures u == BeginStep(t, k, true, true) && UniqueKeys(u)
    ensures u == t.(rows := t.rows[t.nextOp := Row("c", Some(key), Pending)],
                    nextOp := t.nextOp + 1,
                    handlers := t.handlers[k := Handler("c", Some(key), false, Sending(t.nextOp))],
                    submissions := t.submissions + [Submission(t.nextOp, "c", Some(key))])
  {
    u := CreateAndSend(t, k);
  }

  lemma Comes(s: Service, u: Service, k: nat, key: string, outcome: SendOutcome)
    requires u.rows == s.rows[s.nextOp := Row("c", Some(key), Pending)]
    requires k in u.handlers && u.handlers == s.handlers[k := Handler("c", Some(key), false, Sending(s.nextOp))]
    requires u == s.(rows := u.rows, nextOp := s.nextOp + 1, handlers := u.handlers,
                     submissions := s.submissions + [Submission(s.nextOp, "c", Some(key))])
    ensures ReturnStep(u, k, outcome) == AfterCall(s, k, key, outcome)
  {
    hide StatusAfter;
    assert ReturnStep(u, k, outcome).rows == AfterCall(s, k, key, outcome).rows;
    assert ReturnStep(u, k, outcome).handlers == AfterCall(s, k, key, outcome).handlers;
  }

  function AfterCall(s: Service, k: nat, key: string, outcome: SendOutcome): Service {
    var result := if outcome == Accepted(true) then Sent(s.nextOp) else SendFailed;
    s.(rows := s.rows[s.nextOp := Row("c", Some(key), StatusAfter(outcome))],
       nextOp := s.nextOp + 1,
       handlers := s.handlers[k := Handler("c", Some(key), false, Finished(result))],
       submissions := s.submissions + [Submission(s.nextOp, "c", Some(key))],
       returned := s.returned[s.nextOp := outcome])
  }

  /**
   * A message that the server accepted but whose acceptance could not be recorded is told
   * to have failed, and its sender to use a new key: then the server accepts two.
   */
  lemma UnrecordedIsSentAgain() returns (states: seq<Service>, steps: seq<Step>)
    ensures steps == [CreateConnection("c"),
                      Call(0, "c", Some("k"), false), Begin(0, true, true), SendReturned(0, Accepted(false)),
                      Call(1, "c", Some("k"), false), Begin(1, true, true),
                      Call(2, "c", Some("l"), false), Begin(2, true, true), SendReturned(2, Accepted(true))]
    ensures IsRun(states, steps)
    ensures 1 in states[6].handlers && states[6].handlers[1].progress == Finished(PreviousFailed)
    ensures states[9].submissions == [Submission(0, "c", Some("k")), Submission(1, "c", Some("l"))]
    ensures states[9].returned == map[0 := Accepted(false), 1 := Accepted(true)]
  {
    hide Apply, Enabled, UniqueKeys, Ready;
    var s1 := ConnectionCreated();
    var s2, s3 := OneCall(s1, 0, "k", Accepted(false));
    var s4 := AfterCall(s1, 0, "k", Accepted(false));
    var s5, s6 := ToldItFailed(s4);
    var s7, s8 := OneCall(s6, 2, "l", Accepted(true));
    var s9 := AfterCall(s6, 2, "l", Accepted(true));
    steps := [CreateConnection("c"),
              Call(0, "c", Some("k"), false), Begin(0, true, true), SendReturned(0, Accepted(false)),
              Call(1, "c", Some("k"), false), Begin(1, true, true),
              Call(2, "c", Some("l"), false), Begin(2, true, true), SendReturned(2, Accepted(true))];
    states := [START, s1, s2, s3, s4, s5, s6, s7, s8, s9];
  }

  lemma ConnectionCreated() returns (s: Service)
    ensures s == START.(known := {"c"}, live := {"c"}) && Ready(s, 0, "k")
    ensures UniqueKeys(START) && Enabled(START, CreateConnection("c")) && s == Apply(START, CreateConnection("c"))
  {
    s := Apply(START, CreateConnection("c"));
  }

  lemma ToldItFailed(s: Service) returns (t: Service, u: Service)
    requires s == AfterCall(START.(known := {"c"}, live := {"c"}), 0, "k", Accepted(false))
    ensures var call, begin := Call(1, "c", Some("k"), false), Begin(1, true, true);
            && UniqueKeys(s) && Enabled(s, call) && t == Apply(s, call)
            && UniqueKeys(t) && Enabled(t, begin) && u == Apply(t, begin)
            && Ready(u, 2, "l")
            && u == s.(handlers := s.handlers[1 := Handler("c", Some("k"), false, Finished(PreviousFailed))])
  {
    t := Apply(s, Call(1, "c", Some("k"), false));
    assert 0 in t.rows && t.rows[0] == Row("c", Some("k"), Failed) && t.rows.Keys == {0};
    assert HasKey(t, "c", "k") && OpFor(t, "c", "k") == 0;
    u := Apply(t, Begin(1, true, true));
  }

  /** A crash while the mail server is sending leaves the row pending for good, and a retry unclear. */
  lemma CrashLeavesUnclear() returns (states: seq<Service>, steps: seq<Step>)
    ensures steps == [CreateConnection("c"), Call(0, "c", Some("k"), false), Begin(0, true, true), Crash,
                      Call(0, "c", Some("k"), false), Begin(0, true, false)]
    ensures IsRun(states, steps)
    ensures 0 in states[6].handlers && states[6].handlers[0].progress == Finished(PreviousUnclear)
    ensures states[6].submissions == [Submission(0, "c", Some("k"))] && states[6].returned == map[]
  {
    hide Apply, Enabled, UniqueKeys, Ready;
    var s1 := ConnectionCreated();
    var s2, s3 := OneCall(s1, 0, "k", Uncertain);
    var s4, s5, s6 := CrashedAndCalled(s1, s3);
    steps := [CreateConnection("c"), Call(0, "c", Some("k"), false), Begin(0, true, true), Crash,
              Call(0, "c", Some("k"), false), Begin(0, true, false)];
    states := [START, s1, s2, s3, s4, s5, s6];
  }

  lemma CrashedAndCalled(s1: Service, s3: Service) returns (s4: Service, s5: Service, s6: Service)
    requires s1 == START.(known := {"c"}, live := {"c"})
    requires s3 == s1.(rows := map[0 := Row("c", Some("k"), Pending)], nextOp := 1, handlers := s3.handlers,
                       submissions := [Submission(0, "c", Some("k"))])
    ensures UniqueKeys(s3) && Enabled(s3, Crash) && s4 == Apply(s3, Crash)
    ensures var call, begin := Call(0, "c", Some("k"), false), Begin(0, true, false);
            && UniqueKeys(s4) && Enabled(s4, call) && s5 == Apply(s4, call)
            && UniqueKeys(s5) && Enabled(s5, begin) && s6 == Apply(s5, begin)
    ensures 0 in s6.handlers && s6.handlers[0].progress == Finished(PreviousUnclear)
    ensures s6.submissions == s3.submissions && s6.returned == map[]
  {
    s4 := Apply(s3, Crash);
    s5 := Apply(s4, Call(0, "c", Some("k"), false));
    assert 0 in s5.rows && s5.rows[0] == Row("c", Some("k"), Pending) && s5.rows.Keys == {0};
    assert HasKey(s5, "c", "k") && OpFor(s5, "c", "k") == 0;
    s6 := Apply(s5, Begin(0, true, false));
  }

  // ----- when a message is submitted at all -----

  /** A handler for this connection and key gets past its checks while the connection lives. */
  predicate Attempts(s: Service, step: Step, connection: string, key: string)
    requires Enabled(s, step)
  {
    && ((step.Begin? && step.argumentsPass && step.quotaLeft && !s.handlers[step.handler].replying)
        || (step.ReplyFetched? && step.found))
    && s.handlers[step.handler].connection == connection && s.handlers[step.handler].key == Some(key)
    && connection in s.live
  }

  predicate Reached(s: Service, connection: string, key: string) {
    exists m :: m in s.submissions && m.connection == connection && m.key == Some(key)
  }

  lemma ReachedStep(s: Service, step: Step, connection: string, key: string)
    requires Inv(s) && Enabled(s, step)
    ensures Reached(Apply(s, step), connection, key)
            <==> Reached(s, connection, key) || Attempts(s, step, connection, key)
  {
    hide AtMostOnce, InOrder, AnswerIsTrue, SendsItsOwn, Covered;
    var t := Apply(s, step);
    if t.submissions != s.submissions {
      var m := t.submissions[|s.submissions|];
      assert t.submissions == s.submissions + [m] && m in t.submissions;
      assert m.connection == s.handlers[step.handler].connection && m.key == s.handlers[step.handler].key;
      if Reached(s, connection, key) {
        var earlier :| earlier in s.submissions && earlier.connection == connection && earlier.key == Some(key);
        assert earlier in t.submissions;
      }
    } else if Attempts(s, step, connection, key) {
      assert HasKey(s, connection, key);
      var op := OpFor(s, connection, key);
      assert RowIsTrue(s, op, s.rows[op]);
    }
  }

  /**
   * In every run, a connection and key have reached the mail server, and then once, if and
   * only if some handler for them got past its checks while the connection lived.
   */
  lemma {:induction false} SubmittedIffAttempted(states: seq<Service>, steps: seq<Step>, n: nat, connection: string,
                                                 key: string)
    requires IsRun(states, steps) && n < |states|
    ensures Reached(states[n], connection, key)
            <==> exists i :: 0 <= i < n && Attempts(states[i], steps[i], connection, key)
  {
    hide Inv, Apply, Enabled, Attempts, UniqueKeys, Reached;
    if n == 0 {
      NothingReached(connection, key);
    } else {
      SubmittedIffAttempted(states, steps, n - 1, connection, key);
      RunKeeps(states, steps, n - 1);
      ReachedStep(states[n - 1], steps[n - 1], connection, key);
    }
  }

  lemma NothingReached(connection: string, key: string)
    ensures !Reached(START, connection, key)
  {
  }
}
