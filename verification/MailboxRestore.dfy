/** Restoring from Trash: exactly the message that was moved, and only once. */
module MailboxRestore {
  import opened Bytes
  import opened Mailbox
  import opened MailboxConservation

  /** A UID that Trash has given out and no longer holds stays gone, so it cannot be restored again. */
  lemma GoneStaysGone(folders: Folders, ops: seq<Op>, ref: MessageRef)
    requires Inv(folders) && Find(folders, ref.folder) < |folders|
    requires var f := folders[Find(folders, ref.folder)]; ref.uid < f.nextUid && !HasUid(f, ref.uid)
    ensures Locate(ApplyAll(folders, ops), ref).Err?
  {
    hide Inv;
    UidsAreNeverReused(folders, ops);
    var later := ApplyAll(folders, ops);
    var f := Find(folders, ref.folder);
    forall k | 0 <= k < |folders| ensures later[k].path == folders[k].path {
      assert LaterFolder(folders[k], later[k]);
    }
    SamePaths(folders, later);
    assert LaterFolder(folders[f], later[f]);
  }

  /** An old reference still means the message it was given for. */
  lemma MeansTheSame(folders: Folders, ops: seq<Op>, ref: MessageRef, m: Message)
    requires Inv(folders) && Locate(folders, ref) == Ok(m)
    requires Locate(ApplyAll(folders, ops), ref).Ok?
    ensures Locate(ApplyAll(folders, ops), ref) == Ok(m)
  {
    UidsAreNeverReused(folders, ops);
    var later := ApplyAll(folders, ops);
    var f := Find(folders, ref.folder);
    forall k | 0 <= k < |folders| ensures later[k].path == folders[k].path {
      assert LaterFolder(folders[k], later[k]);
    }
    SamePaths(folders, later);
    var found := Locate(later, ref).value;
    assert LaterFolder(folders[f], later[f]) && UidsInOrder(folders[f]);
    assert found in later[f].messages && found in folders[f].messages && m in folders[f].messages;
    UniqueUid(folders[f].messages, found, m);
  }

  lemma {:induction false} UniqueUid(messages: seq<Message>, a: Message, b: Message)
    requires DistinctUids(messages) && a in messages && b in messages && a.uid == b.uid
    ensures a == b
    decreases |messages|
  {
    if a != messages[0] && b != messages[0] {
      UniqueUid(messages[1..], a, b);
    }
  }

  lemma MoveArrives(folders: Folders, from: nat, m: Message, to: nat)
    requires from < |folders| && to < |folders|
    ensures var next := Move(folders, from, m.uid, to, m.content);
            && next[to].nextUid == folders[to].nextUid + 1
            && Message(folders[to].nextUid, m.content) in next[to].messages
  {
    hide WithoutUid;
  }

  /** Trash numbers its arrivals in order, so the move's reference finds the message that was moved. */
  lemma {:induction false} MovedAreInTrash(folders: Folders, trash: nat, refs: seq<MessageRef>,
                                           messages: seq<Message>, i: nat)
    requires Inv(folders) && trash < |folders| && |refs| == |messages| && i < |refs|
    requires forall ref :: ref in refs ==> Find(folders, ref.folder) < |folders| && Find(folders, ref.folder) != trash
    ensures var r := MoveAll(folders, trash, refs, messages);
            Message(folders[trash].nextUid + i, messages[i].content) in r[trash].messages
    decreases |refs|
  {
    hide Inv, Move, MoveAll;
    assert refs[0] in refs;
    var from := Find(folders, refs[0].folder);
    var next := AfterFirst(folders, trash, refs, messages);
    MoveKeeps(folders, from, messages[0].uid, trash, messages[0].content);
    MovePaths(folders, from, messages[0].uid, trash, messages[0].content);
    SamePaths(folders, next);
    MoveAllHead(folders, trash, refs, messages);
    MoveArrives(folders, from, messages[0], trash);
    var first := Message(folders[trash].nextUid, messages[0].content);
    assert forall ref :: ref in refs[1..] ==> ref in refs;
    if i == 0 {
      StaysInTrash(next, trash, refs[1..], messages[1..], first);
    } else {
      MovedAreInTrash(next, trash, refs[1..], messages[1..], i - 1);
    }
  }

  /** A batch never takes anything out of Trash. */
  lemma {:induction false} StaysInTrash(folders: Folders, trash: nat, refs: seq<MessageRef>, messages: seq<Message>,
                                        m: Message)
    requires trash < |folders| && |refs| == |messages| && m in folders[trash].messages
    requires forall ref :: ref in refs ==> Find(folders, ref.folder) < |folders| && Find(folders, ref.folder) != trash
    ensures m in MoveAll(folders, trash, refs, messages)[trash].messages
    decreases |refs|
  {
    if refs != [] {
      assert refs[0] in refs;
      var next := AfterFirst(folders, trash, refs, messages);
      MovePaths(folders, Find(folders, refs[0].folder), messages[0].uid, trash, messages[0].content);
      SamePaths(folders, next);
      MoveAllHead(folders, trash, refs, messages);
      assert m in next[trash].messages;
      hide Move, MoveAll;
      assert forall ref :: ref in refs[1..] ==> ref in refs;
      StaysInTrash(next, trash, refs[1..], messages[1..], m);
    }
  }

  // ----- what is refused -----

  /** The first folder with a path, or none. */
  predicate IsFolder(folders: Folders, path: string, k: nat) {
    k < |folders| && folders[k].path == path && forall j :: 0 <= j < k ==> folders[j].path != path
  }

  predicate HasFolder(folders: Folders, path: string) {
    exists k :: 0 <= k < |folders| && folders[k].path == path
  }

  /** Why a reference is refused, or None: its folder is gone, was renumbered, or no longer holds its UID. */
  predicate IsRefused(folders: Folders, ref: MessageRef, why: Option<MailError>) {
    if !HasFolder(folders, ref.folder) then why == Some(NotFound)
    else exists k :: 0 <= k < |folders| && IsFolder(folders, ref.folder, k)
                     && why == (if folders[k].uidValidity != ref.uidValidity then Some(StaleReference)
                                else if !HasUid(folders[k], ref.uid) then Some(NotFound)
                                else None)
  }

  lemma LocateRefuses(folders: Folders, ref: MessageRef)
    ensures IsRefused(folders, ref, if Locate(folders, ref).Err? then Some(Locate(folders, ref).error) else None)
  {
    var f := Find(folders, ref.folder);
    FindsFirst(folders, ref.folder);
    if f < |folders| {
      assert IsFolder(folders, ref.folder, f);
    }
  }

  lemma {:induction false} FindsFirst(folders: Folders, path: string)
    ensures forall j :: 0 <= j < Find(folders, path) ==> folders[j].path != path
  {
    if folders != [] && folders[0].path != path {
      FindsFirst(folders[1..], path);
      assert forall j :: 1 <= j < Find(folders, path) ==> folders[j] == folders[1..][j - 1];
    }
  }

  /** A reference is refused for one reason or not at all. */
  lemma OneAnswer(folders: Folders, ref: MessageRef)
    ensures forall a, b :: IsRefused(folders, ref, a) && IsRefused(folders, ref, b) ==> a == b
  {
  }

  /** The same of a reference to be trashed, which may not be in Trash already. */
  predicate IsUntrashable(folders: Folders, ref: MessageRef, why: Option<MailError>) {
    if ref.folder == "Trash" then why == Some(Invalid) else IsRefused(folders, ref, why)
  }

  /** The first reference that is refused, after others that are not. */
  predicate FirstRefused(folders: Folders, refs: seq<MessageRef>, n: nat, why: MailError) {
    && n < |refs| && IsUntrashable(folders, refs[n], Some(why))
    && forall i :: 0 <= i < n ==> IsUntrashable(folders, refs[i], None)
  }

  /**
   * A batch is refused as a whole, by its first reference that is refused, and where there is
   * no Trash; it succeeds if and only if there is none.
   */
  lemma TrashRefuses(folders: Folders, refs: seq<MessageRef>)
    ensures !HasFolder(folders, "Trash") ==> Trash(folders, refs) == Err(NotFound)
    ensures HasFolder(folders, "Trash") ==>
              (Trash(folders, refs).Ok? <==> forall i :: 0 <= i < |refs| ==> IsUntrashable(folders, refs[i], None))
    ensures HasFolder(folders, "Trash") && Trash(folders, refs).Err? ==>
              exists n :: 0 <= n < |refs| && FirstRefused(folders, refs, n, Trash(folders, refs).error)
  {
    hide FirstRefused, IsUntrashable, LocateAll;
    if Find(folders, "Trash") < |folders| {
      LocateAllRefuses(folders, refs);
    }
  }

  lemma {:induction false} LocateAllRefuses(folders: Folders, refs: seq<MessageRef>)
    ensures LocateAll(folders, refs).Ok? <==> forall i :: 0 <= i < |refs| ==> IsUntrashable(folders, refs[i], None)
    ensures LocateAll(folders, refs).Err? ==>
              exists n :: 0 <= n < |refs| && FirstRefused(folders, refs, n, LocateAll(folders, refs).error)
    decreases |refs|
  {
    hide IsUntrashable, Locate, IsRefused, FirstRefused;
    if refs != [] {
      var n := |refs| - 1;
      var init := refs[..n];
      LocateAllRefuses(folders, init);
      assert forall i :: 0 <= i < n ==> init[i] == refs[i];
      LastRefused(folders, refs[n]);
      if LocateAll(folders, init).Err? {
        var k :| 0 <= k < |init| && FirstRefused(folders, init, k, LocateAll(folders, init).error);
        RefusedEarlier(folders, refs, k, LocateAll(folders, init).error);
      } else if !IsUntrashable(folders, refs[n], None) {
        RefusedLast(folders, refs, LocateAll(folders, refs).error);
      }
    }
  }

  lemma LastRefused(folders: Folders, ref: MessageRef)
    ensures IsUntrashable(folders, ref, if ref.folder == TRASH then Some(Invalid)
                                        else if Locate(folders, ref).Err? then Some(Locate(folders, ref).error)
                                          else None)
    ensures forall a, b :: IsUntrashable(folders, ref, a) && IsUntrashable(folders, ref, b) ==> a == b
  {
    hide Locate, IsRefused;
    LocateRefuses(folders, ref);
    OneAnswer(folders, ref);
  }

  lemma RefusedEarlier(folders: Folders, refs: seq<MessageRef>, k: nat, why: MailError)
    requires refs != [] && FirstRefused(folders, refs[..|refs| - 1], k, why)
    ensures FirstRefused(folders, refs, k, why) && !(forall i :: 0 <= i < |refs| ==>
                                                     IsUntrashable(folders, refs[i], None))
  {
    hide IsRefused;
    LastRefused(folders, refs[k]);
    assert refs[k] == refs[..|refs| - 1][k];
    assert forall i :: 0 <= i < k ==> refs[i] == refs[..|refs| - 1][i];
  }

  lemma RefusedLast(folders: Folders, refs: seq<MessageRef>, why: MailError)
    requires refs != [] && IsUntrashable(folders, refs[|refs| - 1], Some(why))
    requires forall i :: 0 <= i < |refs| - 1 ==> IsUntrashable(folders, refs[i], None)
    ensures FirstRefused(folders, refs, |refs| - 1, why)
  {
    hide IsUntrashable;
  }

  /**
   * A restore needs its target folder, a reference that is not refused, and the expected message;
   * the reasons come in that order.
   */
  lemma RestoreRefuses(folders: Folders, from: MessageRef, toFolder: string, expected: Option<string>)
    ensures var r := Restore(folders, from, toFolder, expected);
            if !HasFolder(folders, toFolder) then r == Err(NotFound)
            else if !IsRefused(folders, from, None) then r.Err? && IsRefused(folders, from, Some(r.error))
            else
              && Locate(folders, from).Ok?
              && var mismatch := expected.Some? && Locate(folders, from).value.content.messageId != expected.value;
                 if mismatch then r == Err(StaleReference) else r.Ok?
  {
    hide Locate, IsRefused;
    LocateRefuses(folders, from);
    OneAnswer(folders, from);
  }

  /** A delivery needs its folder, and adds its message there under the next UID, and nothing else. */
  lemma DeliverAppends(folders: Folders, path: string, content: Content)
    ensures var r := Deliver(folders, path, content); var f := Find(folders, path);
            if !HasFolder(folders, path) then r == Err(NotFound)
            else
              && f < |folders| && r.Ok? && |r.value| == |folders|
              && (forall k :: 0 <= k < |folders| && k != f ==> r.value[k] == folders[k])
              && r.value[f].messages == folders[f].messages + [Message(folders[f].nextUid, content)]
              && r.value[f].nextUid == folders[f].nextUid + 1 && r.value[f].path == path
              && r.value[f].uidValidity == folders[f].uidValidity
  {
  }

  /** The message a successful move put in Trash can be located by the move's reference. */
  lemma MoveIsLocated(folders: Folders, refs: seq<MessageRef>, i: nat)
    requires Inv(folders) && Trash(folders, refs).Ok? && i < |refs|
    ensures var t := Trash(folders, refs).value; var content := LocateAll(folders, refs).value[i].content;
            Locate(t.folders, t.moves[i].trash) == Ok(Message(t.moves[i].trash.uid, content))
  {
    var at := Find(folders, TRASH);
    var messages := LocateAll(folders, refs).value;
    LocatedFolders(folders, refs);
    forall ref | ref in refs ensures Find(folders, ref.folder) != at {
      var k :| 0 <= k < |refs| && refs[k] == ref;
      assert refs[k].folder != TRASH;
    }
    hide LocateAll, MoveAll, Inv;
    MovedAreInTrash(folders, at, refs, messages, i);
    MoveAllKeeps(folders, at, refs, messages);
    var after := MoveAll(folders, at, refs, messages);
    SamePaths(folders, after);
    var m := Message(folders[at].nextUid + i, messages[i].content);
    LocatesMember(after, at, Trash(folders, refs).value.moves[i].trash, m);
  }

  /** A member of a folder is what its reference locates. */
  lemma LocatesMember(folders: Folders, f: nat, ref: MessageRef, m: Message)
    requires Inv(folders) && f < |folders| && Find(folders, ref.folder) == f
             && folders[f].uidValidity == ref.uidValidity
    requires m in folders[f].messages && m.uid == ref.uid
    ensures Locate(folders, ref) == Ok(m)
  {
    assert UidsInOrder(folders[f]);
    var k := UidAt(folders[f].messages, m.uid);
    UniqueUid(folders[f].messages, folders[f].messages[k], m);
  }

  /** What restoring does when it succeeds: the located message goes to the end of the target, under its next UID. */
  lemma RestoreMoves(folders: Folders, from: MessageRef, toFolder: string, expected: Option<string>)
    requires Inv(folders) && Restore(folders, from, toFolder, expected).Ok?
    ensures var r := Restore(folders, from, toFolder, expected).value; var m := Locate(folders, from).value;
            && Locate(r.folders, r.message) == Ok(Message(r.message.uid, m.content))
            && AllContents(r.folders) == AllContents(folders)
            && Inv(r.folders) && |r.folders| == |folders| && Find(r.folders, from.folder) == Find(folders, from.folder)
            && from.uid < r.folders[Find(folders, from.folder)].nextUid
            && !HasUid(r.folders[Find(folders, from.folder)], from.uid)
  {
    var f, t := Find(folders, from.folder), Find(folders, toFolder);
    var m := Locate(folders, from).value;
    var r := Restore(folders, from, toFolder, expected).value;
    assert m in folders[f].messages && UidsInOrder(folders[f]) && UidsInOrder(folders[t]);
    MoveConserves(folders, f, t, m);
    MoveKeeps(folders, f, from.uid, t, m.content);
    MovePaths(folders, f, from.uid, t, m.content);
    SamePaths(folders, r.folders);
    MoveArrives(folders, f, m, t);
    assert LaterFolder(folders[t], r.folders[t]);
    LocatesMember(r.folders, t, r.message, Message(folders[t].nextUid, m.content));
    assert LaterFolder(folders[f], r.folders[f]);
    assert forall x :: x in r.folders[f].messages ==> x.uid != from.uid;
  }

  /**
   * After a message was trashed, and whatever happened since, a restore by the move's own
   * reference that succeeds brings back exactly that message; and after it, whatever
   * happens next, the same move is never restored again.
   */
  lemma RestoresOnceAndExactly(folders: Folders, refs: seq<MessageRef>, i: nat, between: seq<Op>, toFolder: string,
                               expected: Option<string>, afterwards: seq<Op>, toFolder': string,
                               expected': Option<string>)
    requires Inv(folders) && Trash(folders, refs).Ok? && i < |refs|
    requires var t := Trash(folders, refs).value;
             Restore(ApplyAll(t.folders, between), t.moves[i].trash, toFolder, expected).Ok?
    ensures var t := Trash(folders, refs).value;
            var r := Restore(ApplyAll(t.folders, between), t.moves[i].trash, toFolder, expected).value;
            && Locate(r.folders, r.message) == Ok(Message(r.message.uid, LocateAll(folders, refs).value[i].content))
            && Restore(ApplyAll(r.folders, afterwards), t.moves[i].trash, toFolder', expected').Err?
  {
    hide Inv, Trash, Restore, Locate, ApplyAll, LocateAll;
    TrashShape(folders, refs);
    var t := Trash(folders, refs).value;
    var ref := t.moves[i].trash;
    var now := ApplyAll(t.folders, between);
    TrashKeeps(folders, refs);
    MoveIsLocated(folders, refs, i);
    var m := Message(ref.uid, LocateAll(folders, refs).value[i].content);
    UidsAreNeverReused(t.folders, between);
    RestoreLocates(now, ref, toFolder, expected);
    MeansTheSame(t.folders, between, ref, m);
    RestoreMoves(now, ref, toFolder, expected);
    var after := Restore(now, ref, toFolder, expected).value.folders;
    GoneStaysGone(after, afterwards, ref);
    if Restore(ApplyAll(after, afterwards), ref, toFolder', expected').Ok? {
      RestoreLocates(ApplyAll(after, afterwards), ref, toFolder', expected');
    }
  }

  lemma RestoreLocates(folders: Folders, from: MessageRef, toFolder: string, expected: Option<string>)
    requires Restore(folders, from, toFolder, expected).Ok?
    ensures Locate(folders, from).Ok? && Find(folders, from.folder) < |folders|
    ensures Find(folders, toFolder) < |folders|
  {
  }

  lemma TrashShape(folders: Folders, refs: seq<MessageRef>)
    requires Trash(folders, refs).Ok?
    ensures LocateAll(folders, refs).Ok? && |Trash(folders, refs).value.moves| == |refs|
  {
  }

  lemma TrashKeeps(folders: Folders, refs: seq<MessageRef>)
    requires Inv(folders) && Trash(folders, refs).Ok?
    ensures Inv(Trash(folders, refs).value.folders)
  {
    hide Inv;
    ApplyKeeps(folders, TrashOp(refs));
  }

  // ----- the backend -----

  class FakeMailBackend {
    var folders: Folders

    ghost predicate Valid()
      reads this
    {
      Inv(folders)
    }

    constructor (folders: Folders)
      requires Inv(folders)
      ensures Valid() && this.folders == folders
    {
      this.folders := folders;
    }

    method DeliverMessage(path: string, content: Content) returns (r: Result<Message>)
      requires Valid()
      modifies this
      ensures Valid() && Later(old(folders), folders)
      ensures folders == Apply(old(folders), DeliverOp(path, content))
      ensures var f := Find(old(folders), path);
              r == if f == |old(folders)| then Err(NotFound) else Ok(Message(old(folders)[f].nextUid, content))
    {
      ghost var before := folders;
      ApplyKeeps(folders, DeliverOp(path, content));
      var f := Find(folders, path);
      if f == |folders| {
        return Err(NotFound);
      }
      var target := folders[f];
      var message := Message(target.nextUid, content);
      folders := folders[f := target.(nextUid := target.nextUid + 1, messages := target.messages + [message])];
      SamePaths(before, folders);
      return Ok(message);
    }

    /** Locates every message before it moves any. */
    method MoveToTrash(refs: seq<MessageRef>) returns (r: Result<seq<TrashMove>>)
      requires Valid()
      modifies this
      ensures Valid() && Later(old(folders), folders)
      ensures folders == Apply(old(folders), TrashOp(refs))
      ensures r == match Trash(old(folders), refs) case Ok(t) => Ok(t.moves) case Err(e) => Err(e)
    {
      hide Inv, Later, Move, Locate;
      ghost var before := folders;
      ApplyKeeps(folders, TrashOp(refs));
      var t := Find(folders, TRASH);
      if t == |folders| {
        return Err(NotFound);
      }
      var located := LocateEach(refs);
      if located.Err? {
        return Err(located.error);
      }
      LocatedFolders(folders, refs);
      var moves := MoveEach(t, refs, located.value);
      return Ok(moves);
    }

    method LocateEach(refs: seq<MessageRef>) returns (r: Result<seq<Message>>)
      ensures r == LocateAll(folders, refs)
    {
      hide Locate;
      var located := [];
      assert refs[..0] == [];
      for i := 0 to |refs|
        invariant LocateAll(folders, refs[..i]) == Ok(located)
      {
        assert refs[..i + 1][..i] == refs[..i];
        ghost var soFar := LocateAll(folders, refs[..i + 1]);
        if refs[i].folder == TRASH {
          assert soFar == Err(Invalid);
          FirstErrorStays(folders, refs, i + 1);
          return Err(Invalid);
        }
        var m := Locate(folders, refs[i]);
        if m.Err? {
          assert soFar == Err(m.error);
          FirstErrorStays(folders, refs, i + 1);
          return Err(m.error);
        }
        located := located + [m.value];
      }
      assert refs[..|refs|] == refs;
      return Ok(located);
    }

    method MoveEach(t: nat, refs: seq<MessageRef>, messages: seq<Message>) returns (moves: seq<TrashMove>)
      requires t < |folders| && |refs| == |messages|
      requires forall ref :: ref in refs ==> Find(folders, ref.folder) < |folders|
      requires forall i :: 0 <= i < |refs| ==> Find(folders, refs[i].folder) != t && messages[i].uid == refs[i].uid
      modifies this
      ensures folders == MoveAll(old(folders), t, refs, messages)
      ensures moves == Moves(old(folders)[t], refs, messages)
    {
      hide Move, MoveAll, MoveFrom, WithoutUid, Find;
      ghost var start := folders;
      moves := [];
      MoveFromStart(folders, t, refs, messages);
      for i := 0 to |refs|
        invariant |folders| == |start| && forall path :: Find(folders, path) == Find(start, path)
        invariant MoveFrom(folders, t, refs, messages, i) == MoveAll(start, t, refs, messages)
        invariant folders[t].nextUid == start[t].nextUid + i
        invariant folders[t].path == start[t].path && folders[t].uidValidity == start[t].uidValidity
        invariant |moves| == i && forall k :: 0 <= k < i ==> moves[k] == Moves(start[t], refs, messages)[k]
      {
        assert refs[i] in refs;
        MoveFromNext(folders, t, refs, messages, i);
        var move := MoveOne(t, refs[i], messages[i]);
        moves := moves + [move];
      }
      MoveFromEnd(folders, t, refs, messages);
    }

    /** One message out of its folder and into Trash. */
    method MoveOne(t: nat, ref: MessageRef, message: Message) returns (move: TrashMove)
      requires t < |folders| && Find(folders, ref.folder) < |folders| && Find(folders, ref.folder) != t
               && message.uid == ref.uid
      modifies this
      ensures folders == Move(old(folders), Find(old(folders), ref.folder), message.uid, t, message.content)
      ensures |folders| == |old(folders)| && forall path :: Find(folders, path) == Find(old(folders), path)
      ensures folders[t].nextUid == old(folders)[t].nextUid + 1
      ensures folders[t].path == old(folders)[t].path && folders[t].uidValidity == old(folders)[t].uidValidity
      ensures move == TrashMove(ref, MessageRef(folders[t].path, folders[t].uidValidity, old(folders)[t].nextUid),
                                message.content.messageId)
    {
      hide WithoutUid;
      ghost var before := folders;
      var f := Find(folders, ref.folder);
      folders := folders[f := Remove(folders[f], message.uid)];
      var uid := folders[t].nextUid;
      folders := folders[t := Append(folders[t], message.content)];
      MovePaths(before, f, message.uid, t, message.content);
      SamePaths(before, folders);
      return TrashMove(ref, MessageRef(folders[t].path, folders[t].uidValidity, uid), message.content.messageId);
    }

    method RestoreFromTrash(from: MessageRef, toFolder: string, expectedMessageId: Option<string>)
        returns (r: Result<MessageRef>)
      requires Valid()
      modifies this
      ensures Valid() && Later(old(folders), folders)
      ensures folders == Apply(old(folders), RestoreOp(from, toFolder, expectedMessageId))
      ensures r == match Restore(old(folders), from, toFolder, expectedMessageId)
                   case Ok(m) => Ok(m.message)
                   case Err(e) => Err(e)
    {
      hide Inv, Later, Locate;
      ApplyKeeps(folders, RestoreOp(from, toFolder, expectedMessageId));
      var t := Find(folders, toFolder);
      if t == |folders| {
        return Err(NotFound);
      }
      var message := Locate(folders, from);
      if message.Err? {
        return Err(message.error);
      }
      if expectedMessageId.Some? && message.value.content.messageId != expectedMessageId.value {
        return Err(StaleReference);
      }
      var f := Find(folders, from.folder);
      assert f < |folders| by { RestoreLocates(folders, from, toFolder, expectedMessageId); }
      folders := folders[f := Remove(folders[f], from.uid)];
      var restored := MessageRef(toFolder, folders[t].uidValidity, folders[t].nextUid);
      folders := folders[t := Append(folders[t], message.value.content)];
      return Ok(restored);
    }
  }

  /** What is left to do from the i-th reference on. */
  ghost function MoveFrom(folders: Folders, t: nat, refs: seq<MessageRef>, messages: seq<Message>, i: nat): Folders
    requires t < |folders| && |refs| == |messages| && i <= |refs|
    requires forall ref :: ref in refs ==> Find(folders, ref.folder) < |folders|
  {
    assert forall ref :: ref in refs[i..] ==> ref in refs;
    MoveAll(folders, t, refs[i..], messages[i..])
  }

  lemma MoveFromStart(folders: Folders, t: nat, refs: seq<MessageRef>, messages: seq<Message>)
    requires t < |folders| && |refs| == |messages|
    requires forall ref :: ref in refs ==> Find(folders, ref.folder) < |folders|
    ensures MoveFrom(folders, t, refs, messages, 0) == MoveAll(folders, t, refs, messages)
  {
    assert refs[0..] == refs && messages[0..] == messages;
  }

  lemma MoveFromNext(folders: Folders, t: nat, refs: seq<MessageRef>, messages: seq<Message>, i: nat)
    requires t < |folders| && |refs| == |messages| && i < |refs|
    requires forall ref :: ref in refs ==> Find(folders, ref.folder) < |folders|
    requires Find(folders, refs[i].folder) < |folders|
    ensures var next := Move(folders, Find(folders, refs[i].folder), messages[i].uid, t, messages[i].content);
            && (forall ref :: ref in refs ==> Find(next, ref.folder) < |next|)
            && MoveFrom(folders, t, refs, messages, i) == MoveFrom(next, t, refs, messages, i + 1)
  {
    hide Move;
    var f := Find(folders, refs[i].folder);
    MovePaths(folders, f, messages[i].uid, t, messages[i].content);
    SamePaths(folders, Move(folders, f, messages[i].uid, t, messages[i].content));
    assert refs[i..][0] == refs[i] && messages[i..][0] == messages[i];
    assert refs[i..][1..] == refs[i + 1..] && messages[i..][1..] == messages[i + 1..];
    assert forall ref :: ref in refs[i..] ==> ref in refs;
    MoveAllHead(folders, t, refs[i..], messages[i..]);
  }

  lemma MoveFromEnd(folders: Folders, t: nat, refs: seq<MessageRef>, messages: seq<Message>)
    requires t < |folders| && |refs| == |messages|
    requires forall ref :: ref in refs ==> Find(folders, ref.folder) < |folders|
    ensures MoveFrom(folders, t, refs, messages, |refs|) == folders
  {
    MoveAllNone(folders, t, refs[|refs|..], messages[|refs|..]);
  }

  lemma MoveAllNone(folders: Folders, trash: nat, refs: seq<MessageRef>, messages: seq<Message>)
    requires refs == [] && messages == [] && trash < |folders|
    ensures MoveAll(folders, trash, refs, messages) == folders
  {
  }

  /** An error found in a prefix of the references is the error of the whole list. */
  lemma {:induction false} FirstErrorStays(folders: Folders, refs: seq<MessageRef>, n: nat)
    requires n <= |refs| && LocateAll(folders, refs[..n]).Err?
    ensures LocateAll(folders, refs) == LocateAll(folders, refs[..n])
    decreases |refs|
  {
    if n == |refs| {
      assert refs[..n] == refs;
    } else {
      var init := refs[..|refs| - 1];
      assert init[..n] == refs[..n];
      FirstErrorStays(folders, init, n);
    }
  }
}
