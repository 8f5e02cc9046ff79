/** The mailbox store: UIDs, moving to Trash, and restoring what was moved. */
module Mailbox {
  import opened Bytes

  datatype Content = Content(subject: string, from: string, body: string, messageId: string)

  datatype Message = Message(uid: nat, content: Content)

  /** `uidValidity` never changes; `nextUid` is the next UID to give out. */
  datatype Folder = Folder(path: string, uidValidity: string, nextUid: nat, messages: seq<Message>)

  /** The folders in the order they were created. */
  type Folders = seq<Folder>

  datatype MessageRef = MessageRef(folder: string, uidValidity: string, uid: nat)

  datatype TrashMove = TrashMove(original: MessageRef, trash: MessageRef, messageId: string)

  datatype MailError = NotFound | StaleReference | Invalid

  datatype Result<+T> = Ok(value: T) | Err(error: MailError)

  const TRASH := "Trash"

  // ----- lookups -----

  /** Position of the folder with a path; `|folders|` when there is none. */
  function Find(folders: Folders, path: string): (i: nat)
    ensures i <= |folders|
    ensures i < |folders| ==> folders[i].path == path
    ensures i == |folders| ==> forall k :: 0 <= k < |folders| ==> folders[k].path != path
  {
    if folders == [] then 0
    else if folders[0].path == path then 0
    else 1 + Find(folders[1..], path)
  }

  function UidAt(messages: seq<Message>, uid: nat): (i: nat)
    ensures i <= |messages|
    ensures i < |messages| ==> messages[i].uid == uid
    ensures i == |messages| ==> forall k :: 0 <= k < |messages| ==> messages[k].uid != uid
  {
    if messages == [] then 0
    else if messages[0].uid == uid then 0
    else 1 + UidAt(messages[1..], uid)
  }

  function Locate(folders: Folders, ref: MessageRef): (r: Result<Message>)
    ensures r.Ok? ==> r.value.uid == ref.uid
  {
    var f := Find(folders, ref.folder);
    if f == |folders| then Err(NotFound)
    else if folders[f].uidValidity != ref.uidValidity then Err(StaleReference)
    else
      var i := UidAt(folders[f].messages, ref.uid);
      if i == |folders[f].messages| then Err(NotFound) else Ok(folders[f].messages[i])
  }

  /** Messages without the one that has this UID. */
  function WithoutUid(messages: seq<Message>, uid: nat): (r: seq<Message>)
    ensures forall m :: m in r <==> m in messages && m.uid != uid
  {
    if messages == [] then []
    else (if messages[0].uid == uid then [] else [messages[0]]) + WithoutUid(messages[1..], uid)
  }

  // ----- steps -----

  /** Adds a message under the folder's next UID. */
  function Append(folder: Folder, content: Content): Folder {
    folder.(nextUid := folder.nextUid + 1, messages := folder.messages + [Message(folder.nextUid, content)])
  }

  function Remove(folder: Folder, uid: nat): Folder {
    folder.(messages := WithoutUid(folder.messages, uid))
  }

  /** Takes a message out of one folder and appends it to another. */
  function Move(folders: Folders, from: nat, uid: nat, to: nat, content: Content): (r: Folders)
    requires from < |folders| && to < |folders|
    ensures |r| == |folders|
  {
    var removed := folders[from := Remove(folders[from], uid)];
    removed[to := Append(removed[to], content)]
  }

  /** Every reference located, or the first error; references into Trash are refused. */
  function LocateAll(folders: Folders, refs: seq<MessageRef>): (r: Result<seq<Message>>)
    ensures r.Ok? ==>
              && |r.value| == |refs|
              && forall i :: 0 <= i < |refs| ==> refs[i].folder != TRASH && Locate(folders, refs[i]) == Ok(r.value[i])
    ensures r.Err? ==> exists i :: 0 <= i < |refs| && (refs[i].folder == TRASH || Locate(folders, refs[i]).Err?)
  {
    if refs == [] then Ok([])
    else
      var n := |refs| - 1;
      var init := LocateAll(folders, refs[..n]);
      if init.Err? then
        assert exists i :: 0 <= i < |refs[..n]| && (refs[..n][i].folder == TRASH || Locate(folders, refs[..n][i]).Err?);
        Err(init.error)
      else if refs[n].folder == TRASH then Err(Invalid)
      else
        var m := Locate(folders, refs[n]);
        if m.Err? then Err(m.error) else Ok(init.value + [m.value])
  }

  /** The located messages moved to Trash, in order. */
  function MoveAll(folders: Folders, trash: nat, refs: seq<MessageRef>, messages: seq<Message>): (r: Folders)
    requires trash < |folders| && |refs| == |messages|
    requires forall ref :: ref in refs ==> Find(folders, ref.folder) < |folders|
    ensures |r| == |folders|
    ensures forall k :: 0 <= k < |r| ==> r[k].path == folders[k].path && r[k].uidValidity == folders[k].uidValidity
    decreases |refs|
  {
    if refs == [] then folders
    else
      var next := Move(folders, Find(folders, refs[0].folder), messages[0].uid, trash, messages[0].content);
      SamePaths(folders, next);
      MoveAll(next, trash, refs[1..], messages[1..])
  }

  /** Folder lookup depends only on the paths. */
  lemma {:induction false} SamePaths(a: Folders, b: Folders)
    requires |a| == |b| && forall k :: 0 <= k < |a| ==> a[k].path == b[k].path
    ensures forall path :: Find(a, path) == Find(b, path)
    decreases |a|
  {
    if a != [] {
      SamePaths(a[1..], b[1..]);
    }
  }

  /** The references a batch of moves hands back: Trash numbers its arrivals in order. */
  function Moves(trash: Folder, refs: seq<MessageRef>, messages: seq<Message>): (r: seq<TrashMove>)
    requires |refs| == |messages|
    ensures |r| == |refs|
  {
    seq(|refs|, i requires 0 <= i < |refs| =>
      TrashMove(refs[i], MessageRef(trash.path, trash.uidValidity, trash.nextUid + i), messages[i].content.messageId))
  }

  datatype Trashed = Trashed(folders: Folders, moves: seq<TrashMove>)

  function Trash(folders: Folders, refs: seq<MessageRef>): Result<Trashed> {
    var t := Find(folders, TRASH);
    if t == |folders| then Err(NotFound)
    else
      var located := LocateAll(folders, refs);
      if located.Err? then Err(located.error)
      else
        LocatedFolders(folders, refs);
        Ok(Trashed(MoveAll(folders, t, refs, located.value), Moves(folders[t], refs, located.value)))
  }

  lemma LocatedFolders(folders: Folders, refs: seq<MessageRef>)
    requires LocateAll(folders, refs).Ok?
    ensures forall ref :: ref in refs ==> Find(folders, ref.folder) < |folders|
  {
  }

  datatype Restored = Restored(folders: Folders, message: MessageRef)

  function Restore(folders: Folders, from: MessageRef, toFolder: string, expected: Option<string>): Result<Restored> {
    var to := Find(folders, toFolder);
    if to == |folders| then Err(NotFound)
    else
      var m := Locate(folders, from);
      if m.Err? then Err(m.error)
      else if expected.Some? && m.value.content.messageId != expected.value then Err(StaleReference)
      else Ok(Restored(Move(folders, Find(folders, from.folder), from.uid, to, m.value.content),
                       MessageRef(toFolder, folders[to].uidValidity, folders[to].nextUid)))
  }

  function Deliver(folders: Folders, path: string, content: Content): Result<Folders> {
    var f := Find(folders, path);
    if f == |folders| then Err(NotFound) else Ok(folders[f := Append(folders[f], content)])
  }

  // ----- UIDs -----

  predicate DistinctUids(messages: seq<Message>) {
    messages == [] || ((forall m :: m in messages[1..] ==> m.uid != messages[0].uid) && DistinctUids(messages[1..]))
  }

  predicate UidsInOrder(folder: Folder) {
    DistinctUids(folder.messages) && forall m :: m in folder.messages ==> m.uid < folder.nextUid
  }

  /** UIDs are unique in every folder and below its next one. */
  ghost predicate Inv(folders: Folders) {
    forall k :: 0 <= k < |folders| ==> UidsInOrder(folders[k])
  }

  /** `g` is `f` later on: UIDs only go up, and an old UID means the message it always meant or none. */
  predicate LaterFolder(f: Folder, g: Folder) {
    && g.path == f.path && g.uidValidity == f.uidValidity && f.nextUid <= g.nextUid
    && forall m :: m in g.messages && m.uid < f.nextUid ==> m in f.messages
  }

  ghost predicate Later(a: Folders, b: Folders) {
    |a| == |b| && forall k :: 0 <= k < |a| ==> LaterFolder(a[k], b[k])
  }

  lemma LaterTwice(a: Folders, b: Folders, c: Folders)
    requires Later(a, b) && Later(b, c)
    ensures Later(a, c)
  {
    forall k | 0 <= k < |a| ensures LaterFolder(a[k], c[k]) {
      assert LaterFolder(a[k], b[k]) && LaterFolder(b[k], c[k]);
    }
  }

  lemma {:induction false} DistinctSnoc(messages: seq<Message>, m: Message)
    requires DistinctUids(messages) && forall x :: x in messages ==> x.uid != m.uid
    ensures DistinctUids(messages + [m])
    decreases |messages|
  {
    if messages == [] {
      assert [m][1..] == [];
    } else {
      DistinctSnoc(messages[1..], m);
      assert (messages + [m])[1..] == messages[1..] + [m];
    }
  }

  lemma {:induction false} DistinctWithout(messages: seq<Message>, uid: nat)
    requires DistinctUids(messages)
    ensures DistinctUids(WithoutUid(messages, uid))
    decreases |messages|
  {
    if messages != [] {
      DistinctWithout(messages[1..], uid);
      var rest := WithoutUid(messages[1..], uid);
      if messages[0].uid != uid {
        assert ([messages[0]] + rest)[1..] == rest;
      } else {
        assert [] + rest == rest;
      }
    }
  }

  lemma AppendKeeps(f: Folder, content: Content)
    requires UidsInOrder(f)
    ensures UidsInOrder(Append(f, content)) && LaterFolder(f, Append(f, content))
  {
    DistinctSnoc(f.messages, Message(f.nextUid, content));
  }

  lemma RemoveKeeps(f: Folder, uid: nat)
    requires UidsInOrder(f)
    ensures UidsInOrder(Remove(f, uid)) && LaterFolder(f, Remove(f, uid))
  {
    DistinctWithout(f.messages, uid);
  }

  lemma MoveKeeps(folders: Folders, from: nat, uid: nat, to: nat, content: Content)
    requires Inv(folders) && from < |folders| && to < |folders|
    ensures Inv(Move(folders, from, uid, to, content)) && Later(folders, Move(folders, from, uid, to, content))
  {
    hide UidsInOrder, LaterFolder, Append, Remove;
    RemoveKeeps(folders[from], uid);
    var removed := folders[from := Remove(folders[from], uid)];
    assert Later(folders, removed) by { forall k | 0 <= k < |folders| && k != from { Reflexive(folders[k]); } }
    AppendKeeps(removed[to], content);
    var appended := removed[to := Append(removed[to], content)];
    assert Later(removed, appended) by { forall k | 0 <= k < |folders| && k != to { Reflexive(removed[k]); } }
    LaterTwice(folders, removed, appended);
  }

  lemma Reflexive(f: Folder)
    ensures LaterFolder(f, f)
  {
  }

  lemma {:induction false} MoveAllKeeps(folders: Folders, trash: nat, refs: seq<MessageRef>, messages: seq<Message>)
    requires Inv(folders) && trash < |folders| && |refs| == |messages|
    requires forall ref :: ref in refs ==> Find(folders, ref.folder) < |folders|
    ensures var r := MoveAll(folders, trash, refs, messages); Inv(r) && Later(folders, r)
    decreases |refs|
  {
    if refs == [] {
      forall k | 0 <= k < |folders| { Reflexive(folders[k]); }
    } else {
      hide Move, Inv, Later;
      var from := Find(folders, refs[0].folder);
      assert refs[0] in refs;
      var next := Move(folders, from, messages[0].uid, trash, messages[0].content);
      MoveKeeps(folders, from, messages[0].uid, trash, messages[0].content);
      assert forall k :: 0 <= k < |folders| ==> next[k].path == folders[k].path by {
        MovePaths(folders, from, messages[0].uid, trash, messages[0].content);
      }
      SamePaths(folders, next);
      MoveAllKeeps(next, trash, refs[1..], messages[1..]);
      LaterTwice(folders, next, MoveAll(next, trash, refs[1..], messages[1..]));
    }
  }

  lemma MovePaths(folders: Folders, from: nat, uid: nat, to: nat, content: Content)
    requires from < |folders| && to < |folders|
    ensures forall k :: 0 <= k < |folders| ==> Move(folders, from, uid, to, content)[k].path == folders[k].path
  {
  }

  // ----- runs -----

  datatype Op =
    | DeliverOp(path: string, content: Content)
    | TrashOp(refs: seq<MessageRef>)
    | RestoreOp(from: MessageRef, toFolder: string, expected: Option<string>)

  /** One operation; a failed one changes nothing. */
  function Apply(folders: Folders, op: Op): Folders {
    match op
    case DeliverOp(path, content) => (match Deliver(folders, path, content) case Ok(r) => r case Err(_) => folders)
    case TrashOp(refs) => (match Trash(folders, refs) case Ok(r) => r.folders case Err(_) => folders)
    case RestoreOp(from, toFolder, expected) =>
      (match Restore(folders, from, toFolder, expected) case Ok(r) => r.folders case Err(_) => folders)
  }

  function ApplyAll(folders: Folders, ops: seq<Op>): Folders {
    if ops == [] then folders else Apply(ApplyAll(folders, ops[..|ops| - 1]), ops[|ops| - 1])
  }

  lemma ApplyKeeps(folders: Folders, op: Op)
    requires Inv(folders)
    ensures Inv(Apply(folders, op)) && Later(folders, Apply(folders, op))
  {
    hide UidsInOrder, LaterFolder, Append, Move;
    forall k | 0 <= k < |folders| { Reflexive(folders[k]); }
    match op
    case DeliverOp(path, content) =>
      var f := Find(folders, path);
      if f < |folders| {
        AppendKeeps(folders[f], content);
      }
    case TrashOp(refs) =>
      if Trash(folders, refs).Ok? {
        LocatedFolders(folders, refs);
        MoveAllKeeps(folders, Find(folders, TRASH), refs, LocateAll(folders, refs).value);
      }
    case RestoreOp(from, toFolder, expected) =>
      if Restore(folders, from, toFolder, expected).Ok? {
        MoveKeeps(folders, Find(folders, from.folder), from.uid, Find(folders, toFolder),
                  Locate(folders, from).value.content);
      }
  }

  /** Over every run UIDs stay unique and below the next one, and none is ever given to another message. */
  lemma {:induction false} UidsAreNeverReused(folders: Folders, ops: seq<Op>)
    requires Inv(folders)
    ensures Inv(ApplyAll(folders, ops)) && Later(folders, ApplyAll(folders, ops))
    decreases |ops|
  {
    if ops == [] {
      forall k | 0 <= k < |folders| { Reflexive(folders[k]); }
    } else {
      hide Inv, Later;
      var init := ApplyAll(folders, ops[..|ops| - 1]);
      UidsAreNeverReused(folders, ops[..|ops| - 1]);
      ApplyKeeps(init, ops[|ops| - 1]);
      LaterTwice(folders, init, ApplyAll(folders, ops));
    }
  }
}
