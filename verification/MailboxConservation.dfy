/** Conservation: what moving messages does to the mailbox as a whole. */
module MailboxConservation {
  import opened Mailbox

  function Contents(messages: seq<Message>): multiset<Content> {
    if messages == [] then multiset{} else multiset{messages[0].content} + Contents(messages[1..])
  }

  /** Every message of the mailbox, by content. */
  function AllContents(folders: Folders): multiset<Content> {
    if folders == [] then multiset{} else Contents(folders[0].messages) + AllContents(folders[1..])
  }

  predicate HasUid(folder: Folder, uid: nat) {
    exists m :: m in folder.messages && m.uid == uid
  }

  lemma Cancel<T>(a: multiset<T>, b: multiset<T>, c: multiset<T>)
    requires a + c == b + c
    ensures a == b
  {
    forall x ensures a[x] == b[x] {
      assert (a + c)[x] == (b + c)[x];
    }
  }

  lemma Shift<T>(h: multiset<T>, a: multiset<T>, b: multiset<T>, c: multiset<T>, d: multiset<T>)
    requires a + b == c + d
    ensures h + a + b == h + c + d
  {
    assert h + a + b == h + (a + b);
    assert h + c + d == h + (c + d);
  }

  lemma Swap<T>(a: multiset<T>, b: multiset<T>, c: multiset<T>)
    ensures a + b + c == a + c + b && a + (b + c) == a + b + c
  {
  }

  lemma {:induction false} ContentsSnoc(messages: seq<Message>, m: Message)
    ensures Contents(messages + [m]) == Contents(messages) + multiset{m.content}
  {
    if messages == [] {
      assert [] + [m] == [m] && [m][1..] == [];
    } else {
      ContentsSnoc(messages[1..], m);
      assert (messages + [m])[1..] == messages[1..] + [m];
    }
  }

  lemma {:induction false} WithoutAbsent(messages: seq<Message>, uid: nat)
    requires forall x :: x in messages ==> x.uid != uid
    ensures WithoutUid(messages, uid) == messages
  {
    if messages != [] {
      WithoutAbsent(messages[1..], uid);
    }
  }

  /** Taking out the UID of a message takes out that message alone. */
  lemma {:induction false} ContentsWithout(messages: seq<Message>, m: Message)
    requires DistinctUids(messages) && m in messages
    ensures Contents(messages) == Contents(WithoutUid(messages, m.uid)) + multiset{m.content}
    decreases |messages|
  {
    var head, rest := messages[0], messages[1..];
    if head == m {
      WithoutAbsent(rest, m.uid);
      assert [] + rest == rest;
    } else {
      assert m in rest;
      ContentsWithout(rest, m);
      var kept := [head] + WithoutUid(rest, m.uid);
      assert kept[1..] == WithoutUid(rest, m.uid);
      assert WithoutUid(messages, m.uid) == kept;
      Shift(multiset{head.content}, Contents(WithoutUid(rest, m.uid)), multiset{m.content}, Contents(rest), multiset{});
    }
  }

  lemma {:induction false} AllContentsUpdate(folders: Folders, i: nat, f: Folder)
    requires i < |folders|
    ensures AllContents(folders[i := f]) + Contents(folders[i].messages) == AllContents(folders) + Contents(f.messages)
    decreases |folders|
  {
    hide Contents;
    var updated := folders[i := f];
    if i == 0 {
      assert updated[1..] == folders[1..];
      Swap(Contents(f.messages), AllContents(folders[1..]), Contents(folders[0].messages));
    } else {
      AllContentsUpdate(folders[1..], i - 1, f);
      assert updated[1..] == folders[1..][i - 1 := f];
      assert updated[0] == folders[0];
      Shift(Contents(folders[0].messages), AllContents(updated[1..]), Contents(folders[i].messages),
            AllContents(folders[1..]), Contents(f.messages));
    }
  }

  /** Moving a message that is there conserves the mailbox. */
  lemma MoveConserves(folders: Folders, from: nat, to: nat, m: Message)
    requires Inv(folders) && from < |folders| && to < |folders| && m in folders[from].messages
    ensures AllContents(Move(folders, from, m.uid, to, m.content)) == AllContents(folders)
  {
    hide AllContents, Contents, WithoutUid, Move;
    assert UidsInOrder(folders[from]);
    hide UidsInOrder;
    var before, without := AllContents(folders), Contents(WithoutUid(folders[from].messages, m.uid));
    ContentsWithout(folders[from].messages, m);
    MoveContents(folders, from, to, m);
    Swap(before, without, multiset{m.content});
    Cancel(AllContents(Move(folders, from, m.uid, to, m.content)), before, Contents(folders[from].messages));
  }

  /** Moving one that is gone adds a copy. */
  lemma MoveCopies(folders: Folders, from: nat, to: nat, m: Message)
    requires from < |folders| && to < |folders| && !HasUid(folders[from], m.uid)
    ensures AllContents(Move(folders, from, m.uid, to, m.content)) == AllContents(folders) + multiset{m.content}
  {
    WithoutAbsent(folders[from].messages, m.uid);
    hide AllContents, Contents, WithoutUid, Move;
    var before, here := AllContents(folders), Contents(folders[from].messages);
    MoveContents(folders, from, to, m);
    Swap(before, here, multiset{m.content});
    Cancel(AllContents(Move(folders, from, m.uid, to, m.content)), before + multiset{m.content}, here);
  }

  lemma MoveContents(folders: Folders, from: nat, to: nat, m: Message)
    requires from < |folders| && to < |folders|
    ensures AllContents(Move(folders, from, m.uid, to, m.content)) + Contents(folders[from].messages)
            == AllContents(folders) + Contents(WithoutUid(folders[from].messages, m.uid)) + multiset{m.content}
  {
    hide AllContents, Contents, WithoutUid;
    var removed := folders[from := Remove(folders[from], m.uid)];
    AllContentsUpdate(folders, from, Remove(folders[from], m.uid));
    AllContentsUpdate(removed, to, Append(removed[to], m.content));
    ContentsSnoc(removed[to].messages, Message(removed[to].nextUid, m.content));
    var moved := Move(folders, from, m.uid, to, m.content);
    var there, one := Contents(removed[to].messages), multiset{m.content};
    Swap(AllContents(removed), there, one);
    Cancel(AllContents(moved), AllContents(removed) + one, there);
    var here, without := Contents(folders[from].messages), Contents(WithoutUid(folders[from].messages, m.uid));
    Swap(AllContents(removed), one, here);
    assert AllContents(removed) + here == AllContents(folders) + without;
  }

  predicate SameMessage(a: MessageRef, b: MessageRef) {
    a.folder == b.folder && a.uid == b.uid
  }

  predicate PairwiseDistinct(refs: seq<MessageRef>) {
    refs == [] || ((forall ref :: ref in refs[1..] ==> !SameMessage(ref, refs[0])) && PairwiseDistinct(refs[1..]))
  }

  /**
   * Where a batch stands: each message left to move has its reference's UID, and is in its folder
   * or its UID is gone.
   */
  ghost predicate Movable(folders: Folders, trash: nat, refs: seq<MessageRef>, messages: seq<Message>) {
    && Inv(folders) && trash < |folders| && |refs| == |messages|
    && forall i :: 0 <= i < |refs| ==>
         && Find(folders, refs[i].folder) < |folders| && Find(folders, refs[i].folder) != trash
         && messages[i].uid == refs[i].uid
         && (Here(folders, refs[i], messages[i]) || !HasUid(folders[Find(folders, refs[i].folder)], refs[i].uid))
  }

  predicate Here(folders: Folders, ref: MessageRef, m: Message) {
    var f := Find(folders, ref.folder);
    f < |folders| && m in folders[f].messages
  }

  function AfterFirst(folders: Folders, trash: nat, refs: seq<MessageRef>, messages: seq<Message>): Folders
    requires refs != [] && |refs| == |messages| && trash < |folders| && Find(folders, refs[0].folder) < |folders|
  {
    Move(folders, Find(folders, refs[0].folder), messages[0].uid, trash, messages[0].content)
  }

  /** After the first move the rest can go on: a same reference is now gone, any other is as it was. */
  lemma MovableNext(folders: Folders, trash: nat, refs: seq<MessageRef>, messages: seq<Message>)
    requires Movable(folders, trash, refs, messages) && refs != []
    ensures var next := AfterFirst(folders, trash, refs, messages);
            && Movable(next, trash, refs[1..], messages[1..])
            && (forall path :: Find(next, path) == Find(folders, path))
            && forall i :: 1 <= i < |refs| ==>
                 (Here(next, refs[i], messages[i])
                  <==> Here(folders, refs[i], messages[i]) && !SameMessage(refs[i], refs[0]))
  {
    var from := Find(folders, refs[0].folder);
    var next := AfterFirst(folders, trash, refs, messages);
    MoveKeeps(folders, from, messages[0].uid, trash, messages[0].content);
    MovePaths(folders, from, messages[0].uid, trash, messages[0].content);
    SamePaths(folders, next);
    hide Inv, Move;
    forall i | 1 <= i < |refs|
      ensures Here(next, refs[i], messages[i])
              <==> Here(folders, refs[i], messages[i]) && !SameMessage(refs[i], refs[0])
      ensures Here(next, refs[i], messages[i]) || !HasUid(next[Find(next, refs[i].folder)], refs[i].uid)
    {
      MoveElsewhere(folders, from, messages[0], trash, Find(folders, refs[i].folder));
      if Find(folders, refs[i].folder) == from {
        assert refs[i].folder == folders[from].path == refs[0].folder;
      }
    }
  }

  /** What a move does to the messages of a folder other than its target. */
  lemma MoveElsewhere(folders: Folders, from: nat, m: Message, to: nat, k: nat)
    requires from < |folders| && to < |folders| && k < |folders| && k != to
    ensures var next := Move(folders, from, m.uid, to, m.content);
            forall x :: x in next[k].messages <==> x in folders[k].messages && (k != from || x.uid != m.uid)
  {
  }

  /** A batch never loses a message, and adds copies when one is found already gone. */
  lemma {:induction false} MoveAllGrows(folders: Folders, trash: nat, refs: seq<MessageRef>, messages: seq<Message>)
    requires Movable(folders, trash, refs, messages)
    requires forall ref :: ref in refs ==> Find(folders, ref.folder) < |folders|
    ensures var after := AllContents(MoveAll(folders, trash, refs, messages));
            && |AllContents(folders)| <= |after|
            && ((exists i :: 0 <= i < |refs| && !Here(folders, refs[i], messages[i])) ==>
                |AllContents(folders)| < |after|)
    decreases |refs|
  {
    if refs != [] {
      hide Inv, Move, AllContents, HasUid, Here, SameMessage, MoveAll;
      var next := AfterFirst(folders, trash, refs, messages);
      FirstMove(folders, trash, refs, messages);
      MovableNext(folders, trash, refs, messages);
      MoveAllHead(folders, trash, refs, messages);
      MoveAllGrows(next, trash, refs[1..], messages[1..]);
      if i :| 0 <= i < |refs| && !Here(folders, refs[i], messages[i]) {
        if i > 0 {
          assert refs[1..][i - 1] == refs[i] && messages[1..][i - 1] == messages[i];
          assert !Here(next, refs[1..][i - 1], messages[1..][i - 1]);
        }
      }
    }
  }

  lemma FirstMove(folders: Folders, trash: nat, refs: seq<MessageRef>, messages: seq<Message>)
    requires Movable(folders, trash, refs, messages) && refs != []
    ensures var next := AfterFirst(folders, trash, refs, messages);
            if Here(folders, refs[0], messages[0]) then AllContents(next) == AllContents(folders)
            else AllContents(next) == AllContents(folders) + multiset{messages[0].content}
  {
    hide Inv, Move, AllContents;
    var from := Find(folders, refs[0].folder);
    if Here(folders, refs[0], messages[0]) {
      MoveConserves(folders, from, trash, messages[0]);
    } else {
      MoveCopies(folders, from, trash, messages[0]);
    }
  }

  lemma {:induction false} MoveAllCounts(folders: Folders, trash: nat, refs: seq<MessageRef>, messages: seq<Message>)
    requires Movable(folders, trash, refs, messages)
    requires forall ref :: ref in refs ==> Find(folders, ref.folder) < |folders|
    requires forall i :: 0 <= i < |refs| ==> Here(folders, refs[i], messages[i])
    ensures var after := AllContents(MoveAll(folders, trash, refs, messages));
            && (PairwiseDistinct(refs) ==> after == AllContents(folders))
            && (!PairwiseDistinct(refs) ==> |AllContents(folders)| < |after|)
    decreases |refs|
  {
    if refs != [] {
      hide Inv, Move, AllContents, HasUid, Here, MoveAll, SameMessage, Movable;
      var next := AfterFirst(folders, trash, refs, messages);
      FirstMove(folders, trash, refs, messages);
      MovableNext(folders, trash, refs, messages);
      MoveAllHead(folders, trash, refs, messages);
      if forall ref :: ref in refs[1..] ==> !SameMessage(ref, refs[0]) {
        forall i | 0 <= i < |refs[1..]| ensures Here(next, refs[1..][i], messages[1..][i]) {
          assert refs[1..][i] == refs[i + 1] && messages[1..][i] == messages[i + 1];
          assert refs[i + 1] in refs[1..];
        }
        MoveAllCounts(next, trash, refs[1..], messages[1..]);
      } else {
        var i :| 0 <= i < |refs[1..]| && SameMessage(refs[1..][i], refs[0]);
        assert refs[1..][i] == refs[i + 1] && messages[1..][i] == messages[i + 1];
        assert !Here(next, refs[1..][i], messages[1..][i]);
        MoveAllGrows(next, trash, refs[1..], messages[1..]);
      }
    }
  }

  lemma MoveAllHead(folders: Folders, trash: nat, refs: seq<MessageRef>, messages: seq<Message>)
    requires refs != [] && trash < |folders| && |refs| == |messages|
    requires forall ref :: ref in refs ==> Find(folders, ref.folder) < |folders|
    ensures var next := AfterFirst(folders, trash, refs, messages);
            && (forall ref :: ref in refs[1..] ==> Find(next, ref.folder) < |next|)
            && MoveAll(folders, trash, refs, messages) == MoveAll(next, trash, refs[1..], messages[1..])
  {
    hide Move;
    assert refs[0] in refs;
    var next := AfterFirst(folders, trash, refs, messages);
    MovePaths(folders, Find(folders, refs[0].folder), messages[0].uid, trash, messages[0].content);
    SamePaths(folders, next);
  }

  /** A batch that succeeds conserves every message exactly when no message is referenced twice. */
  lemma TrashConserves(folders: Folders, refs: seq<MessageRef>)
    requires Inv(folders) && Trash(folders, refs).Ok?
    ensures AllContents(Trash(folders, refs).value.folders) == AllContents(folders) <==> PairwiseDistinct(refs)
  {
    var t := Find(folders, TRASH);
    var messages := LocateAll(folders, refs).value;
    LocatedFolders(folders, refs);
    forall i | 0 <= i < |refs|
      ensures Find(folders, refs[i].folder) < |folders| && Find(folders, refs[i].folder) != t
      ensures Here(folders, refs[i], messages[i]) && messages[i].uid == refs[i].uid
    {
      assert Locate(folders, refs[i]) == Ok(messages[i]);
    }
    MoveAllCounts(folders, t, refs, messages);
  }

  /** A message named twice in one call ends up in Trash twice. */
  lemma RepeatedReferenceDuplicates() returns (folders: Folders, ref: MessageRef)
    ensures Inv(folders) && Trash(folders, [ref, ref]).Ok?
    ensures AllContents(Trash(folders, [ref, ref]).value.folders) != AllContents(folders)
  {
    var m := Message(1, Content("s", "f", "b", "id"));
    folders := [Folder("INBOX", "1", 2, [m]), Folder(TRASH, "2", 1, [])];
    ref := MessageRef("INBOX", "1", 1);
    assert [m][1..] == [] && folders[0].messages == [m];
    assert Find(folders, TRASH) == 1 by { assert folders[1..][0] == folders[1]; }
    assert Locate(folders, ref) == Ok(m);
    assert [ref][..0] == [] && [ref, ref][..1] == [ref];
    assert LocateAll(folders, [ref]).Ok?;
    assert LocateAll(folders, [ref, ref]).Ok?;
    assert UidsInOrder(folders[0]) && UidsInOrder(folders[1]);
    assert ref in [ref, ref][1..];
    TrashConserves(folders, [ref, ref]);
  }
}
