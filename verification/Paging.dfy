/** Listing a folder page by page, newest first, with the last UID seen as the cursor. */
module Paging {
  import opened Bytes
  import opened Mailbox

  predicate Before(m: Message, cursor: Option<nat>) {
    cursor == None || m.uid < cursor.value
  }

  function Older(messages: seq<Message>, cursor: Option<nat>): (r: seq<Message>)
    ensures |r| <= |messages|
    ensures forall m :: m in r <==> m in messages && Before(m, cursor)
  {
    if messages == [] then []
    else (if Before(messages[0], cursor) then [messages[0]] else []) + Older(messages[1..], cursor)
  }

  predicate Descending(messages: seq<Message>) {
    forall i, j :: 0 <= i < j < |messages| ==> messages[i].uid >= messages[j].uid
  }

  predicate StrictlyDescending(messages: seq<Message>) {
    forall i, j :: 0 <= i < j < |messages| ==> messages[i].uid > messages[j].uid
  }

  lemma ConsDescending(m: Message, sorted: seq<Message>)
    requires Descending(sorted) && (sorted != [] ==> m.uid >= sorted[0].uid)
    ensures Descending([m] + sorted)
  {
    var all := [m] + sorted;
    forall i, j | 0 <= i < j < |all| ensures all[i].uid >= all[j].uid {
      if i == 0 && j > 1 {
        assert sorted[0].uid >= sorted[j - 1].uid;
      }
    }
  }

  lemma TailDescending(sorted: seq<Message>)
    requires Descending(sorted) && sorted != []
    ensures Descending(sorted[1..])
    ensures multiset(sorted) == multiset{sorted[0]} + multiset(sorted[1..])
    ensures |sorted| > 1 ==> sorted[0].uid >= sorted[1].uid
  {
    assert sorted == [sorted[0]] + sorted[1..];
  }

  function Insert(m: Message, sorted: seq<Message>): (r: seq<Message>)
    requires Descending(sorted)
    ensures Descending(r) && multiset(r) == multiset(sorted) + multiset{m}
    ensures r != [] && (r[0] == m || (sorted != [] && r[0] == sorted[0]))
  {
    if sorted == [] || m.uid >= sorted[0].uid then
      ConsDescending(m, sorted);
      [m] + sorted
    else
      TailDescending(sorted);
      hide Descending;
      var rest := Insert(m, sorted[1..]);
      ConsDescending(sorted[0], rest);
      [sorted[0]] + rest
  }

  /** The sorted copy. */
  function Sorted(messages: seq<Message>): (r: seq<Message>)
    ensures Descending(r) && multiset(r) == multiset(messages)
  {
    if messages == [] then []
    else
      assert messages == [messages[0]] + messages[1..];
      Insert(messages[0], Sorted(messages[1..]))
  }

  datatype MessagePage = MessagePage(messages: seq<Message>, nextBeforeUid: Option<nat>)

  function Page(messages: seq<Message>, limit: nat, cursor: Option<nat>): MessagePage {
    var sorted := Sorted(Older(messages, cursor));
    var page := if limit < |sorted| then sorted[..limit] else sorted;
    MessagePage(page, if |sorted| > |page| && page != [] then Some(page[|page| - 1].uid) else None)
  }

  // ----- sorting without duplicates -----

  lemma SameMembers(a: seq<Message>, b: seq<Message>)
    requires multiset(a) == multiset(b)
    ensures |a| == |b| && forall m :: m in a <==> m in b
  {
    assert |multiset(a)| == |a| && |multiset(b)| == |b|;
    forall m ensures m in a <==> m in b {
      assert m in a <==> m in multiset(a);
      assert m in b <==> m in multiset(b);
    }
  }

  lemma {:induction false} DistinctOlder(messages: seq<Message>, cursor: Option<nat>)
    requires DistinctUids(messages)
    ensures DistinctUids(Older(messages, cursor))
    decreases |messages|
  {
    if messages != [] {
      DistinctOlder(messages[1..], cursor);
      var rest := Older(messages[1..], cursor);
      if Before(messages[0], cursor) {
        assert ([messages[0]] + rest)[1..] == rest;
      } else {
        assert [] + rest == rest;
      }
    }
  }

  lemma {:induction false} InsertStrictly(m: Message, sorted: seq<Message>)
    requires StrictlyDescending(sorted) && forall x :: x in sorted ==> x.uid != m.uid
    ensures StrictlyDescending(Insert(m, sorted))
    decreases |sorted|
  {
    if sorted != [] && m.uid < sorted[0].uid {
      InsertStrictly(m, sorted[1..]);
      var rest := Insert(m, sorted[1..]);
      SameMembersInsert(m, sorted[1..]);
    }
  }

  lemma SameMembersInsert(m: Message, sorted: seq<Message>)
    requires Descending(sorted)
    ensures forall x :: x in Insert(m, sorted) <==> x == m || x in sorted
  {
    assert multiset(Insert(m, sorted)) == multiset(sorted + [m]);
    SameMembers(Insert(m, sorted), sorted + [m]);
  }

  lemma {:induction false} SortedStrictly(messages: seq<Message>)
    requires DistinctUids(messages)
    ensures StrictlyDescending(Sorted(messages))
    decreases |messages|
  {
    if messages != [] {
      SortedStrictly(messages[1..]);
      SameMembers(Sorted(messages[1..]), messages[1..]);
      InsertStrictly(messages[0], Sorted(messages[1..]));
    }
  }

  /** Strictly descending lists with the same members are the same list. */
  lemma {:induction false} DescendingIsUnique(a: seq<Message>, b: seq<Message>)
    requires StrictlyDescending(a) && StrictlyDescending(b)
    requires forall m :: m in a <==> m in b
    ensures a == b
    decreases |a|
  {
    assert b != [] ==> b[0] in a;
    if a != [] {
      assert a[0] in a && a[0] in b;
      assert b[0] in b && b[0] in a;
      assert a[0] == b[0];
      assert a == [a[0]] + a[1..] && b == [b[0]] + b[1..];
      forall m ensures m in a[1..] <==> m in b[1..] {
        assert m in a[1..] ==> m in a && m != a[0];
        assert m in b[1..] ==> m in b && m != b[0];
      }
      DescendingIsUnique(a[1..], b[1..]);
    }
  }

  // ----- following the cursor -----

  /** Past a page, what is older than its last message is the rest of the sorted list. */
  lemma NextPage(messages: seq<Message>, limit: nat, cursor: Option<nat>)
    requires DistinctUids(messages) && limit >= 1 && Page(messages, limit, cursor).nextBeforeUid.Some?
    ensures var sorted := Sorted(Older(messages, cursor)); var page := Page(messages, limit, cursor);
            && limit < |sorted| && page.messages == sorted[..limit]
            && Sorted(Older(messages, page.nextBeforeUid)) == sorted[limit..]
            && |Older(messages, page.nextBeforeUid)| < |Older(messages, cursor)|
            && (cursor.Some? ==> page.nextBeforeUid.value < cursor.value)
            && exists m :: m in messages && m.uid == page.nextBeforeUid.value
  {
    hide Older, Sorted, Page, DistinctUids;
    var sorted := Sorted(Older(messages, cursor));
    PageShape(messages, limit, cursor);
    SortedOlder(messages, cursor);
    var next := sorted[limit - 1].uid;
    var rest := Sorted(Older(messages, Some(next)));
    SortedOlder(messages, Some(next));
    assert sorted[limit - 1] in sorted;
    TailIsOlder(sorted, limit);
    DescendingIsUnique(rest, sorted[limit..]);
  }

  lemma PageShape(messages: seq<Message>, limit: nat, cursor: Option<nat>)
    requires limit >= 1
    ensures var sorted := Sorted(Older(messages, cursor)); var page := Page(messages, limit, cursor);
            if limit < |sorted| then page == MessagePage(sorted[..limit], Some(sorted[limit - 1].uid))
            else page == MessagePage(sorted, None)
  {
    hide Older, Sorted;
  }

  /** The sorted messages before a cursor. */
  lemma SortedOlder(messages: seq<Message>, cursor: Option<nat>)
    requires DistinctUids(messages)
    ensures var sorted := Sorted(Older(messages, cursor));
            && StrictlyDescending(sorted) && |sorted| == |Older(messages, cursor)|
            && forall m :: m in sorted <==> m in messages && Before(m, cursor)
  {
    hide Sorted;
    DistinctOlder(messages, cursor);
    SortedStrictly(Older(messages, cursor));
    SameMembers(Sorted(Older(messages, cursor)), Older(messages, cursor));
  }

  /** In a strictly descending list, what is below a member is what comes after it. */
  lemma TailIsOlder(sorted: seq<Message>, n: nat)
    requires StrictlyDescending(sorted) && 1 <= n <= |sorted|
    ensures StrictlyDescending(sorted[n..])
    ensures forall m :: m in sorted[n..] <==> m in sorted && m.uid < sorted[n - 1].uid
  {
    forall m | m in sorted && m.uid < sorted[n - 1].uid ensures m in sorted[n..] {
      var k :| 0 <= k < |sorted| && sorted[k] == m;
      assert k >= n && sorted[n..][k - n] == m;
    }
  }

  /** Every page in turn, from a cursor until there is no next one. */
  function Follow(messages: seq<Message>, limit: nat, cursor: Option<nat>): seq<Message>
    requires DistinctUids(messages) && limit >= 1
    decreases |Older(messages, cursor)|
  {
    var page := Page(messages, limit, cursor);
    if page.nextBeforeUid == None then page.messages
    else
      assert |Older(messages, page.nextBeforeUid)| < |Older(messages, cursor)| by { NextPage(messages, limit, cursor); }
      page.messages + Follow(messages, limit, page.nextBeforeUid)
  }

  lemma {:induction false} FollowIsSorted(messages: seq<Message>, limit: nat, cursor: Option<nat>)
    requires DistinctUids(messages) && limit >= 1
    ensures Follow(messages, limit, cursor) == Sorted(Older(messages, cursor))
    decreases |Older(messages, cursor)|
  {
    hide Older, Sorted, Page;
    var page := Page(messages, limit, cursor);
    PageShape(messages, limit, cursor);
    if page.nextBeforeUid.Some? {
      NextPage(messages, limit, cursor);
      FollowIsSorted(messages, limit, page.nextBeforeUid);
      var sorted := Sorted(Older(messages, cursor));
      assert sorted == sorted[..limit] + sorted[limit..];
    }
  }

  lemma {:induction false} OlderThanNothing(messages: seq<Message>)
    ensures Older(messages, None) == messages
  {
    if messages != [] {
      OlderThanNothing(messages[1..]);
    }
  }

  /** Following the cursor from the start gives every message once, in strictly descending order of UID. */
  lemma PagesCoverOnce(messages: seq<Message>, limit: nat)
    requires DistinctUids(messages) && limit >= 1
    ensures StrictlyDescending(Follow(messages, limit, None))
    ensures multiset(Follow(messages, limit, None)) == multiset(messages)
  {
    FollowIsSorted(messages, limit, None);
    OlderThanNothing(messages);
    SortedStrictly(messages);
  }

  // ----- deliveries between pages -----

  /** A listing during which `arrivals[k]` come in after the k-th page was served. */
  function Session(messages: seq<Message>, limit: nat, cursor: Option<nat>, arrivals: seq<seq<Message>>): seq<Message>
    decreases |arrivals|
  {
    var page := Page(messages, limit, cursor);
    if page.nextBeforeUid == None || arrivals == [] then page.messages
    else page.messages + Session(messages + arrivals[0], limit, page.nextBeforeUid, arrivals[1..])
  }

  /** As many pages as `pages`, with nothing arriving. */
  function FirstPages(messages: seq<Message>, limit: nat, cursor: Option<nat>, pages: nat): seq<Message>
    decreases pages
  {
    var page := Page(messages, limit, cursor);
    if page.nextBeforeUid == None || pages == 0 then page.messages
    else page.messages + FirstPages(messages, limit, page.nextBeforeUid, pages - 1)
  }

  lemma {:induction false} OlderConcat(a: seq<Message>, b: seq<Message>, cursor: Option<nat>)
    ensures Older(a + b, cursor) == Older(a, cursor) + Older(b, cursor)
    decreases |a|
  {
    if a == [] {
      assert a + b == b;
    } else {
      assert (a + b)[1..] == a[1..] + b && (a + b)[0] == a[0];
      OlderConcat(a[1..], b, cursor);
      Associative(if Before(a[0], cursor) then [a[0]] else [], Older(a[1..], cursor), Older(b, cursor));
    }
  }

  lemma {:induction false} NewerAreNotOlder(messages: seq<Message>, cursor: nat)
    requires forall m :: m in messages ==> m.uid >= cursor
    ensures Older(messages, Some(cursor)) == []
  {
    if messages != [] {
      NewerAreNotOlder(messages[1..], cursor);
    }
  }

  lemma SamePage(messages: seq<Message>, later: seq<Message>, limit: nat, cursor: nat)
    requires forall m :: m in later ==> m.uid >= cursor
    ensures Page(messages + later, limit, Some(cursor)) == Page(messages, limit, Some(cursor))
  {
    hide Sorted;
    OlderConcat(messages, later, Some(cursor));
    NewerAreNotOlder(later, cursor);
    assert Older(messages, Some(cursor)) + [] == Older(messages, Some(cursor));
  }

  /** Messages delivered meanwhile, which get higher UIDs, are neither shown nor hide or repeat an older one. */
  lemma {:induction false} SessionFromCursor(messages: seq<Message>, later: seq<Message>, limit: nat, cursor: nat,
                                             arrivals: seq<seq<Message>>)
    requires DistinctUids(messages) && limit >= 1
    requires forall m :: m in later ==> m.uid >= cursor
    requires forall a, m :: a in arrivals && m in a ==> m.uid >= cursor
    ensures Session(messages + later, limit, Some(cursor), arrivals)
            == FirstPages(messages, limit, Some(cursor), |arrivals|)
    decreases |arrivals|
  {
    hide Older, Sorted, Page, DistinctUids;
    SamePage(messages, later, limit, cursor);
    var page := Page(messages, limit, Some(cursor));
    if page.nextBeforeUid.Some? && arrivals != [] {
      NextPage(messages, limit, Some(cursor));
      var next := page.nextBeforeUid.value;
      assert arrivals[0] in arrivals;
      assert forall a :: a in arrivals[1..] ==> a in arrivals;
      Associative(messages, later, arrivals[0]);
      assert forall m :: m in later + arrivals[0] ==> m.uid >= next;
      SessionFromCursor(messages, later + arrivals[0], limit, next, arrivals[1..]);
    }
  }

  /** A whole listing from the start, interrupted by deliveries, shows what it would have shown without them. */
  lemma DeliveriesDoNotDisturb(messages: seq<Message>, limit: nat, arrivals: seq<seq<Message>>)
    requires DistinctUids(messages) && limit >= 1
    requires forall a, m, x :: a in arrivals && m in a && x in messages ==> m.uid > x.uid
    ensures Session(messages, limit, None, arrivals) == FirstPages(messages, limit, None, |arrivals|)
  {
    hide Older, Sorted, Page, DistinctUids;
    var page := Page(messages, limit, None);
    if page.nextBeforeUid.Some? && arrivals != [] {
      NextPage(messages, limit, None);
      var next := page.nextBeforeUid.value;
      var x :| x in messages && x.uid == next;
      assert arrivals[0] in arrivals;
      assert forall a :: a in arrivals[1..] ==> a in arrivals;
      SessionFromCursor(messages, arrivals[0], limit, next, arrivals[1..]);
    }
  }

  /** With as many pages as messages, nothing is left over. */
  lemma {:induction false} EnoughPages(messages: seq<Message>, limit: nat, cursor: Option<nat>, pages: nat)
    requires DistinctUids(messages) && limit >= 1 && pages >= |Older(messages, cursor)|
    ensures FirstPages(messages, limit, cursor, pages) == Follow(messages, limit, cursor)
    decreases pages
  {
    hide Older, Sorted, Page, DistinctUids;
    var page := Page(messages, limit, cursor);
    if page.nextBeforeUid.Some? {
      NextPage(messages, limit, cursor);
      EnoughPages(messages, limit, page.nextBeforeUid, pages - 1);
    }
  }

  /**
   * A listing followed to its end, whatever is delivered meanwhile, shows every message that was
   * there once, newest first.
   */
  lemma UndisturbedListing(messages: seq<Message>, limit: nat, arrivals: seq<seq<Message>>)
    requires DistinctUids(messages) && limit >= 1 && |arrivals| >= |messages|
    requires forall a, m, x :: a in arrivals && m in a && x in messages ==> m.uid > x.uid
    ensures StrictlyDescending(Session(messages, limit, None, arrivals))
    ensures multiset(Session(messages, limit, None, arrivals)) == multiset(messages)
  {
    hide Older, Sorted, Page, DistinctUids;
    DeliveriesDoNotDisturb(messages, limit, arrivals);
    EnoughPages(messages, limit, None, |arrivals|);
    PagesCoverOnce(messages, limit);
  }
}
