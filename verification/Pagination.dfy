/** Following nextCursor through a goal's entries, page by page, newest first. */
module Pagination {
  import opened Decimals
  import opened Ledger
  import opened LedgerInvariant
  import S = Sequences

  /** Some newest-first listing of the rows. Rows that tie in date and creation time may come in either
      order, and the database may choose differently for every query. */
  ghost predicate IsListing(rows: seq<Entry>, entries: seq<Entry>) {
    multiset(rows) == multiset(entries) && forall i, j :: 0 <= i < j < |rows| ==> Newer(rows[i], rows[j])
  }

  ghost predicate Tied(a: Entry, b: Entry) {
    a.entryDate == b.entryDate && a.createdAt == b.createdAt
  }

  ghost predicate StrictOrder(entries: seq<Entry>) {
    forall i, j :: 0 <= i < j < |entries| ==> !Tied(entries[i], entries[j])
  }

  // ----- Listings -----

  lemma {:induction false} InsertNewestLists(e: Entry, s: seq<Entry>, rest: seq<Entry>)
    requires IsListing(s, rest)
    ensures IsListing(InsertNewest(e, s), [e] + rest)
  {
    if s == [] {
    } else if Newer(e, s[0]) {
      assert forall j :: 0 <= j < |s| ==> Newer(e, s[j]);
    } else {
      assert s == [s[0]] + s[1..];
      InsertNewestLists(e, s[1..], s[1..]);
      var t := InsertNewest(e, s[1..]);
      forall j | 0 <= j < |t| ensures Newer(s[0], t[j]) {
        assert t[j] in multiset([e] + s[1..]);
      }
    }
  }

  lemma {:induction false} NewestFirstLists(s: seq<Entry>)
    ensures IsListing(NewestFirst(s), s)
  {
    if s == [] {
    } else {
      NewestFirstLists(s[1..]);
      InsertNewestLists(s[0], NewestFirst(s[1..]), s[1..]);
      assert s == [s[0]] + s[1..];
    }
  }

  /** In plain words: later entry date first, and on one date later creation first. */
  lemma ListedNewestFirst(s: seq<Entry>, i: nat, j: nat)
    requires i < j < |NewestFirst(s)|
    ensures var a, b := NewestFirst(s)[i], NewestFirst(s)[j];
            a.entryDate >= b.entryDate && (a.entryDate == b.entryDate ==> a.createdAt >= b.createdAt)
  {
    NewestFirstLists(s);
    assert Newer(NewestFirst(s)[i], NewestFirst(s)[j]);
  }

  lemma {:induction false} ListingsAgree(r: seq<Entry>, t: seq<Entry>)
    requires IsListing(r, t) && IsListing(t, t) && StrictOrder(r)
    ensures r == t
    decreases |r|
  {
    S.EmptyReordering(r, t);
    if r == [] {
    } else {
      FirstRowsAgree(r, t);
      assert r == [r[0]] + r[1..] && t == [t[0]] + t[1..];
      TailsAreListings(r, t);
      ListingsAgree(r[1..], t[1..]);
    }
  }

  lemma TailsAreListings(r: seq<Entry>, t: seq<Entry>)
    requires IsListing(r, t) && IsListing(t, t) && |r| == |t| > 0 && r[0] == t[0]
    ensures IsListing(r[1..], t[1..]) && IsListing(t[1..], t[1..])
  {
    assert r == [r[0]] + r[1..] && t == [t[0]] + t[1..];
    assert multiset(r[1..]) == multiset(r) - multiset([r[0]]);
    assert multiset(t[1..]) == multiset(t) - multiset([t[0]]);
  }

  lemma FirstRowsAgree(r: seq<Entry>, t: seq<Entry>)
    requires IsListing(r, t) && IsListing(t, t) && StrictOrder(r) && |r| == |t| > 0
    ensures r[0] == t[0]
  {
    assert r[0] in multiset(t) && t[0] in multiset(r);
    var i :| 0 <= i < |t| && t[i] == r[0];
    var j :| 0 <= j < |r| && r[j] == t[0];
    assert Newer(t[0], t[i]) && Newer(r[0], r[j]);
  }

  lemma {:induction false} StrictOrderOfListing(r: seq<Entry>, t: seq<Entry>)
    requires multiset(r) == multiset(t) && StrictOrder(t) && S.UniqueBy(EntryKey(), t)
    ensures StrictOrder(r)
  {
    forall i, j | 0 <= i < j < |r| ensures !Tied(r[i], r[j]) {
      assert r[i] in multiset(t) && r[j] in multiset(t);
      var a :| 0 <= a < |t| && t[a] == r[i];
      var b :| 0 <= b < |t| && t[b] == r[j];
      if a == b {
        TwiceInMultiset(r, i, j);
        OnceInMultiset(t, r[i]);
      }
    }
  }

  lemma TwiceInMultiset(r: seq<Entry>, i: nat, j: nat)
    requires i < j < |r| && r[i] == r[j]
    ensures multiset(r)[r[i]] >= 2
  {
    assert r == r[..i] + [r[i]] + r[i + 1..j] + [r[j]] + r[j + 1..];
  }

  lemma {:induction false} OnceInMultiset(s: seq<Entry>, x: Entry)
    requires S.UniqueBy(EntryKey(), s)
    ensures multiset(s)[x] <= 1
  {
    if s == [] {
    } else {
      assert s == [s[0]] + s[1..];
      OnceInMultiset(s[1..], x);
      assert forall k :: 0 <= k < |s[1..]| ==> s[1..][k] == s[k + 1];
    }
  }

  lemma UniqueIdsOfListing(r: seq<Entry>, t: seq<Entry>)
    requires multiset(r) == multiset(t) && S.UniqueBy(EntryKey(), t)
    ensures S.UniqueBy(EntryKey(), r)
  {
    forall i, j | 0 <= i < j < |r| ensures EntryKey()(r[i]) != EntryKey()(r[j]) {
      assert r[i] in multiset(t) && r[j] in multiset(t);
      if r[i].id == r[j].id {
        S.UniqueMember(EntryKey(), t, r[i], r[j]);
        TwiceInMultiset(r, i, j);
        OnceInMultiset(t, r[i]);
      }
    }
  }

  // ----- Walking the pages -----

  /** The listing queries of a walk: query number k sees its rows in the order `orders(k)`. */
  function Queries(orders: nat -> seq<Entry>, limit: nat): (nat, Option<nat>) -> Reply {
    (k: nat, cursor: Option<nat>) => PageOf(orders(k), limit, cursor)
  }

  /** The concatenated pages of a walk. None if a page fails or the walk has not ended after `pages` pages. */
  function Walk(ask: (nat, Option<nat>) -> Reply, cursor: Option<nat>, page: nat, pages: nat): Option<seq<Entry>>
    decreases pages
  {
    if pages == 0 then None
    else
      var reply := ask(page, cursor);
      if !reply.EntryPage? then None
      else if reply.nextCursor.None? then Some(reply.entries)
      else
        var rest := Walk(ask, reply.nextCursor, page + 1, pages - 1);
        if rest.None? then None else Some(reply.entries + rest.value)
  }

  /** The cursor that points just before row a. */
  function CursorAt(rows: seq<Entry>, a: nat): Option<nat>
    requires a <= |rows|
  {
    if a == 0 then None else Some(rows[a - 1].id)
  }

  lemma {:induction false} AfterCursorAt(rows: seq<Entry>, a: nat)
    requires S.UniqueBy(EntryKey(), rows) && a <= |rows|
    ensures AfterCursor(rows, CursorAt(rows, a)) == rows[a..]
  {
    if a > 1 {
      assert EntryKey()(rows[0]) != EntryKey()(rows[a - 1]);
      AfterCursorAt(rows[1..], a - 1);
      assert rows[1..][a - 1..] == rows[a..];
    }
  }

  function PageSize(limit: nat): nat {
    if limit < DEFAULT_PAGE_SIZE then limit else DEFAULT_PAGE_SIZE
  }

  /** The page that starts at row a. */
  function PageFrom(rows: seq<Entry>, size: nat, a: nat): Reply
    requires a <= |rows|
  {
    if a + size < |rows| then EntryPage(rows[a..a + size], CursorAt(rows, a + size)) else EntryPage(rows[a..], None)
  }

  lemma PageAt(rows: seq<Entry>, limit: nat, a: nat)
    requires S.UniqueBy(EntryKey(), rows) && a <= |rows| && limit >= 1
    ensures PageOf(rows, limit, CursorAt(rows, a)) == PageFrom(rows, PageSize(limit), a)
  {
    AfterCursorAt(rows, a);
    var b := a + PageSize(limit);
    var after := rows[a..];
    if b < |rows| {
      var taken := if |after| > PageSize(limit) + 1 then after[..PageSize(limit) + 1] else after;
      assert taken[..PageSize(limit)] == rows[a..b];
    }
  }

  /** From some query on, the answers are the pages of one order. */
  ghost predicate AnswersFrom(ask: (nat, Option<nat>) -> Reply, rows: seq<Entry>, size: nat, from: nat) {
    forall k: nat, a: nat {:trigger ask(k, CursorAt(rows, a))} ::
      k >= from && a <= |rows| ==> ask(k, CursorAt(rows, a)) == PageFrom(rows, size, a)
  }

  lemma SteadyOrderAnswers(orders: nat -> seq<Entry>, rows: seq<Entry>, limit: nat, from: nat)
    requires S.UniqueBy(EntryKey(), rows) && limit >= 1
    requires forall k: nat :: k >= from ==> orders(k) == rows
    ensures AnswersFrom(Queries(orders, limit), rows, PageSize(limit), from)
  {
    forall k: nat, a: nat | k >= from && a <= |rows|
      ensures Queries(orders, limit)(k, CursorAt(rows, a)) == PageFrom(rows, PageSize(limit), a)
    {
      PageAt(rows, limit, a);
    }
  }

  /** A walk whose remaining queries all see the same order collects exactly the remaining rows. */
  lemma {:induction false} SteadyWalk(ask: (nat, Option<nat>) -> Reply, rows: seq<Entry>, size: nat, a: nat,
                                      page: nat, pages: nat)
    requires AnswersFrom(ask, rows, size, page) && a <= |rows| && size >= 1
    ensures var w := Walk(ask, CursorAt(rows, a), page, pages);
            (w.Some? ==> w.value == rows[a..]) && (pages > |rows| - a ==> w.Some?)
    decreases pages
  {
    if pages > 0 {
      assert ask(page, CursorAt(rows, a)) == PageFrom(rows, size, a);
      var b := a + size;
      if b < |rows| {
        SteadyWalk(ask, rows, size, b, page + 1, pages - 1);
        assert rows[a..b] + rows[b..] == rows[a..];
      }
    }
  }

  lemma StrictListingIsUnique(r: seq<Entry>, entries: seq<Entry>)
    requires S.UniqueBy(EntryKey(), entries) && StrictOrder(entries) && IsListing(r, entries)
    ensures r == NewestFirst(entries)
  {
    NewestFirstLists(entries);
    StrictOrderOfListing(r, entries);
    ListingsAgree(r, NewestFirst(entries));
  }

  lemma EveryQuerySeesOneOrder(entries: seq<Entry>, orders: nat -> seq<Entry>)
    requires S.UniqueBy(EntryKey(), entries) && StrictOrder(entries)
    requires forall k: nat :: IsListing(orders(k), entries)
    ensures forall k: nat :: orders(k) == NewestFirst(entries)
  {
    forall k: nat ensures orders(k) == NewestFirst(entries) {
      StrictListingIsUnique(orders(k), entries);
    }
  }

  lemma NewestFirstIsUnique(entries: seq<Entry>)
    requires S.UniqueBy(EntryKey(), entries)
    ensures S.UniqueBy(EntryKey(), NewestFirst(entries)) && |NewestFirst(entries)| == |entries|
  {
    NewestFirstLists(entries);
    UniqueIdsOfListing(NewestFirst(entries), entries);
    S.EmptyReordering(NewestFirst(entries), entries);
  }

  /** With no two rows tied, any page limit from 1 up terminates and yields exactly the rows, newest first. */
  lemma StrictPagesAreExact(entries: seq<Entry>, orders: nat -> seq<Entry>, limit: nat)
    requires S.UniqueBy(EntryKey(), entries) && StrictOrder(entries) && limit >= 1
    requires forall k: nat :: IsListing(orders(k), entries)
    ensures Walk(Queries(orders, limit), None, 0, |entries| + 1) == Some(NewestFirst(entries))
  {
    var rows := NewestFirst(entries);
    EveryQuerySeesOneOrder(entries, orders);
    NewestFirstIsUnique(entries);
    SteadyOrderAnswers(orders, rows, limit, 0);
    SteadyWalk(Queries(orders, limit), rows, PageSize(limit), 0, 0, |entries| + 1);
    assert rows[0..] == rows;
  }

  // ----- The listing call itself -----

  predicate OwnsGoal(s: Store, user: nat, goalId: nat) {
    exists g :: g in s.goals && g.id == goalId && g.userId == user
  }

  predicate LiesOn(e: Entry, user: nat, goalId: nat) {
    e.goalId == goalId && e.userId == user
  }

  /** What the listing call answers in a store, whichever query of a walk it is. */
  function ListCalls(s: Store, user: nat, goalId: nat, limit: nat, env: Env): (nat, Option<nat>) -> Reply {
    (k: nat, cursor: Option<nat>) => Step(s, user, ListEntries(goalId, limit, cursor), env).reply
  }

  lemma {:induction false} SameAnswersSameWalk(ask: (nat, Option<nat>) -> Reply, other: (nat, Option<nat>) -> Reply,
                                               cursor: Option<nat>, page: nat, pages: nat)
    requires forall k: nat, c: Option<nat> :: ask(k, c) == other(k, c)
    ensures Walk(ask, cursor, page, pages) == Walk(other, cursor, page, pages)
    decreases pages
  {
    if pages > 0 && ask(page, cursor).EntryPage? && ask(page, cursor).nextCursor.Some? {
      SameAnswersSameWalk(ask, other, ask(page, cursor).nextCursor, page + 1, pages - 1);
    }
  }

  /** Only the owner of a goal can list it, and listing writes nothing. */
  lemma ListingNeedsTheOwnGoal(s: Store, user: nat, goalId: nat, limit: nat, cursor: Option<nat>, env: Env)
    ensures var o := Step(s, user, ListEntries(goalId, limit, cursor), env);
            o.store == s && (o.reply == Failed(GoalNotFound) <==> !OwnsGoal(s, user, goalId))
  {
    FirstOfFilter(OwnGoal(user, goalId), s.goals);
    if g :| g in s.goals && g.id == goalId && g.userId == user {
      assert OwnGoal(user, goalId)(g);
    }
  }

  lemma ListCallsPage(s: Store, user: nat, goalId: nat, limit: nat, env: Env, rows: seq<Entry>)
    requires OwnsGoal(s, user, goalId) && rows == NewestFirst(S.Filter(EntriesOn(user, goalId), s.entries))
    ensures forall k: nat, c: Option<nat> ::
              ListCalls(s, user, goalId, limit, env)(k, c) == Queries((n: nat) => rows, limit)(k, c)
  {
    forall k: nat, c: Option<nat>
      ensures ListCalls(s, user, goalId, limit, env)(k, c) == Queries((n: nat) => rows, limit)(k, c)
    {
      ListingNeedsTheOwnGoal(s, user, goalId, limit, c, env);
    }
  }

  /** Rows of the store that lie on the goal, in strictly descending order. */
  ghost predicate ListsTheGoal(rows: seq<Entry>, s: Store, user: nat, goalId: nat) {
    && (forall e :: e in rows <==> e in s.entries && LiesOn(e, user, goalId))
    && forall i, j :: 0 <= i < j < |rows| ==> StrictlyNewer(rows[i], rows[j])
  }

  ghost predicate NoTiesOn(s: Store, user: nat, goalId: nat) {
    forall a, b :: a in s.entries && b in s.entries && LiesOn(a, user, goalId) && LiesOn(b, user, goalId) && a != b ==>
      !Tied(a, b)
  }

  lemma ListedRowsDescend(rows: seq<Entry>)
    requires S.UniqueBy(EntryKey(), rows) && forall i, j :: 0 <= i < j < |rows| ==> Newer(rows[i], rows[j])
    requires forall a, b :: a in rows && b in rows && a != b ==> !Tied(a, b)
    ensures forall i, j :: 0 <= i < j < |rows| ==> StrictlyNewer(rows[i], rows[j])
  {
    forall i, j | 0 <= i < j < |rows| ensures StrictlyNewer(rows[i], rows[j]) {
      assert Newer(rows[i], rows[j]) && rows[i] in rows && rows[j] in rows;
      assert EntryKey()(rows[i]) != EntryKey()(rows[j]);
    }
  }

  lemma ListedRowsAreTheRows(rows: seq<Entry>, entries: seq<Entry>)
    requires multiset(rows) == multiset(entries)
    ensures forall e :: e in rows <==> e in entries
  {
    forall e ensures e in rows <==> e in entries {
      assert e in rows <==> e in multiset(rows);
      assert e in entries <==> e in multiset(entries);
    }
  }

  lemma OwnRowsAreListed(s: Store, user: nat, goalId: nat, bound: nat, rows: seq<Entry>)
    requires Structural(s, bound) && NoTiesOn(s, user, goalId)
    requires rows == NewestFirst(S.Filter(EntriesOn(user, goalId), s.entries))
    ensures S.UniqueBy(EntryKey(), rows) && ListsTheGoal(rows, s, user, goalId) && |rows| <= |s.entries|
  {
    var own := S.Filter(EntriesOn(user, goalId), s.entries);
    S.FilterKeepsUnique(EntryKey(), EntriesOn(user, goalId), s.entries);
    NewestFirstIsUnique(own);
    NewestFirstLists(own);
    ListedRowsAreTheRows(rows, own);
    ListedRowsDescend(rows);
  }

  /** In every consistent store: following nextCursor with any limit from 1 through a goal of one's own without ties
      ends, and shows each of the user's entries on that goal exactly once, and nothing else, newest first. */
  lemma ListingWalksTheGoal(s: Store, user: nat, goalId: nat, limit: nat, env: Env, bound: nat, pages: nat)
    requires Structural(s, bound) && OwnsGoal(s, user, goalId) && NoTiesOn(s, user, goalId)
    requires limit >= 1 && pages > |s.entries|
    ensures var walk := Walk(ListCalls(s, user, goalId, limit, env), None, 0, pages);
            walk.Some? && ListsTheGoal(walk.value, s, user, goalId)
  {
    var rows := NewestFirst(S.Filter(EntriesOn(user, goalId), s.entries));
    var orders := (n: nat) => rows;
    OwnRowsAreListed(s, user, goalId, bound, rows);
    ListCallsPage(s, user, goalId, limit, env, rows);
    SameAnswersSameWalk(ListCalls(s, user, goalId, limit, env), Queries(orders, limit), None, 0, pages);
    SteadyOrderAnswers(orders, rows, limit, 0);
    SteadyWalk(Queries(orders, limit), rows, PageSize(limit), 0, 0, pages);
    WholeSlice(rows);
  }

  predicate StrictlyNewer(a: Entry, b: Entry) {
    a.entryDate > b.entryDate || (a.entryDate == b.entryDate && a.createdAt > b.createdAt)
  }

  lemma WholeSlice(rows: seq<Entry>)
    ensures rows[0..] == rows
  {
  }

  /** A page holds at most fifty rows and at most `limit`; with a page to follow it holds exactly so many. */
  lemma PagesAreFull(s: Store, user: nat, goalId: nat, limit: nat, cursor: Option<nat>, env: Env)
    requires OwnsGoal(s, user, goalId) && limit >= 1
    ensures var reply := Step(s, user, ListEntries(goalId, limit, cursor), env).reply;
            var most := if limit < 50 then limit else 50;
            && reply.EntryPage? && |reply.entries| <= most
            && (reply.nextCursor.Some? ==> |reply.entries| == most
                                           && reply.nextCursor == Some(reply.entries[most - 1].id))
  {
    OneListCall(s, user, goalId, limit, cursor, env);
  }

  // ----- Ties -----

  /** Every walk, whatever the limit and however ties are ordered, ends with all the rows. */
  ghost predicate PagesAlwaysExact(entries: seq<Entry>) {
    forall orders: nat -> seq<Entry>, limit: nat :: WalkIsComplete(orders, limit, entries)
  }

  ghost predicate WalkIsComplete(orders: nat -> seq<Entry>, limit: nat, entries: seq<Entry>) {
    limit >= 1 && (forall k: nat :: IsListing(orders(k), entries)) ==>
      Complete(Walk(Queries(orders, limit), None, 0, |entries| + 1), entries)
  }

  ghost predicate Complete(walk: Option<seq<Entry>>, entries: seq<Entry>) {
    walk.Some? && multiset(walk.value) == multiset(entries)
  }

  lemma AdjacentTie(entries: seq<Entry>) returns (rows: seq<Entry>, i: nat)
    requires !StrictOrder(entries) && S.UniqueBy(EntryKey(), entries)
    ensures IsListing(rows, entries) && i + 1 < |rows| && Tied(rows[i], rows[i + 1])
  {
    rows := NewestFirst(entries);
    NewestFirstLists(entries);
    if StrictOrder(rows) {
      UniqueIdsOfListing(rows, entries);
      StrictOrderOfListing(entries, rows);
    }
    var a, b :| 0 <= a < b < |rows| && Tied(rows[a], rows[b]);
    i := a;
    assert Newer(rows[a], rows[a + 1]);
    if a + 1 < b {
      assert Newer(rows[a + 1], rows[b]);
    }
  }

  function SwapAt(rows: seq<Entry>, i: nat): seq<Entry>
    requires i + 1 < |rows|
  {
    rows[i := rows[i + 1]][i + 1 := rows[i]]
  }

  lemma SwappedTieIsAListing(rows: seq<Entry>, entries: seq<Entry>, i: nat)
    requires IsListing(rows, entries) && i + 1 < |rows| && Tied(rows[i], rows[i + 1])
    ensures IsListing(SwapAt(rows, i), entries)
  {
    SwapReorders(rows, i);
    SwapKeepsOrder(rows, i);
  }

  lemma SwapReorders(rows: seq<Entry>, i: nat)
    requires i + 1 < |rows|
    ensures multiset(SwapAt(rows, i)) == multiset(rows)
  {
    var t := SwapAt(rows, i);
    assert rows == rows[..i] + [rows[i]] + [rows[i + 1]] + rows[i + 2..];
    assert t == rows[..i] + [rows[i + 1]] + [rows[i]] + rows[i + 2..];
  }

  lemma SwapKeepsOrder(rows: seq<Entry>, i: nat)
    requires i + 1 < |rows| && Tied(rows[i], rows[i + 1])
    requires forall a, b :: 0 <= a < b < |rows| ==> Newer(rows[a], rows[b])
    ensures forall a, b :: 0 <= a < b < |rows| ==> Newer(SwapAt(rows, i)[a], SwapAt(rows, i)[b])
  {
    var t := SwapAt(rows, i);
    forall a, b | 0 <= a < b < |rows| ensures Newer(t[a], t[b]) {
      var c := if a == i then i + 1 else if a == i + 1 then i else a;
      var d := if b == i then i + 1 else if b == i + 1 then i else b;
      assert t[a] == rows[c] && t[b] == rows[d];
      assert c < d ==> Newer(rows[c], rows[d]);
    }
  }

  /** The order flips two neighbours right after page i. */
  function FlipAfter(rows: seq<Entry>, i: nat): nat -> seq<Entry>
    requires i + 1 < |rows|
  {
    (k: nat) => if k <= i then rows else SwapAt(rows, i)
  }

  /** Pages of one row, first in one order and from query i + 1 on with rows i and i + 1 exchanged. */
  ghost predicate FlippingAnswers(ask: (nat, Option<nat>) -> Reply, rows: seq<Entry>, i: nat)
    requires i + 1 < |rows|
  {
    && (forall p: nat {:trigger ask(p, CursorAt(rows, p))} :: p <= i ==>
          ask(p, CursorAt(rows, p)) == EntryPage([rows[p]], CursorAt(rows, p + 1)))
    && AnswersFrom(ask, SwapAt(rows, i), 1, i + 1)
  }

  lemma FlipAnswers(rows: seq<Entry>, i: nat)
    requires S.UniqueBy(EntryKey(), rows) && i + 1 < |rows|
    ensures FlippingAnswers(Queries(FlipAfter(rows, i), 1), rows, i)
  {
    SwapKeepsUnique(rows, i);
    SteadyOrderAnswers(FlipAfter(rows, i), SwapAt(rows, i), 1, i + 1);
    forall p: nat | p <= i
      ensures Queries(FlipAfter(rows, i), 1)(p, CursorAt(rows, p)) == EntryPage([rows[p]], CursorAt(rows, p + 1))
    {
      PageAt(rows, 1, p);
      assert rows[p..p + 1] == [rows[p]];
    }
  }

  /** All rows but row i + 1. */
  function RowsWithout(rows: seq<Entry>, i: nat): (r: seq<Entry>)
    requires i + 1 < |rows|
    ensures |r| == |rows| - 1
  {
    rows[..i + 1] + rows[i + 2..]
  }

  /** After the flip the cursor stands behind both exchanged rows. */
  lemma {:induction false} FlippedTail(ask: (nat, Option<nat>) -> Reply, rows: seq<Entry>, i: nat, pages: nat)
    requires i + 1 < |rows| && AnswersFrom(ask, SwapAt(rows, i), 1, i + 1)
    ensures var w := Walk(ask, CursorAt(rows, i + 1), i + 1, pages);
            (w.Some? ==> w.value == RowsWithout(rows, i)[i + 1..]) && (pages > |rows| - i - 2 ==> w.Some?)
  {
    var t := SwapAt(rows, i);
    assert CursorAt(t, i + 2) == CursorAt(rows, i + 1);
    SteadyWalk(ask, t, 1, i + 2, i + 1, pages);
    assert t[i + 2..] == rows[i + 2..] == RowsWithout(rows, i)[i + 1..];
  }

  lemma {:induction false} WalkOn(ask: (nat, Option<nat>) -> Reply, cursor: Option<nat>, page: nat, pages: nat,
                                  shown: seq<Entry>, next: Option<nat>)
    requires pages > 0 && next.Some? && ask(page, cursor) == EntryPage(shown, next)
    ensures var rest := Walk(ask, next, page + 1, pages - 1);
            Walk(ask, cursor, page, pages) == if rest.None? then None else Some(shown + rest.value)
  {
  }

  /** The order flips right after the first of two tied rows was shown, and the second is missed. */
  lemma {:induction false} FlippedTieIsMissed(ask: (nat, Option<nat>) -> Reply, rows: seq<Entry>, i: nat,
                                              page: nat, pages: nat)
    requires i + 1 < |rows| && FlippingAnswers(ask, rows, i) && page <= i + 1
    ensures var w := Walk(ask, CursorAt(rows, page), page, pages);
            (w.Some? ==> w.value == RowsWithout(rows, i)[page..]) && (pages > |rows| - page ==> w.Some?)
    decreases pages
  {
    if page == i + 1 {
      FlippedTail(ask, rows, i, pages);
    } else if pages > 0 {
      var left := RowsWithout(rows, i);
      WalkOn(ask, CursorAt(rows, page), page, pages, [rows[page]], CursorAt(rows, page + 1));
      FlippedTieIsMissed(ask, rows, i, page + 1, pages - 1);
      assert left[page] == rows[page];
      assert left[page..] == [rows[page]] + left[page + 1..];
    }
  }

  lemma SwapKeepsUnique(rows: seq<Entry>, i: nat)
    requires S.UniqueBy(EntryKey(), rows) && i + 1 < |rows|
    ensures S.UniqueBy(EntryKey(), SwapAt(rows, i))
  {
    var t := SwapAt(rows, i);
    forall a, b | 0 <= a < b < |t| ensures EntryKey()(t[a]) != EntryKey()(t[b]) {
      var c := if a == i then i + 1 else if a == i + 1 then i else a;
      var d := if b == i then i + 1 else if b == i + 1 then i else b;
      assert t[a] == rows[c] && t[b] == rows[d] && c != d;
    }
  }

  lemma LeftOutRow(rows: seq<Entry>, i: nat)
    requires i + 1 < |rows|
    ensures multiset(rows) == multiset(RowsWithout(rows, i)) + multiset{rows[i + 1]}
  {
    assert rows == rows[..i + 1] + [rows[i + 1]] + rows[i + 2..];
  }

  lemma {:induction false} FlippedWalk(ask: (nat, Option<nat>) -> Reply, rows: seq<Entry>, i: nat, left: seq<Entry>)
    requires i + 1 < |rows| && FlippingAnswers(ask, rows, i) && left == RowsWithout(rows, i)
    ensures Walk(ask, None, 0, |rows| + 1) == Some(left)
  {
    FlippedTieIsMissed(ask, rows, i, 0, |rows| + 1);
    WholeSlice(left);
  }

  /** For any rows with a tie, some choice of orders makes the walk with limit 1 end with all rows but one. */
  lemma {:induction false} TiedPagesCanMissARow(entries: seq<Entry>) returns (orders: nat -> seq<Entry>, missed: Entry)
    requires !StrictOrder(entries) && S.UniqueBy(EntryKey(), entries)
    ensures forall k: nat :: IsListing(orders(k), entries)
    ensures missed in entries
    ensures var walk := Walk(Queries(orders, 1), None, 0, |entries| + 1);
            walk.Some? && multiset(entries) == multiset(walk.value) + multiset{missed}
  {
    var rows, i := AdjacentTie(entries);
    orders, missed := FlipAfter(rows, i), rows[i + 1];
    UniqueIdsOfListing(rows, entries);
    SwappedTieIsAListing(rows, entries, i);
    S.EmptyReordering(rows, entries);
    FlipAnswers(rows, i);
    FlippedWalk(Queries(orders, 1), rows, i, RowsWithout(rows, i));
    LeftOutRow(rows, i);
    assert missed in multiset(entries);
  }

  /** Paging shows every row exactly once, for all limits and all tie-breaking, exactly when no two rows tie. */
  lemma PagesExactIffStrict(entries: seq<Entry>)
    requires S.UniqueBy(EntryKey(), entries)
    ensures PagesAlwaysExact(entries) <==> StrictOrder(entries)
  {
    if StrictOrder(entries) {
      forall orders: nat -> seq<Entry>, limit: nat ensures WalkIsComplete(orders, limit, entries) {
        if limit >= 1 && forall k: nat :: IsListing(orders(k), entries) {
          StrictPagesAreExact(entries, orders, limit);
          NewestFirstLists(entries);
        }
      }
    } else {
      var orders, missed := TiedPagesCanMissARow(entries);
      assert !WalkIsComplete(orders, 1, entries);
    }
  }

  // ----- Entries that change between the pages -----

  /** The row stands in the listing, at its place in the order; amount and note may differ. */
  ghost predicate StandsIn(e: Entry, rows: seq<Entry>) {
    exists i :: 0 <= i < |rows| && SameRow(e, rows[i])
  }

  predicate SameRow(a: Entry, b: Entry) {
    a.id == b.id && a.entryDate == b.entryDate && a.createdAt == b.createdAt
  }

  /** Some listing of some entries, with no two tied. */
  ghost predicate StrictListing(rows: seq<Entry>) {
    S.UniqueBy(EntryKey(), rows) && StrictOrder(rows) && forall i, j :: 0 <= i < j < |rows| ==> Newer(rows[i], rows[j])
  }

  /** Whenever a page has a next one, its last row still stands at its place when the next is asked for. */
  ghost predicate CursorsStand(ask: (nat, Option<nat>) -> Reply, orders: nat -> seq<Entry>, cursor: Option<nat>,
                               page: nat, pages: nat)
    decreases pages
  {
    pages == 0
    || var reply := ask(page, cursor);
       reply.EntryPage? && reply.nextCursor.Some? && reply.entries != [] ==>
         && StandsIn(reply.entries[|reply.entries| - 1], orders(page + 1))
         && CursorsStand(ask, orders, reply.nextCursor, page + 1, pages - 1)
  }

  /** How often a row with this id is shown. */
  function TimesShown(id: nat, shown: seq<Entry>): nat {
    if shown == [] then 0 else (if shown[0].id == id then 1 else 0) + TimesShown(id, shown[1..])
  }

  lemma {:induction false} TimesShownSplit(id: nat, a: seq<Entry>, b: seq<Entry>)
    ensures TimesShown(id, a + b) == TimesShown(id, a) + TimesShown(id, b)
  {
    if a == [] {
      assert a + b == b;
    } else {
      TimesShownSplit(id, a[1..], b);
      assert (a + b)[1..] == a[1..] + b;
    }
  }

  /** A slice of rows with unique ids shows row j once if it reaches over it, otherwise never. */
  lemma {:induction false} TimesShownInSlice(rows: seq<Entry>, j: nat, a: nat, b: nat)
    requires S.UniqueBy(EntryKey(), rows) && j < |rows| && a <= b <= |rows|
    ensures TimesShown(rows[j].id, rows[a..b]) == if a <= j < b then 1 else 0
    decreases b - a
  {
    if a < b {
      TimesShownInSlice(rows, j, a + 1, b);
      assert rows[a..b][1..] == rows[a + 1..b];
      assert a != j ==> EntryKey()(rows[if a < j then a else j]) != EntryKey()(rows[if a < j then j else a]);
    }
  }

  function PageEnd(rows: seq<Entry>, limit: nat, a: nat): (b: nat)
    requires a <= |rows|
    ensures b <= |rows|
  {
    if a + PageSize(limit) < |rows| then a + PageSize(limit) else |rows|
  }

  /** The page holds rows a to b; the row at j is shown if it is one of them, and the next cursor is row b's. */
  ghost predicate Covers(reply: Reply, rows: seq<Entry>, a: nat, b: nat, j: nat)
    requires a <= b <= |rows| && j < |rows|
  {
    && reply.EntryPage? && (reply.nextCursor.Some? <==> b < |rows|)
    && (b < |rows| ==> reply.nextCursor == CursorAt(rows, b) && reply.entries != [] && b > 0
                       && reply.entries[|reply.entries| - 1] == rows[b - 1])
    && TimesShown(rows[j].id, reply.entries) == if a <= j < b then 1 else 0
  }

  lemma {:induction false} PageCovers(orders: nat -> seq<Entry>, limit: nat, page: nat, a: nat, j: nat)
    requires S.UniqueBy(EntryKey(), orders(page)) && a <= |orders(page)| && limit >= 1 && j < |orders(page)|
    ensures Covers(Queries(orders, limit)(page, CursorAt(orders(page), a)), orders(page), a,
                   PageEnd(orders(page), limit, a), j)
  {
    var rows := orders(page);
    PageAt(rows, limit, a);
    assert rows[a..] == rows[a..|rows|];
    TimesShownInSlice(rows, j, a, PageEnd(rows, limit, a));
  }

  lemma ComesFirstIff(rows: seq<Entry>, i: nat, j: nat)
    requires StrictListing(rows) && i < |rows| && j < |rows|
    ensures i < j <==> StrictlyNewer(rows[i], rows[j])
  {
    if i < j {
      assert !Tied(rows[i], rows[j]) && Newer(rows[i], rows[j]);
    } else if j < i {
      assert !Tied(rows[j], rows[i]) && Newer(rows[j], rows[i]);
    }
  }

  /** What stands behind the last row of a page stands behind it in the next listing, and the other way round. */
  lemma StaysBehind(rows: seq<Entry>, next: seq<Entry>, last: nat, e: Entry, j: nat) returns (c: nat, m: nat)
    requires StrictListing(rows) && StrictListing(next) && last < |rows| && j < |rows| && SameRow(e, rows[j])
    requires StandsIn(rows[last], next) && StandsIn(e, next)
    ensures c < |next| && m < |next| && next[c].id == rows[last].id && SameRow(e, next[m])
    ensures c < m <==> last < j
  {
    c :| 0 <= c < |next| && SameRow(rows[last], next[c]);
    m :| 0 <= m < |next| && SameRow(e, next[m]);
    ComesFirstIff(rows, last, j);
    ComesFirstIff(next, c, m);
  }

  /** From a query on, the listings are strict and the row stands in all of them. */
  ghost predicate StandsFrom(orders: nat -> seq<Entry>, e: Entry, from: nat) {
    forall k: nat :: k >= from ==> StrictListing(orders(k)) && StandsIn(e, orders(k))
  }

  ghost predicate ShowsTimes(walk: Option<seq<Entry>>, id: nat, times: nat) {
    walk.Some? ==> TimesShown(id, walk.value) == times
  }

  lemma {:induction false} OnePageMore(ask: (nat, Option<nat>) -> Reply, cursor: Option<nat>, page: nat, pages: nat,
                                       id: nat, rest: nat)
    requires pages > 0 && ask(page, cursor).EntryPage?
    requires var next := ask(page, cursor).nextCursor;
             if next.Some? then ShowsTimes(Walk(ask, next, page + 1, pages - 1), id, rest) else rest == 0
    ensures ShowsTimes(Walk(ask, cursor, page, pages), id, TimesShown(id, ask(page, cursor).entries) + rest)
  {
    var reply := ask(page, cursor);
    if reply.nextCursor.Some? {
      var walk := Walk(ask, reply.nextCursor, page + 1, pages - 1);
      if walk.Some? {
        TimesShownSplit(id, reply.entries, walk.value);
      }
    }
  }

  /** Query k, asked for the page after row a - 1, covers its rows up to the page's end. */
  ghost predicate CoversAt(ask: (nat, Option<nat>) -> Reply, orders: nat -> seq<Entry>, limit: nat,
                           k: nat, a: nat, j: nat)
  {
    a <= |orders(k)| && j < |orders(k)| ==>
      Covers(ask(k, CursorAt(orders(k), a)), orders(k), a, PageEnd(orders(k), limit, a), j)
  }

  ghost predicate AlwaysCovers(ask: (nat, Option<nat>) -> Reply, orders: nat -> seq<Entry>, limit: nat) {
    forall k: nat, a: nat, j: nat :: CoversAt(ask, orders, limit, k, a, j)
  }

  /** When a page ends before the last row, the next cursor stands in the next listing, and the row stays on
      its side. */
  lemma {:induction false} TurnThePage(ask: (nat, Option<nat>) -> Reply, orders: nat -> seq<Entry>, a: nat, b: nat,
                                       page: nat, pages: nat, e: Entry, j: nat) returns (c: nat, m: nat)
    requires pages > 0 && a <= b < |orders(page)| && j < |orders(page)| && SameRow(e, orders(page)[j])
    requires Covers(ask(page, CursorAt(orders(page), a)), orders(page), a, b, j)
    requires StandsFrom(orders, e, page) && CursorsStand(ask, orders, CursorAt(orders(page), a), page, pages)
    ensures c < |orders(page + 1)| && m < |orders(page + 1)| && SameRow(e, orders(page + 1)[m])
    ensures ask(page, CursorAt(orders(page), a)).nextCursor == CursorAt(orders(page + 1), c + 1)
    ensures CursorsStand(ask, orders, CursorAt(orders(page + 1), c + 1), page + 1, pages - 1)
    ensures c + 1 <= m <==> b <= j
  {
    var rows, next := orders(page), orders(page + 1);
    assert StrictListing(rows) && StrictListing(next) && StandsIn(e, next);
    c, m := StaysBehind(rows, next, b - 1, e, j);
  }

  lemma {:induction false} CoveredThenRest(ask: (nat, Option<nat>) -> Reply, rows: seq<Entry>, a: nat, b: nat,
                                           page: nat, pages: nat, j: nat)
    requires pages > 0 && a <= b <= |rows| && j < |rows| && Covers(ask(page, CursorAt(rows, a)), rows, a, b, j)
    requires b < |rows| ==> ShowsTimes(Walk(ask, ask(page, CursorAt(rows, a)).nextCursor, page + 1, pages - 1),
                                       rows[j].id, if b <= j then 1 else 0)
    ensures ShowsTimes(Walk(ask, CursorAt(rows, a), page, pages), rows[j].id, if a <= j then 1 else 0)
  {
    OnePageMore(ask, CursorAt(rows, a), page, pages, rows[j].id, if b < |rows| && b <= j then 1 else 0);
  }

  /** From the cursor before row a on, the walk shows a standing row once if it is not before a, otherwise never. */
  lemma {:induction false} StandingRowIsShown(ask: (nat, Option<nat>) -> Reply, orders: nat -> seq<Entry>, limit: nat,
                                              a: nat, page: nat, pages: nat, e: Entry, j: nat)
    requires AlwaysCovers(ask, orders, limit)
    requires a <= |orders(page)| && j < |orders(page)| && SameRow(e, orders(page)[j])
    requires StandsFrom(orders, e, page) && CursorsStand(ask, orders, CursorAt(orders(page), a), page, pages)
    ensures ShowsTimes(Walk(ask, CursorAt(orders(page), a), page, pages), e.id, if a <= j then 1 else 0)
    decreases pages
  {
    if pages > 0 {
      var rows, b := orders(page), PageEnd(orders(page), limit, a);
      assert CoversAt(ask, orders, limit, page, a, j);
      if b < |rows| {
        var c, m := TurnThePage(ask, orders, a, b, page, pages, e, j);
        StandingRowIsShown(ask, orders, limit, c + 1, page + 1, pages - 1, e, m);
      }
      CoveredThenRest(ask, rows, a, b, page, pages, j);
    }
  }

  /** Entries may be added, removed and edited between the pages, in any way that leaves no tie and each cursor's row at
      its place: a finished walk then shows every entry that stood throughout exactly once. */
  lemma {:induction false} StandingRowsAreShownOnce(orders: nat -> seq<Entry>, limit: nat, pages: nat, e: Entry)
    requires limit >= 1 && StandsFrom(orders, e, 0)
    requires CursorsStand(Queries(orders, limit), orders, None, 0, pages)
    ensures var walk := Walk(Queries(orders, limit), None, 0, pages);
            walk.Some? ==> TimesShown(e.id, walk.value) == 1
  {
    forall k: nat, a: nat, j: nat ensures CoversAt(Queries(orders, limit), orders, limit, k, a, j) {
      if a <= |orders(k)| && j < |orders(k)| {
        assert StrictListing(orders(k));
        PageCovers(orders, limit, k, a, j);
      }
    }
    assert StandsIn(e, orders(0));
    var j :| 0 <= j < |orders(0)| && SameRow(e, orders(0)[j]);
    StandingRowIsShown(Queries(orders, limit), orders, limit, 0, 0, pages, e, j);
  }

  // ----- The listing call over a changing store -----

  function ListCallsOver(stores: nat -> Store, user: nat, goalId: nat, limit: nat, env: Env)
    : (nat, Option<nat>) -> Reply
  {
    (k: nat, cursor: Option<nat>) => Step(stores(k), user, ListEntries(goalId, limit, cursor), env).reply
  }

  function ListingsOver(stores: nat -> Store, user: nat, goalId: nat): nat -> seq<Entry> {
    (k: nat) => NewestFirst(S.Filter(EntriesOn(user, goalId), stores(k).entries))
  }

  /** The goal is the user's, no two entries on it tie, and the row stands on it at its place. */
  ghost predicate HoldsRow(s: Store, bound: nat, user: nat, goalId: nat, e: Entry) {
    && Structural(s, bound) && OwnsGoal(s, user, goalId) && NoTiesOn(s, user, goalId)
    && exists x :: x in s.entries && LiesOn(x, user, goalId) && SameRow(e, x)
  }

  lemma HeldRowStands(s: Store, bound: nat, user: nat, goalId: nat, e: Entry, rows: seq<Entry>)
    requires HoldsRow(s, bound, user, goalId, e) && rows == NewestFirst(S.Filter(EntriesOn(user, goalId), s.entries))
    ensures StrictListing(rows) && StandsIn(e, rows)
  {
    OwnRowsAreListed(s, user, goalId, bound, rows);
    forall i, j | 0 <= i < j < |rows| ensures Newer(rows[i], rows[j]) && !Tied(rows[i], rows[j]) {
      assert StrictlyNewer(rows[i], rows[j]);
    }
    var x :| x in s.entries && LiesOn(x, user, goalId) && SameRow(e, x);
    assert x in rows;
    var i :| 0 <= i < |rows| && rows[i] == x;
  }

  ghost predicate AlwaysHolds(stores: nat -> Store, bounds: nat -> nat, user: nat, goalId: nat, e: Entry) {
    forall k: nat :: HoldsRow(stores(k), bounds(k), user, goalId, e)
  }

  lemma OneListCall(s: Store, user: nat, goalId: nat, limit: nat, cursor: Option<nat>, env: Env)
    requires OwnsGoal(s, user, goalId)
    ensures Step(s, user, ListEntries(goalId, limit, cursor), env).reply
         == PageOf(NewestFirst(S.Filter(EntriesOn(user, goalId), s.entries)), limit, cursor)
  {
    ListingNeedsTheOwnGoal(s, user, goalId, limit, cursor, env);
  }

  lemma ListCallsAreQueries(stores: nat -> Store, user: nat, goalId: nat, limit: nat, env: Env)
    requires forall k: nat :: OwnsGoal(stores(k), user, goalId)
    ensures forall k: nat, c: Option<nat> :: ListCallsOver(stores, user, goalId, limit, env)(k, c)
                                             == Queries(ListingsOver(stores, user, goalId), limit)(k, c)
  {
    forall k: nat, c: Option<nat>
      ensures ListCallsOver(stores, user, goalId, limit, env)(k, c)
           == Queries(ListingsOver(stores, user, goalId), limit)(k, c)
    {
      OneListCall(stores(k), user, goalId, limit, c, env);
    }
  }

  lemma RowStandsInEveryListing(stores: nat -> Store, bounds: nat -> nat, user: nat, goalId: nat, e: Entry)
    requires AlwaysHolds(stores, bounds, user, goalId, e)
    ensures StandsFrom(ListingsOver(stores, user, goalId), e, 0)
  {
    forall k: nat
      ensures StrictListing(ListingsOver(stores, user, goalId)(k)) && StandsIn(e, ListingsOver(stores, user, goalId)(k))
    {
      HeldRowStands(stores(k), bounds(k), user, goalId, e, ListingsOver(stores, user, goalId)(k));
    }
  }

  /** So for the listing calls themselves, over a store that changes between them. */
  lemma {:induction false} StandingEntriesAreListedOnce(stores: nat -> Store, bounds: nat -> nat, user: nat,
                                                        goalId: nat, limit: nat, env: Env, pages: nat, e: Entry)
    requires limit >= 1 && AlwaysHolds(stores, bounds, user, goalId, e)
    requires CursorsStand(ListCallsOver(stores, user, goalId, limit, env), ListingsOver(stores, user, goalId),
                          None, 0, pages)
    ensures var walk := Walk(ListCallsOver(stores, user, goalId, limit, env), None, 0, pages);
            walk.Some? ==> TimesShown(e.id, walk.value) == 1
  {
    var ask, orders := ListCallsOver(stores, user, goalId, limit, env), ListingsOver(stores, user, goalId);
    forall k: nat ensures OwnsGoal(stores(k), user, goalId) {
      assert HoldsRow(stores(k), bounds(k), user, goalId, e);
    }
    ListCallsAreQueries(stores, user, goalId, limit, env);
    RowStandsInEveryListing(stores, bounds, user, goalId, e);
    SameAnswersSameCursors(ask, Queries(orders, limit), orders, None, 0, pages);
    SameAnswersSameWalk(ask, Queries(orders, limit), None, 0, pages);
    StandingRowsAreShownOnce(orders, limit, pages, e);
  }

  lemma {:induction false} SameAnswersSameCursors(ask: (nat, Option<nat>) -> Reply, other: (nat, Option<nat>) -> Reply,
                                                  orders: nat -> seq<Entry>, cursor: Option<nat>, page: nat,
                                                  pages: nat)
    requires forall k: nat, c: Option<nat> :: ask(k, c) == other(k, c)
    ensures CursorsStand(ask, orders, cursor, page, pages) <==> CursorsStand(other, orders, cursor, page, pages)
    decreases pages
  {
    if pages > 0 && ask(page, cursor).EntryPage? && ask(page, cursor).nextCursor.Some? {
      SameAnswersSameCursors(ask, other, orders, ask(page, cursor).nextCursor, page + 1, pages - 1);
    }
  }

  /** Without that, rows are lost: if the first page's last row moves behind all others, the walk ends with
      that page. */
  lemma {:induction false} MovedCursorEndsTheWalk(rows: seq<Entry>, moved: Entry, orders: nat -> seq<Entry>, pages: nat)
    requires S.UniqueBy(EntryKey(), rows) && |rows| >= 2 && moved.id == rows[0].id && pages >= 2
    requires orders(0) == rows && orders(1) == rows[1..] + [moved]
    ensures Walk(Queries(orders, 1), None, 0, pages) == Some([rows[0]])
  {
    PageAt(rows, 1, 0);
    assert rows[0..1] == [rows[0]];
    var after := rows[1..] + [moved];
    forall i, j | 0 <= i < j < |after| ensures EntryKey()(after[i]) != EntryKey()(after[j]) {
      assert EntryKey()(rows[0]) != EntryKey()(rows[i + 1]);
      assert j + 1 < |rows| ==> EntryKey()(rows[i + 1]) != EntryKey()(rows[j + 1]);
    }
    PageAt(after, 1, |after|);
    assert CursorAt(after, |after|) == CursorAt(rows, 1) && after[|after|..] == [];
    WalkOn(Queries(orders, 1), None, 0, pages, [rows[0]], CursorAt(rows, 1));
    assert Walk(Queries(orders, 1), CursorAt(rows, 1), 1, pages - 1) == Some([]);
    assert [rows[0]] + [] == [rows[0]];
  }
}
