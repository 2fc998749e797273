/** The web client's session: requests, one shared refresh, login, logout and page loads.
    One task of the page, with the continuations it wakes, is one step. */
module WebClient {
  import opened Decimals

  datatype Session = Session(access: nat, refresh: nat)

  /** Who awaits a refresh: a request that got a 401, or the restore at page load. */
  datatype Waiter = Request(id: nat) | Restore

  /** A request under way: whether it is the retry, and the access token it carries. */
  datatype Fetch = Fetch(retry: bool, auth: Option<nat>)

  /** The module variables of the client, the page's pending work, and what outlives the page.
      A refresh call is named by its place in `sent`, the refresh tokens posted so far. */
  datatype Client = Client(
    accessToken: Option<nat>,
    refreshToken: Option<nat>,
    refreshInFlight: Option<nat>,
    calls: map<nat, seq<Waiter>>,
    pending: map<nat, Fetch>,
    stored: Option<nat>,
    sent: seq<nat>)

  /** `storage` says whether the browser lets the page use its storage in that step. */
  datatype Event =
    | Start(id: nat)
    | Response(id: nat, unauthorized: bool, storage: bool)
    | RefreshReply(call: nat, result: Option<Session>, storage: bool)
    | Login(session: Session, storage: bool)
    | Logout(storage: bool)
    | Reload(storage: bool)

  // ----- One step -----

  function Holding(s: Client, session: Session): Client {
    s.(accessToken := Some(session.access), refreshToken := Some(session.refresh))
  }

  function LoggedIn(s: Client, session: Session, storage: bool): Client {
    Holding(s, session).(stored := if storage then Some(session.refresh) else s.stored)
  }

  function Cleared(s: Client, storage: bool): Client {
    s.(accessToken := None, refreshToken := None, stored := if storage then None else s.stored)
  }

  function Fetched(s: Client, id: nat, retry: bool): Client {
    s.(pending := s.pending[id := Fetch(retry, s.accessToken)])
  }

  function Resumed(s: Client, w: Waiter, result: Option<Session>, storage: bool): Client {
    match (w, result)
    case (Request(id), Some(_)) => Fetched(s, id, true)
    case (Restore, Some(session)) => LoggedIn(s, session, storage)
    case (_, None) => Cleared(s, storage)
  }

  function ResumedAll(s: Client, ws: seq<Waiter>, result: Option<Session>, storage: bool): Client
    decreases |ws|
  {
    if ws == [] then s
    else Resumed(ResumedAll(s, ws[..|ws| - 1], result, storage), ws[|ws| - 1], result, storage)
  }

  function WaitersOf(s: Client, call: nat): seq<Waiter> {
    if call in s.calls then s.calls[call] else []
  }

  /** Join the refresh in flight, or post the refresh token; with no token the attempt fails at once. */
  function Attempted(s: Client, w: Waiter, storage: bool): Client {
    if s.refreshInFlight.Some? then
      var call := s.refreshInFlight.value;
      s.(calls := s.calls[call := WaitersOf(s, call) + [w]])
    else if s.refreshToken.None? then Resumed(s, w, None, storage)
    else
      s.(refreshInFlight := Some(|s.sent|), calls := s.calls[|s.sent| := [w]], sent := s.sent + [s.refreshToken.value])
  }

  function Settled(s: Client, call: nat, result: Option<Session>, storage: bool): Client
    requires call in s.calls
  {
    var held := if result.Some? then Holding(s, result.value) else s;
    ResumedAll(held.(refreshInFlight := None, calls := s.calls - {call}), s.calls[call], result, storage)
  }

  function Responded(s: Client, id: nat, unauthorized: bool, storage: bool): Client
    requires id in s.pending
  {
    var t := s.(pending := s.pending - {id});
    if unauthorized && !s.pending[id].retry then Attempted(t, Request(id), storage) else t
  }

  function FreshPage(s: Client): Client {
    Client(None, None, None, map[], map[], s.stored, s.sent)
  }

  function Booted(s: Client, storage: bool): Client {
    var page := FreshPage(s);
    if storage && s.stored.Some? then Attempted(page.(refreshToken := s.stored), Restore, storage) else page
  }

  function Next(s: Client, e: Event): Client {
    match e
    case Start(id) => Fetched(s, id, false)
    case Response(id, unauthorized, storage) =>
      if id in s.pending then Responded(s, id, unauthorized, storage) else s
    case RefreshReply(call, result, storage) => if call in s.calls then Settled(s, call, result, storage) else s
    case Login(session, storage) => LoggedIn(s, session, storage)
    case Logout(storage) => Cleared(s, storage)
    case Reload(storage) => Booted(s, storage)
  }

  function Run(s: Client, events: seq<Event>): Client
    decreases |events|
  {
    if events == [] then s else Run(Next(s, events[0]), events[1..])
  }

  // ----- The client object -----

  class ApiClient {
    var accessToken: Option<nat>
    var refreshToken: Option<nat>
    var refreshInFlight: Option<nat>
    var calls: map<nat, seq<Waiter>>
    var pending: map<nat, Fetch>
    var stored: Option<nat>
    var sent: seq<nat>

    ghost function State(): Client
      reads this
    {
      Client(accessToken, refreshToken, refreshInFlight, calls, pending, stored, sent)
    }

    /** A page load: memory starts empty, the stored token is tried once. */
    constructor Boot(stored: Option<nat>, sent: seq<nat>, storage: bool)
      ensures State() == Booted(Client(None, None, None, map[], map[], stored, sent), storage)
    {
      accessToken, refreshToken, refreshInFlight := None, None, None;
      calls, pending := map[], map[];
      this.stored, this.sent := stored, sent;
      new;
      if storage && stored.Some? {
        SetRefreshTokenOnly(stored);
        AttemptRefresh(Restore, storage);
      }
    }

    method SetTokens(session: Option<Session>)
      modifies this
      ensures State() == (if session.Some? then Holding(old(State()), session.value)
                          else old(State()).(accessToken := None, refreshToken := None))
    {
      accessToken := if session.Some? then Some(session.value.access) else None;
      refreshToken := if session.Some? then Some(session.value.refresh) else None;
    }

    method SetRefreshTokenOnly(token: Option<nat>)
      modifies this
      ensures State() == old(State()).(accessToken := None, refreshToken := token)
    {
      accessToken := None;
      refreshToken := token;
    }

    /** Posts the held refresh token, if any. */
    method PerformRefresh() returns (posted: bool)
      modifies this
      ensures posted == old(refreshToken).Some?
      ensures State() == if posted then old(State()).(sent := old(sent) + [old(refreshToken).value]) else old(State())
    {
      if refreshToken.None? {
        return false;
      }
      sent := sent + [refreshToken.value];
      posted := true;
    }

    method AttemptRefresh(w: Waiter, storage: bool)
      modifies this
      ensures State() == Attempted(old(State()), w, storage)
    {
      if refreshInFlight.None? {
        var call := |sent|;
        var posted := PerformRefresh();
        if !posted {
          Resume(w, None, storage);
          return;
        }
        refreshInFlight := Some(call);
        calls := calls[call := [w]];
      } else {
        var call := refreshInFlight.value;
        calls := calls[call := (if call in calls then calls[call] else []) + [w]];
      }
    }

    method Send(id: nat, retry: bool)
      modifies this
      ensures State() == Fetched(old(State()), id, retry)
    {
      pending := pending[id := Fetch(retry, accessToken)];
    }

    /** The part of a request, or of the restore, that follows its awaited refresh. */
    method Resume(w: Waiter, result: Option<Session>, storage: bool)
      modifies this
      ensures State() == Resumed(old(State()), w, result, storage)
    {
      if result.None? {
        ClearLocalSession(storage);
      } else if w.Request? {
        Send(w.id, true);
      } else {
        Login(result.value, storage);
      }
    }

    method OnResponse(id: nat, unauthorized: bool, storage: bool)
      requires id in pending
      modifies this
      ensures State() == Responded(old(State()), id, unauthorized, storage)
    {
      var retry := pending[id].retry;
      pending := pending - {id};
      if unauthorized && !retry {
        AttemptRefresh(Request(id), storage);
      }
    }

    /** A refresh call settles: tokens first, then the shared promise, then those awaiting it in order. */
    method OnRefreshReply(call: nat, result: Option<Session>, storage: bool)
      requires call in calls
      modifies this
      ensures State() == Settled(old(State()), call, result, storage)
    {
      if result.Some? {
        SetTokens(result);
      }
      var waiters := calls[call];
      refreshInFlight := None;
      calls := calls - {call};
      ghost var woken := State();
      for i := 0 to |waiters|
        invariant State() == ResumedAll(woken, waiters[..i], result, storage)
      {
        assert waiters[..i + 1][..i] == waiters[..i];
        Resume(waiters[i], result, storage);
      }
      assert waiters[..|waiters|] == waiters;
    }

    method Login(session: Session, storage: bool)
      modifies this
      ensures State() == LoggedIn(old(State()), session, storage)
    {
      SetTokens(Some(session));
      if storage {
        stored := Some(session.refresh);
      }
    }

    method ClearLocalSession(storage: bool)
      modifies this
      ensures State() == Cleared(old(State()), storage)
    {
      SetTokens(None);
      if storage {
        stored := None;
      }
    }
  }

  // ----- Single flight, and no token sent twice -----

  ghost predicate NoRepeats(tokens: seq<nat>) {
    forall i, j :: 0 <= i < j < |tokens| ==> tokens[i] != tokens[j]
  }

  /** The open refresh calls are exactly the shared one, and somebody awaits it. */
  ghost predicate SingleFlight(s: Client) {
    && s.calls.Keys == (if s.refreshInFlight.Some? then {s.refreshInFlight.value} else {})
    && (s.refreshInFlight.Some? ==>
          s.refreshInFlight.value == |s.sent| - 1 && WaitersOf(s, s.refreshInFlight.value) != [])
  }

  /** A token already sent is held only while its call is open. */
  ghost predicate HeldTokenIsUnsent(s: Client) {
    s.refreshToken.Some? && s.refreshToken.value in s.sent ==>
      s.refreshInFlight.Some? && s.sent[|s.sent| - 1] == s.refreshToken.value
  }

  ghost predicate PageInv(s: Client) {
    SingleFlight(s) && HeldTokenIsUnsent(s)
  }

  /** The server never hands out a token that was already sent back to it. */
  ghost predicate FreshTo(s: Client, e: Event) {
    && (e.Login? ==> e.session.refresh !in s.sent)
    && (e.RefreshReply? && e.result.Some? ==> e.result.value.refresh !in s.sent)
  }

  ghost predicate FreshRun(s: Client, events: seq<Event>)
    decreases |events|
  {
    events == [] || (FreshTo(s, events[0]) && FreshRun(Next(s, events[0]), events[1..]))
  }

  /** What waking touches: retries are fetched, and the tokens become the session's or nothing. */
  lemma {:induction false} ResumedAllFrame(s: Client, ws: seq<Waiter>, result: Option<Session>, storage: bool)
    requires result.Some? ==> s.refreshToken == Some(result.value.refresh)
    ensures var t := ResumedAll(s, ws, result, storage);
            && t.sent == s.sent && t.calls == s.calls && t.refreshInFlight == s.refreshInFlight
            && (result.Some? ==> t.refreshToken == s.refreshToken)
            && (result.None? ==> t.pending == s.pending)
            && (result.None? && ws != [] ==> t.refreshToken.None? && t.accessToken.None?)
    decreases |ws|
  {
    if ws != [] {
      ResumedAllFrame(s, ws[..|ws| - 1], result, storage);
    }
  }

  lemma AttemptKeepsPage(s: Client, w: Waiter, storage: bool)
    requires PageInv(s)
    ensures PageInv(Attempted(s, w, storage))
    ensures var t := Attempted(s, w, storage);
            t.sent == s.sent
            || (s.refreshToken.Some? && s.refreshToken.value !in s.sent && t.sent == s.sent + [s.refreshToken.value])
  {
    var t := Attempted(s, w, storage);
    if s.refreshInFlight.None? && s.refreshToken.Some? {
      assert s.refreshToken.value !in s.sent;
      assert t.calls.Keys == {|s.sent|};
    }
  }

  lemma SettlingKeepsPage(s: Client, call: nat, result: Option<Session>, storage: bool)
    requires PageInv(s) && call in s.calls
    requires result.Some? ==> result.value.refresh !in s.sent
    ensures PageInv(Settled(s, call, result, storage)) && Settled(s, call, result, storage).sent == s.sent
  {
    var held := if result.Some? then Holding(s, result.value) else s;
    ResumedAllFrame(held.(refreshInFlight := None, calls := s.calls - {call}), s.calls[call], result, storage);
  }

  lemma PageStepIsSafe(s: Client, e: Event)
    requires PageInv(s) && FreshTo(s, e) && !e.Reload?
    ensures PageInv(Next(s, e)) && (NoRepeats(s.sent) ==> NoRepeats(Next(s, e).sent))
  {
    match e
    case Response(id, unauthorized, storage) =>
      if id in s.pending {
        AttemptKeepsPage(s.(pending := s.pending - {id}), Request(id), storage);
      }
    case RefreshReply(call, result, storage) =>
      if call in s.calls {
        SettlingKeepsPage(s, call, result, storage);
      }
    case _ =>
  }

  /** A page load is safe for the token it finds in storage if that was not sent before. */
  predicate BootsUnsent(s: Client, e: Event) {
    e.Reload? && e.storage && s.stored.Some? ==> s.stored.value !in s.sent
  }

  lemma BootKeepsPage(s: Client, e: Event)
    requires e.Reload?
    ensures SingleFlight(Next(s, e)) && HeldTokenIsUnsent(Next(s, e))
    ensures var t := Next(s, e);
            t.sent == s.sent || (e.storage && s.stored.Some? && t.sent == s.sent + [s.stored.value])
    ensures BootsUnsent(s, e) && NoRepeats(s.sent) ==> NoRepeats(Next(s, e).sent)
    ensures !BootsUnsent(s, e) ==> !NoRepeats(Next(s, e).sent)
  {
    var t := Next(s, e);
    if e.storage && s.stored.Some? {
      assert t.calls.Keys == {|s.sent|};
      assert t.sent == s.sent + [s.stored.value];
      if s.stored.value in s.sent {
        var i :| 0 <= i < |s.sent| && s.sent[i] == s.stored.value;
        assert t.sent[i] == t.sent[|s.sent|];
      }
    }
  }

  /** Every load of the page along the run finds no stored token, or one not sent yet. */
  ghost predicate EveryBootUnsent(s: Client, events: seq<Event>)
    decreases |events|
  {
    events == [] || (BootsUnsent(s, events[0]) && EveryBootUnsent(Next(s, events[0]), events[1..]))
  }

  lemma StepKeepsPage(s: Client, e: Event)
    requires PageInv(s) && FreshTo(s, e)
    ensures PageInv(Next(s, e))
    ensures s.sent <= Next(s, e).sent
    ensures NoRepeats(s.sent) ==> (NoRepeats(Next(s, e).sent) <==> BootsUnsent(s, e))
  {
    if e.Reload? {
      BootKeepsPage(s, e);
    } else {
      PageStepIsSafe(s, e);
      if e.Response? && e.id in s.pending {
        AttemptKeepsPage(s.(pending := s.pending - {e.id}), Request(e.id), e.storage);
      } else if e.RefreshReply? && e.call in s.calls {
        SettlingKeepsPage(s, e.call, e.result, e.storage);
      }
    }
  }

  /** In every run, whatever the interleaving, at most one refresh call is open at a time. */
  lemma {:induction false} AtMostOneRefreshIsOpen(s: Client, events: seq<Event>)
    requires PageInv(s) && FreshRun(s, events)
    ensures PageInv(Run(s, events)) && |Run(s, events).calls| <= 1
    ensures s.sent <= Run(s, events).sent
    decreases |events|
  {
    if events != [] {
      StepKeepsPage(s, events[0]);
      AtMostOneRefreshIsOpen(Next(s, events[0]), events[1..]);
    } else {
      assert |s.calls| == |s.calls.Keys|;
    }
  }

  /** No refresh token is sent twice exactly when every page load finds an unsent one in storage. */
  lemma {:induction false} TokensAreSentOnceIff(s: Client, events: seq<Event>)
    requires PageInv(s) && NoRepeats(s.sent) && FreshRun(s, events)
    ensures NoRepeats(Run(s, events).sent) <==> EveryBootUnsent(s, events)
    decreases |events|
  {
    if events != [] {
      var t := Next(s, events[0]);
      StepKeepsPage(s, events[0]);
      if BootsUnsent(s, events[0]) {
        TokensAreSentOnceIff(t, events[1..]);
      } else {
        AtMostOneRefreshIsOpen(t, events[1..]);
        var i, j :| 0 <= i < j < |t.sent| && t.sent[i] == t.sent[j];
        assert Run(t, events[1..]).sent[i] == Run(t, events[1..]).sent[j];
      }
    }
  }

  ghost predicate OnePage(events: seq<Event>) {
    forall e :: e in events ==> !e.Reload?
  }

  /** Within one page life no refresh token is ever sent twice. */
  lemma {:induction false} OnePageSendsEachTokenOnce(s: Client, events: seq<Event>)
    requires PageInv(s) && NoRepeats(s.sent) && FreshRun(s, events) && OnePage(events)
    ensures NoRepeats(Run(s, events).sent)
    decreases |events|
  {
    if events != [] {
      assert events[0] in events;
      StepKeepsPage(s, events[0]);
      OnePageSendsEachTokenOnce(Next(s, events[0]), events[1..]);
    }
  }

  lemma RunStep(s: Client, e: Event, rest: seq<Event>)
    ensures Run(s, [e] + rest) == Run(Next(s, e), rest)
    ensures FreshRun(s, [e] + rest) <==> FreshTo(s, e) && FreshRun(Next(s, e), rest)
  {
    assert ([e] + rest)[1..] == rest;
  }

  lemma FirstRefreshIsPosted(s: Client, token: nat)
    requires PageInv(s) && s.sent == [] && s.refreshInFlight.None? && s.refreshToken == Some(token)
    ensures var t := Next(Next(s, Start(0)), Response(0, true, true));
            t.sent == [token] && t.calls == map[0 := [Request(0)]] && t.stored == s.stored
  {
  }

  lemma ReplyToOneWaiter(s: Client, session: Session)
    requires s.calls == map[0 := [Request(0)]]
    ensures var t := Next(s, RefreshReply(0, Some(session), true)); t.sent == s.sent && t.stored == s.stored
  {
    assert [Request(0)][..0] == [];
  }

  /** A page holding a token from login refreshes in memory and reloads. */
  lemma RefreshThenReload(s: Client, first: nat, second: nat) returns (events: seq<Event>)
    requires PageInv(s) && s.sent == [] && s.refreshInFlight.None? && first != second
    requires s.refreshToken == Some(first) && s.stored == Some(first)
    ensures FreshRun(s, events) && Run(s, events).sent == [first, first]
  {
    var session := Session(0, second);
    var e1, e2, e3, e4 := Start(0), Response(0, true, true), RefreshReply(0, Some(session), true), Reload(true);
    var s1 := Next(s, e1);
    var s2 := Next(s1, e2);
    FirstRefreshIsPosted(s, first);
    var s3 := Next(s2, e3);
    ReplyToOneWaiter(s2, session);
    assert Next(s3, e4).sent == s3.sent + [first];
    events := [e1] + ([e2] + ([e3] + ([e4] + [])));
    RunStep(s, e1, [e2] + ([e3] + ([e4] + [])));
    RunStep(s1, e2, [e3] + ([e4] + []));
    RunStep(s2, e3, [e4] + []);
    RunStep(s3, e4, []);
  }

  /** A refresh that happened in memory is not stored, so the next page load sends the old token again. */
  lemma ReloadAfterRefreshResends() returns (s: Client, events: seq<Event>)
    ensures PageInv(s) && NoRepeats(s.sent) && FreshRun(s, events)
    ensures !NoRepeats(Run(s, events).sent)
  {
    s := Next(Client(None, None, None, map[], map[], None, []), Login(Session(0, 1), true));
    events := RefreshThenReload(s, 1, 2);
    assert Run(s, events).sent[0] == Run(s, events).sent[1];
  }

  // ----- Requests that waited -----

  /** Woken requests are retried with the session's access token, in whatever order they wake; no other request
      moves. */
  lemma {:induction false} ResumedAllRetries(s: Client, ws: seq<Waiter>, session: Session, storage: bool, id: nat)
    requires s.accessToken == Some(session.access)
    ensures var t := ResumedAll(s, ws, Some(session), storage);
            && t.accessToken == s.accessToken
            && (Request(id) in ws ==> id in t.pending && t.pending[id] == Fetch(true, Some(session.access)))
            && (Request(id) !in ws ==> (id in t.pending <==> id in s.pending)
                                       && (id in s.pending ==> t.pending[id] == s.pending[id]))
    decreases |ws|
  {
    if ws != [] {
      ResumedAllRetries(s, ws[..|ws| - 1], session, storage, id);
      assert ws == ws[..|ws| - 1] + [ws[|ws| - 1]];
    }
  }

  /** Waking leaves the session's tokens held; only a restore at page load stores its refresh token. */
  lemma {:induction false} ResumedAllHolds(s: Client, ws: seq<Waiter>, session: Session, storage: bool)
    requires s.accessToken == Some(session.access) && s.refreshToken == Some(session.refresh)
    ensures var t := ResumedAll(s, ws, Some(session), storage);
            && t.accessToken == s.accessToken && t.refreshToken == s.refreshToken
            && t.stored == if storage && Restore in ws then Some(session.refresh) else s.stored
    decreases |ws|
  {
    if ws != [] {
      ResumedAllHolds(s, ws[..|ws| - 1], session, storage);
      assert ws == ws[..|ws| - 1] + [ws[|ws| - 1]];
    }
  }

  /** A refresh that succeeds holds the new session; it is stored only if the restore at page load awaited it. */
  lemma RefreshHoldsTheSession(s: Client, call: nat, session: Session, storage: bool)
    requires call in s.calls
    ensures var t := Next(s, RefreshReply(call, Some(session), storage));
            && t.accessToken == Some(session.access) && t.refreshToken == Some(session.refresh)
            && t.stored == if storage && Restore in s.calls[call] then Some(session.refresh) else s.stored
  {
    ResumedAllHolds(Holding(s, session).(refreshInFlight := None, calls := s.calls - {call}), s.calls[call], session,
                    storage);
  }

  /** A refresh that succeeds retries exactly the requests that awaited it, each once and with the new access token;
      one that fails retries none and leaves no token behind. */
  lemma RefreshWakesExactlyItsWaiters(s: Client, call: nat, result: Option<Session>, storage: bool, id: nat)
    requires PageInv(s) && call in s.calls
    ensures var t := Settled(s, call, result, storage);
            && t.calls == map[] && t.refreshInFlight.None?
            && (result.None? ==> SignedOut(t) && t.pending == s.pending)
            && (result.Some? && Request(id) in s.calls[call] ==>
                  id in t.pending && t.pending[id] == Fetch(true, Some(result.value.access)))
            && (result.Some? && Request(id) !in s.calls[call] ==>
                  (id in t.pending <==> id in s.pending) && (id in s.pending ==> t.pending[id] == s.pending[id]))
  {
    var held := if result.Some? then Holding(s, result.value) else s;
    var woken := held.(refreshInFlight := None, calls := s.calls - {call});
    ResumedAllFrame(woken, s.calls[call], result, storage);
    assert woken.calls == map[];
    if result.Some? {
      ResumedAllRetries(woken, s.calls[call], result.value, storage, id);
    }
  }

  /** The request awaits the call. */
  predicate Awaits(s: Client, id: nat, call: nat) {
    call in s.calls && Request(id) in s.calls[call]
  }

  /** A request that met its first 401 awaits the shared refresh, behind everyone who awaited it already: the open one,
      or else one opened with the token held. Only without either does it end, and then the session with it. */
  lemma UnauthorizedAwaitsTheRefresh(s: Client, id: nat, storage: bool)
    requires PageInv(s) && id in s.pending && !s.pending[id].retry
    ensures var t := Next(s, Response(id, true, storage));
            && id !in t.pending && (forall k :: k != id ==> (k in t.pending <==> k in s.pending))
            && (forall k :: k in t.pending && k in s.pending ==> t.pending[k] == s.pending[k])
            && (s.refreshInFlight.Some? || s.refreshToken.Some? ==>
                  t.accessToken == s.accessToken && t.refreshToken == s.refreshToken && t.stored == s.stored)
            && (s.refreshInFlight.Some? ==>
                  && t.refreshInFlight == s.refreshInFlight && t.sent == s.sent
                  && t.calls == map[s.refreshInFlight.value := s.calls[s.refreshInFlight.value] + [Request(id)]])
            && (s.refreshInFlight.None? && s.refreshToken.Some? ==>
                  && t.refreshInFlight == Some(|s.sent|) && t.sent == s.sent + [s.refreshToken.value]
                  && t.calls == map[|s.sent| := [Request(id)]])
            && (s.refreshInFlight.None? && s.refreshToken.None? ==>
                  SignedOut(t) && t.calls == map[] && (storage ==> t.stored.None?))
  {
    if s.refreshInFlight.None? {
      assert s.calls == map[];
    }
  }

  /** The step neither settles the call nor loads the page anew. */
  predicate LeavesOpen(e: Event, call: nat) {
    !e.Reload? && (e.RefreshReply? ==> e.call != call)
  }

  lemma StepKeepsAwaiting(s: Client, e: Event, id: nat, call: nat)
    requires PageInv(s) && Awaits(s, id, call) && LeavesOpen(e, call)
    ensures Awaits(Next(s, e), id, call) && s.calls[call] <= Next(s, e).calls[call]
  {
    assert s.refreshInFlight == Some(call);
  }

  lemma {:induction false} RunKeepsAwaiting(s: Client, events: seq<Event>, id: nat, call: nat)
    requires PageInv(s) && FreshRun(s, events) && Awaits(s, id, call)
    requires forall e :: e in events ==> LeavesOpen(e, call)
    ensures PageInv(Run(s, events)) && Awaits(Run(s, events), id, call)
    decreases |events|
  {
    if events != [] {
      assert events[0] in events;
      StepKeepsAwaiting(s, events[0], id, call);
      StepKeepsPage(s, events[0]);
      RunKeepsAwaiting(Next(s, events[0]), events[1..], id, call);
    }
  }

  /** In every run: a request that met its first 401 with a refresh open or a token held awaits that refresh until its
      reply or a page load, however many others join and whoever logs in or out in between. The reply then retries it
      with the new access token, or ends the session. */
  lemma UnauthorizedIsServed(s: Client, id: nat, storage: bool, events: seq<Event>, result: Option<Session>,
                             later: bool)
    requires PageInv(s) && id in s.pending && !s.pending[id].retry
    requires s.refreshInFlight.Some? || s.refreshToken.Some?
    requires FreshRun(Next(s, Response(id, true, storage)), events)
    requires forall e :: e in events ==> LeavesOpen(e, s.refreshInFlight.GetOr(|s.sent|))
    ensures var call := s.refreshInFlight.GetOr(|s.sent|);
            var t := Run(Next(s, Response(id, true, storage)), events);
            var after := Next(t, RefreshReply(call, result, later));
            && Awaits(t, id, call)
            && (result.Some? ==>
                  id in after.pending && after.pending[id] == Fetch(true, Some(result.value.access)))
            && (result.None? ==> SignedOut(after) && (later ==> after.stored.None?))
  {
    var call, t := s.refreshInFlight.GetOr(|s.sent|), Next(s, Response(id, true, storage));
    UnauthorizedAwaitsTheRefresh(s, id, storage);
    AttemptKeepsPage(s.(pending := s.pending - {id}), Request(id), storage);
    RunKeepsAwaiting(t, events, id, call);
    var u := Run(t, events);
    RefreshWakesExactlyItsWaiters(u, call, result, later, id);
    if result.None? && later {
      FailureClearsStorage(u.(refreshInFlight := None, calls := u.calls - {call}), u.calls[call]);
    }
  }

  lemma {:induction false} FailureClearsStorage(s: Client, ws: seq<Waiter>)
    requires ws != []
    ensures ResumedAll(s, ws, None, true).stored.None?
  {
  }

  /** Any other answer ends its request and nothing else; so a retry is never retried again. */
  lemma OtherAnswersEndTheRequest(s: Client, id: nat, unauthorized: bool, storage: bool)
    requires id in s.pending && (unauthorized ==> s.pending[id].retry)
    ensures Next(s, Response(id, unauthorized, storage)) == s.(pending := s.pending - {id})
  {
  }

  // ----- What outlives the page -----

  /** A login that could be stored is restored by the next page load: its token is posted, and the reply signs in and is
      stored in its turn. A request of that page carries the restored access token. */
  lemma StoredLoginIsRestored(s: Client, session: Session, next: Session, id: nat)
    ensures var page := Next(Next(s, Login(session, true)), Reload(true));
            var restored := Next(page, RefreshReply(|s.sent|, Some(next), true));
            && page.sent == s.sent + [session.refresh] && page.accessToken.None? && page.pending == map[]
            && restored.accessToken == Some(next.access) && restored.refreshToken == Some(next.refresh)
            && restored.stored == Some(next.refresh) && restored.sent == page.sent
            && Next(restored, Start(id)).pending == map[id := Fetch(false, Some(next.access))]
  {
    var page := Next(Next(s, Login(session, true)), Reload(true));
    assert page.calls == map[|s.sent| := [Restore]];
    assert [Restore][..0] == [];
  }

  /** A login whose storage write was refused leaves the stored token as it was. A logout that could be stored leaves
      nothing for the next page load to restore, and drops no request under way. */
  lemma LoggedOutPageRestoresNothing(s: Client)
    ensures var out := Next(s, Logout(true));
            var page := Next(out, Reload(true));
            && SignedOut(out) && out.stored.None? && out.pending == s.pending && out.calls == s.calls
            && SignedOut(page) && page.sent == s.sent && page.calls == map[] && page.pending == map[]
    ensures forall session :: Next(s, Login(session, false)).stored == s.stored
    ensures Next(s, Logout(false)).stored == s.stored && Next(s, Reload(false)).sent == s.sent
  {
  }

  // ----- Logging out -----

  ghost predicate NoNewLogin(events: seq<Event>) {
    forall e :: e in events ==> !e.Login? && !e.Reload?
  }

  ghost predicate SignedOut(s: Client) {
    s.accessToken.None? && s.refreshToken.None?
  }

  lemma IdleStaysSignedOut(s: Client, e: Event)
    requires SignedOut(s) && s.calls == map[] && s.refreshInFlight.None? && !e.Login? && !e.Reload?
    ensures SignedOut(Next(s, e)) && Next(s, e).calls == map[] && Next(s, e).refreshInFlight.None?
  {
  }

  lemma {:induction false} IdleRunStaysSignedOut(s: Client, events: seq<Event>)
    requires SignedOut(s) && s.calls == map[] && s.refreshInFlight.None? && NoNewLogin(events)
    ensures SignedOut(Run(s, events))
    decreases |events|
  {
    if events != [] {
      assert events[0] in events;
      IdleStaysSignedOut(s, events[0]);
      IdleRunStaysSignedOut(Next(s, events[0]), events[1..]);
    }
  }

  /** Some token that was not sent yet. */
  function Unsent(tokens: seq<nat>): (token: nat)
    ensures forall i :: 0 <= i < |tokens| ==> tokens[i] < token
  {
    if tokens == [] then 0
    else
      var rest, last := Unsent(tokens[..|tokens| - 1]), tokens[|tokens| - 1];
      if last < rest then rest else last + 1
  }

  /** A logout lasts until the next login or page load, whatever else happens,
      exactly when no refresh is open at that moment. */
  lemma LogoutLastsIffNoRefreshIsOpen(s: Client, storage: bool)
    requires PageInv(s)
    ensures s.refreshInFlight.None? <==>
              forall events :: NoNewLogin(events) && FreshRun(Next(s, Logout(storage)), events)
                  ==> SignedOut(Run(Next(s, Logout(storage)), events))
  {
    var t := Next(s, Logout(storage));
    if s.refreshInFlight.None? {
      assert t.calls == map[];
      forall events | NoNewLogin(events) ensures SignedOut(Run(t, events)) {
        IdleRunStaysSignedOut(t, events);
      }
    } else {
      var call, session := s.refreshInFlight.value, Session(0, Unsent(s.sent));
      var e := RefreshReply(call, Some(session), storage);
      var woken := Holding(t, session).(refreshInFlight := None, calls := t.calls - {call});
      ResumedAllFrame(woken, t.calls[call], Some(session), storage);
      RunStep(t, e, []);
      assert NoNewLogin([e] + []);
      assert !SignedOut(Run(t, [e] + []));
    }
  }
}
