/** Client and server together: refresh messages may be delayed, lost or answered late, the server's read, revocation
    and issue are separate steps, and others, second devices and tabs of the same user included, may add rows, change
    foreign ones and revoke any of this client's at any time. */
module RefreshSystem {
  import opened Decimals
  import opened WebClient
  import Tokens

  /** What became of a posted refresh token at the server: checked, its row revoked, the next row issued. */
  datatype Phase = Checked | Spent | Written | Refused(why: Tokens.RotateResult)

  /** Which reply carries a newly issued token. */
  datatype Carrier = LoginReply | RefreshReplyTo(call: nat)

  /** `mine` are the ids of the rows issued to this client, `transit` those whose reply has not arrived. Of the history,
      `cut` are the live rows of `mine` that others revoked, `swept` those that a report of reuse revoked, and `stale`
      the calls posted by a page load that found a token already sent. */
  datatype System = System(
    client: Client,
    user: nat,
    rows: Tokens.Table,
    mine: set<nat>,
    phase: map<nat, Phase>,
    transit: map<nat, Carrier>,
    cut: set<nat>,
    swept: set<nat>,
    stale: set<nat>)

  datatype Action =
    | Page(event: Event)
    | SignIn(seed: Tokens.Fresh)
    | Read(call: nat, verifiable: bool, now: int)
    | Spend(call: nat, now: int)
    | Issue(call: nat, seed: Tokens.Fresh)
    | Deliver(jti: nat, access: nat, storage: bool)
    | Others(rows: Tokens.Table)

  predicate Unrevoked(rows: Tokens.Table, jti: nat) {
    jti in rows && rows[jti].revokedAt.None?
  }

  function LiveOf(rows: Tokens.Table, ids: set<nat>): set<nat> {
    set j | j in ids && Unrevoked(rows, j)
  }

  /** The token posted in a call: the row's id and the secret the row was issued with. */
  function TokenOf(s: System, call: nat, verifiable: bool): Tokens.Presented
    requires call < |s.client.sent|
  {
    var jti := s.client.sent[call];
    if verifiable && jti in s.rows then Tokens.Payload(s.user, jti, s.rows[jti].secretHash) else Tokens.Unverifiable
  }

  function ReadStep(s: System, call: nat, verifiable: bool, now: int): System
    requires call < |s.client.sent|
  {
    var refusal := Tokens.Refusal(s.rows, TokenOf(s, call, verifiable), now);
    if refusal.None? then s.(phase := s.phase[call := Checked])
    else if refusal.value == Tokens.TokenReused then
      s.(phase := s.phase[call := Refused(Tokens.TokenReused)],
         rows := Tokens.WithAllRevoked(s.rows, s.rows[s.client.sent[call]].userId, now),
         swept := s.swept + LiveOf(s.rows, s.mine))
    else s.(phase := s.phase[call := Refused(refusal.value)])
  }

  function SpendStep(s: System, call: nat, now: int): System
    requires call < |s.client.sent| && s.client.sent[call] in s.rows
  {
    var jti := s.client.sent[call];
    s.(phase := s.phase[call := Spent], rows := s.rows[jti := s.rows[jti].(revokedAt := Some(now))])
  }

  function IssueStep(s: System, call: nat, seed: Tokens.Fresh): System {
    s.(phase := s.phase[call := Written],
       rows := Tokens.WithNewRow(s.rows, s.user, seed),
       mine := s.mine + {seed.jti},
       transit := s.transit[seed.jti := RefreshReplyTo(call)])
  }

  function Delivered(s: System, jti: nat, access: nat, storage: bool): System
    requires jti in s.transit
  {
    var session := Session(access, jti);
    var event := match s.transit[jti]
      case LoginReply => Login(session, storage)
      case RefreshReplyTo(call) => RefreshReply(call, Some(session), storage);
    s.(client := WebClient.Next(s.client, event), transit := s.transit - {jti})
  }

  /** Others may revoke a row of this client, but not change it otherwise. */
  predicate SameOrRevoked(before: Tokens.Row, after: Tokens.Row) {
    after == before || (before.revokedAt.None? && after == before.(revokedAt := after.revokedAt))
  }

  /** When an action can happen. A page event carries no session of its own: sessions come from deliveries. */
  predicate Enabled(s: System, a: Action) {
    match a
    case Page(event) => !event.Login? && (event.RefreshReply? ==> event.result.None?)
    case SignIn(seed) => seed.jti !in s.rows
    case Read(call, _, _) => call < |s.client.sent| && call !in s.phase
    case Spend(call, _) =>
      call < |s.client.sent| && s.client.sent[call] in s.rows && call in s.phase && s.phase[call].Checked?
    case Issue(call, seed) => call in s.phase && s.phase[call].Spent? && seed.jti !in s.rows
    case Deliver(jti, _, _) => jti in s.transit
    case Others(rows) => forall j :: j in s.mine && j in s.rows ==> j in rows && SameOrRevoked(s.rows[j], rows[j])
  }

  /** A page load that finds a token in storage that was sent before. */
  predicate StaleLoad(c: Client, e: Event) {
    !BootsUnsent(c, e)
  }

  function StaleAfter(s: System, e: Event): set<nat> {
    if StaleLoad(s.client, e) then s.stale + {|s.client.sent|} else s.stale
  }

  function Next(s: System, a: Action): System {
    if !Enabled(s, a) then s
    else match a
      case Page(event) => s.(client := WebClient.Next(s.client, event), stale := StaleAfter(s, event))
      case SignIn(seed) =>
        s.(rows := Tokens.WithNewRow(s.rows, s.user, seed),
           mine := s.mine + {seed.jti},
           transit := s.transit[seed.jti := LoginReply])
      case Read(call, verifiable, now) => ReadStep(s, call, verifiable, now)
      case Spend(call, now) => SpendStep(s, call, now)
      case Issue(call, seed) => IssueStep(s, call, seed)
      case Deliver(jti, access, storage) => Delivered(s, jti, access, storage)
      case Others(rows) => s.(rows := rows, cut := s.cut + (LiveOf(s.rows, s.mine) - LiveOf(rows, s.mine)))
  }

  function Run(s: System, actions: seq<Action>): System
    decreases |actions|
  {
    if actions == [] then s else Run(Next(s, actions[0]), actions[1..])
  }

  /** The server's three steps, taken one after the other, are one serial rotation: the same table, and a refusal
      exactly where the rotation has one. */
  lemma StepsTogetherRotate(s: System, call: nat, verifiable: bool, now: int, seed: Tokens.Fresh)
    requires Enabled(s, Read(call, verifiable, now)) && seed.jti !in s.rows
    requires s.client.sent[call] in s.rows && s.rows[s.client.sent[call]].userId == s.user
    ensures var token := TokenOf(s, call, verifiable);
            var t := Next(Next(Next(s, Read(call, verifiable, now)), Spend(call, now)), Issue(call, seed));
            && t.rows == Tokens.RotatedTable(s.rows, token, seed, now)
            && t.phase[call] == (if Tokens.RotateReply(s.rows, token, seed, now).Rotated? then Written
                                 else Refused(Tokens.RotateReply(s.rows, token, seed, now)))
            && (t.phase[call].Written? ==> seed.jti in t.transit && t.transit[seed.jti] == RefreshReplyTo(call))
  {
    var token := TokenOf(s, call, verifiable);
    var read := Next(s, Read(call, verifiable, now));
    if Tokens.Refusal(s.rows, token, now).None? {
      CheckedIsSpentAndIssued(read, call, verifiable, now, seed);
    } else {
      assert read.phase[call] == Refused(Tokens.RotateReply(s.rows, token, seed, now));
      assert Next(read, Spend(call, now)) == read && Next(read, Issue(call, seed)) == read;
    }
  }

  lemma CheckedIsSpentAndIssued(s: System, call: nat, verifiable: bool, now: int, seed: Tokens.Fresh)
    requires call < |s.client.sent| && s.client.sent[call] in s.rows && seed.jti !in s.rows
    requires call in s.phase && s.phase[call].Checked? && TokenOf(s, call, verifiable).Payload?
    ensures var token := TokenOf(s, call, verifiable);
            var t := Next(Next(s, Spend(call, now)), Issue(call, seed));
            t.rows == Tokens.Committed(s.rows, token, seed, now) && t.phase[call] == Written
            && seed.jti in t.transit && t.transit[seed.jti] == RefreshReplyTo(call)
  {
    var spent := Next(s, Spend(call, now));
    assert spent.phase[call] == Spent && spent.rows.Keys == s.rows.Keys && spent.user == s.user;
  }

  // ----- The invariant -----

  ghost predicate OnHand(s: System, jti: nat) {
    jti in s.mine && jti !in s.transit
  }

  /** The client sends only tokens that reached it. */
  ghost predicate ClientOk(s: System) {
    && PageInv(s.client)
    && (forall i :: 0 <= i < |s.client.sent| ==> s.client.sent[i] in s.mine)
    && (s.client.refreshToken.Some? ==> OnHand(s, s.client.refreshToken.value))
    && (s.client.stored.Some? ==> OnHand(s, s.client.stored.value))
  }

  /** A token in transit was never sent. */
  ghost predicate TransitOk(s: System) {
    forall j :: j in s.transit ==> j in s.mine && j !in s.client.sent
  }

  /** The call got as far as revoking the row it posted. */
  predicate SpentBy(s: System, call: nat) {
    call in s.phase && (s.phase[call].Spent? || s.phase[call].Written?)
  }

  ghost predicate SpentInSomeCall(s: System, jti: nat) {
    exists i :: 0 <= i < |s.client.sent| && s.client.sent[i] == jti && SpentBy(s, i)
  }

  ghost predicate Gone(s: System, jti: nat) {
    jti in s.cut || jti in s.swept || SpentInSomeCall(s, jti)
  }

  /** A row of the client is revoked exactly when others cut it, a report swept it, or a call that posted it spent
      it. */
  ghost predicate RowsOk(s: System) {
    && (forall j :: j in s.mine ==> j in s.rows && s.rows[j].userId == s.user)
    && (forall j :: j in s.mine ==> (Unrevoked(s.rows, j) <==> !Gone(s, j)))
    && s.cut <= s.mine && s.swept <= s.mine
  }

  ghost predicate PhaseOk(s: System) {
    forall i :: i in s.phase ==> i < |s.client.sent|
  }

  /** Only a stale load posts a token that was posted before. */
  ghost predicate StaleOk(s: System) {
    && (forall c :: c in s.stale ==> c < |s.client.sent|)
    && (forall c :: 0 <= c < |s.client.sent| ==> (c in s.stale <==> s.client.sent[c] in s.client.sent[..c]))
  }

  ghost predicate Inv(s: System) {
    ClientOk(s) && TransitOk(s) && RowsOk(s) && PhaseOk(s) && StaleOk(s)
  }

  // ----- Client steps -----

  /** Which refresh tokens a page step can come to hold or store. */
  ghost predicate KnownTokens(before: Client, after: Client, session: Option<Session>) {
    && (after.refreshToken.Some? ==>
          after.refreshToken in {before.refreshToken, before.stored}
          || (session.Some? && after.refreshToken.value == session.value.refresh))
    && (after.stored.Some? ==>
          after.stored == before.stored || (session.Some? && after.stored.value == session.value.refresh))
  }

  lemma {:induction false} ResumedAllKnows(s: Client, ws: seq<Waiter>, result: Option<Session>, storage: bool)
    ensures KnownTokens(s, ResumedAll(s, ws, result, storage), result)
    decreases |ws|
  {
    if ws != [] {
      ResumedAllKnows(s, ws[..|ws| - 1], result, storage);
    }
  }

  function SessionIn(e: Event): Option<Session> {
    match e
    case Login(session, _) => Some(session)
    case RefreshReply(_, result, _) => result
    case _ => None
  }

  lemma PageStepKnows(s: Client, e: Event)
    ensures KnownTokens(s, WebClient.Next(s, e), SessionIn(e))
  {
    if e.RefreshReply? && e.call in s.calls {
      var held := if e.result.Some? then Holding(s, e.result.value) else s;
      var woken := held.(refreshInFlight := None, calls := s.calls - {e.call});
      ResumedAllKnows(woken, s.calls[e.call], e.result, e.storage);
    }
  }

  /** What a page step adds to the sent tokens: nothing, or one the page held or found stored,
      and that one was sent before exactly if the step is a stale load. */
  ghost predicate Sends(s: Client, e: Event, sent: seq<nat>) {
    || (sent == s.sent && !StaleLoad(s, e))
    || exists j :: sent == s.sent + [j] && (s.refreshToken == Some(j) || s.stored == Some(j))
                   && (j in s.sent <==> StaleLoad(s, e))
  }

  lemma PageStepSends(s: Client, e: Event)
    requires PageInv(s) && FreshTo(s, e)
    ensures Sends(s, e, WebClient.Next(s, e).sent)
  {
    if e.RefreshReply? && e.call in s.calls {
      SettlingKeepsPage(s, e.call, e.result, e.storage);
    } else if e.Response? && e.id in s.pending {
      AttemptKeepsPage(s.(pending := s.pending - {e.id}), Request(e.id), e.storage);
    } else if e.Reload? {
      BootKeepsPage(s, e);
      if e.storage && s.stored.Some? {
        assert WebClient.Next(s, e).sent == s.sent + [s.stored.value];
      }
    }
  }

  lemma NewSentKeepsRows(s: System, c: Client, e: Event)
    requires RowsOk(s) && PhaseOk(s) && Sends(s.client, e, c.sent)
    ensures RowsOk(s.(client := c)) && PhaseOk(s.(client := c))
  {
    var t := s.(client := c);
    assert s.client.sent <= c.sent;
    forall j ensures SpentInSomeCall(t, j) <==> SpentInSomeCall(s, j) {
      if i :| 0 <= i < |c.sent| && c.sent[i] == j && SpentBy(t, i) {
        assert s.client.sent[i] == j && SpentBy(s, i);
      }
      if i :| 0 <= i < |s.client.sent| && s.client.sent[i] == j && SpentBy(s, i) {
        assert c.sent[i] == j && SpentBy(t, i);
      }
    }
  }

  lemma NewSentKeepsStale(s: System, c: Client, e: Event)
    requires StaleOk(s) && Sends(s.client, e, c.sent)
    ensures StaleOk(s.(client := c, stale := StaleAfter(s, e)))
  {
    if c.sent != s.client.sent {
      var j :| c.sent == s.client.sent + [j] && (j in s.client.sent <==> StaleLoad(s.client, e));
      assert c.sent[..|s.client.sent|] == s.client.sent;
    }
    forall k | 0 <= k < |s.client.sent| ensures c.sent[..k] == s.client.sent[..k] {}
  }

  lemma NewClientIsOk(s: System, c: Client, e: Event, transit: map<nat, Carrier>)
    requires ClientOk(s) && TransitOk(s) && PageInv(c)
    requires Sends(s.client, e, c.sent) && KnownTokens(s.client, c, SessionIn(e))
    requires transit.Keys <= s.transit.Keys
    requires SessionIn(e).Some? ==> SessionIn(e).value.refresh in s.transit && SessionIn(e).value.refresh !in transit
    ensures var t := s.(client := c, transit := transit); ClientOk(t) && TransitOk(t)
  {
    if c.sent != s.client.sent {
      var j :| c.sent == s.client.sent + [j] && (s.client.refreshToken == Some(j) || s.client.stored == Some(j));
      assert OnHand(s, j);
    }
  }

  lemma ComposeClientStep(s: System, c: Client, transit: map<nat, Carrier>, stale: set<nat>)
    requires ClientOk(s.(client := c, transit := transit)) && TransitOk(s.(client := c, transit := transit))
    requires RowsOk(s.(client := c)) && PhaseOk(s.(client := c)) && StaleOk(s.(client := c, stale := stale))
    ensures Inv(s.(client := c, transit := transit, stale := stale))
  {
    var t, u := s.(client := c, transit := transit, stale := stale), s.(client := c);
    forall i ensures SpentBy(t, i) <==> SpentBy(u, i) {}
    SameSpent(u, t);
  }

  /** A page step, with or without a session just delivered. */
  lemma ClientStepKeepsInv(s: System, e: Event, transit: map<nat, Carrier>)
    requires Inv(s) && transit.Keys <= s.transit.Keys
    requires SessionIn(e).Some? ==> SessionIn(e).value.refresh in s.transit && SessionIn(e).value.refresh !in transit
    ensures Inv(s.(client := WebClient.Next(s.client, e), transit := transit, stale := StaleAfter(s, e)))
  {
    var c := WebClient.Next(s.client, e);
    StepKeepsPage(s.client, e);
    PageStepKnows(s.client, e);
    PageStepSends(s.client, e);
    NewClientIsOk(s, c, e, transit);
    NewSentKeepsRows(s, c, e);
    NewSentKeepsStale(s, c, e);
    ComposeClientStep(s, c, transit, StaleAfter(s, e));
  }

  // ----- Server steps -----

  lemma SameSpent(s: System, t: System)
    requires t.client == s.client && forall i :: SpentBy(t, i) <==> SpentBy(s, i)
    ensures forall j :: SpentInSomeCall(t, j) <==> SpentInSomeCall(s, j)
  {
  }

  lemma RefusalOfMine(s: System, call: nat, verifiable: bool, now: int)
    requires RowsOk(s) && call < |s.client.sent| && s.client.sent[call] in s.mine
    ensures var why := Tokens.Refusal(s.rows, TokenOf(s, call, verifiable), now);
            && (why == Some(Tokens.TokenReused) <==> verifiable && !Unrevoked(s.rows, s.client.sent[call]))
            && (verifiable ==> why in {None, Some(Tokens.TokenExpired), Some(Tokens.TokenReused)})
  {
  }

  lemma SweptKeepsRows(s: System, call: nat, now: int, t: System)
    requires RowsOk(s) && call !in s.phase
    requires t == s.(phase := s.phase[call := Refused(Tokens.TokenReused)],
                     rows := Tokens.WithAllRevoked(s.rows, s.user, now),
                     swept := s.swept + LiveOf(s.rows, s.mine))
    ensures RowsOk(t)
  {
    forall i ensures SpentBy(t, i) <==> SpentBy(s, i) {}
    SameSpent(s, t);
    forall j | j in s.mine ensures !Unrevoked(t.rows, j) && Gone(t, j) {
      assert Unrevoked(s.rows, j) ==> j in LiveOf(s.rows, s.mine);
    }
  }

  lemma ReadKeepsInv(s: System, call: nat, verifiable: bool, now: int)
    requires Inv(s) && call < |s.client.sent| && call !in s.phase
    ensures Inv(ReadStep(s, call, verifiable, now))
  {
    var t := ReadStep(s, call, verifiable, now);
    RefusalOfMine(s, call, verifiable, now);
    if Tokens.Refusal(s.rows, TokenOf(s, call, verifiable), now) == Some(Tokens.TokenReused) {
      SweptKeepsRows(s, call, now, t);
    } else {
      forall i ensures SpentBy(t, i) <==> SpentBy(s, i) {}
      SameSpent(s, t);
    }
  }

  lemma SpendKeepsRows(s: System, call: nat, now: int)
    requires RowsOk(s) && Enabled(s, Spend(call, now))
    ensures RowsOk(SpendStep(s, call, now))
  {
    var t, jti := SpendStep(s, call, now), s.client.sent[call];
    assert SpentBy(t, call) && t.client.sent[call] == jti;
    forall j | j in s.mine ensures SpentInSomeCall(t, j) <==> SpentInSomeCall(s, j) || j == jti {
      if i :| 0 <= i < |s.client.sent| && s.client.sent[i] == j && SpentBy(t, i) {
        assert i != call ==> SpentBy(s, i);
      }
      if i :| 0 <= i < |s.client.sent| && s.client.sent[i] == j && SpentBy(s, i) {
        assert SpentBy(t, i);
      }
    }
  }

  lemma SpendKeepsInv(s: System, call: nat, now: int)
    requires Inv(s) && Enabled(s, Spend(call, now))
    ensures Inv(SpendStep(s, call, now))
  {
    SpendKeepsRows(s, call, now);
  }

  /** A new live row of the client, in transit. */
  lemma NewRowKeepsRows(s: System, seed: Tokens.Fresh, phase: map<nat, Phase>, transit: map<nat, Carrier>, t: System)
    requires RowsOk(s) && seed.jti !in s.rows
    requires forall i :: 0 <= i < |s.client.sent| ==> s.client.sent[i] in s.mine
    requires t == s.(rows := Tokens.WithNewRow(s.rows, s.user, seed), mine := s.mine + {seed.jti},
                     phase := phase, transit := transit)
    requires forall i :: SpentBy(t, i) <==> SpentBy(s, i)
    ensures RowsOk(t)
  {
    SameSpent(s, t);
    assert seed.jti !in s.mine && !Gone(t, seed.jti);
    forall j | j in s.mine ensures Unrevoked(t.rows, j) <==> Unrevoked(s.rows, j) {}
  }

  lemma IssueKeepsInv(s: System, call: nat, seed: Tokens.Fresh)
    requires Inv(s) && Enabled(s, Issue(call, seed))
    ensures Inv(IssueStep(s, call, seed))
  {
    var t := IssueStep(s, call, seed);
    forall i ensures SpentBy(t, i) <==> SpentBy(s, i) {}
    NewRowKeepsRows(s, seed, t.phase, t.transit, t);
  }

  lemma SignInKeepsInv(s: System, seed: Tokens.Fresh)
    requires Inv(s) && Enabled(s, SignIn(seed))
    ensures Inv(Next(s, SignIn(seed)))
  {
    var t := Next(s, SignIn(seed));
    forall i ensures SpentBy(t, i) <==> SpentBy(s, i) {}
    NewRowKeepsRows(s, seed, s.phase, t.transit, t);
  }

  lemma OthersKeepInv(s: System, rows: Tokens.Table)
    requires Inv(s) && Enabled(s, Others(rows))
    ensures Inv(Next(s, Others(rows)))
  {
    var t := Next(s, Others(rows));
    forall i ensures SpentBy(t, i) <==> SpentBy(s, i) {}
    SameSpent(s, t);
    forall j | j in s.mine ensures j in rows && rows[j].userId == s.user && (Unrevoked(rows, j) <==> !Gone(t, j)) {
      assert j in s.rows && SameOrRevoked(s.rows[j], rows[j]);
      assert j in LiveOf(s.rows, s.mine) <==> Unrevoked(s.rows, j);
      assert j in LiveOf(rows, s.mine) <==> Unrevoked(rows, j);
    }
  }

  /** Every step of page, network, server and others keeps exactly which rows are revoked, and why. */
  lemma StepKeepsInv(s: System, a: Action)
    requires Inv(s)
    ensures Inv(Next(s, a))
  {
    if Enabled(s, a) {
      match a
      case Page(event) => ClientStepKeepsInv(s, event, s.transit);
      case SignIn(seed) => SignInKeepsInv(s, seed);
      case Read(call, verifiable, now) => ReadKeepsInv(s, call, verifiable, now);
      case Spend(call, now) => SpendKeepsInv(s, call, now);
      case Issue(call, seed) => IssueKeepsInv(s, call, seed);
      case Deliver(jti, access, storage) =>
        var event := if s.transit[jti].LoginReply? then Login(Session(access, jti), storage)
                     else RefreshReply(s.transit[jti].call, Some(Session(access, jti)), storage);
        ClientStepKeepsInv(s, event, s.transit - {jti});
      case Others(rows) => OthersKeepInv(s, rows);
    }
  }

  lemma {:induction false} EveryRunKeepsInv(s: System, actions: seq<Action>)
    requires Inv(s)
    ensures Inv(Run(s, actions))
    decreases |actions|
  {
    if actions != [] {
      StepKeepsInv(s, actions[0]);
      EveryRunKeepsInv(Next(s, actions[0]), actions[1..]);
    }
  }

  // ----- When the server reports reuse -----

  /** The action is a read that takes the reuse branch. */
  ghost predicate Reports(s: System, a: Action) {
    a.Read? && Enabled(s, a) && Next(s, a).phase[a.call] == Refused(Tokens.TokenReused)
  }

  /** Another call posted the same token and spent it, and the later of the two came from a stale load. */
  ghost predicate SpentElsewhere(s: System, call: nat)
    requires call < |s.client.sent|
  {
    exists i :: 0 <= i < |s.client.sent| && i != call && s.client.sent[i] == s.client.sent[call] && SpentBy(s, i)
                && (if i < call then call else i) in s.stale
  }

  /** The action is a read of a verifiable token that others had revoked, or that a stale load made go out twice. */
  ghost predicate Caused(s: System, a: Action) {
    && a.Read? && Enabled(s, a) && a.verifiable
    && (s.client.sent[a.call] in s.cut || SpentElsewhere(s, a.call))
  }

  lemma SpentTwiceIsStale(s: System, call: nat)
    requires Inv(s) && call < |s.client.sent| && call !in s.phase
    ensures SpentInSomeCall(s, s.client.sent[call]) <==> SpentElsewhere(s, call)
  {
    var sent := s.client.sent;
    if i :| 0 <= i < |sent| && sent[i] == sent[call] && SpentBy(s, i) {
      if i < call {
        assert sent[..call][i] == sent[call];
      } else {
        assert i != call && sent[..i][call] == sent[i];
      }
    }
  }

  /** In every reachable state, a read reports reuse exactly when the token is verifiable and its row was revoked by
      others, by an earlier report, or by another call with the same token, the later of the two from a stale load. */
  lemma ReadReportsIff(s: System, call: nat, verifiable: bool, now: int)
    requires Inv(s) && Enabled(s, Read(call, verifiable, now))
    ensures Reports(s, Read(call, verifiable, now)) <==>
              verifiable && (s.client.sent[call] in s.cut + s.swept || SpentElsewhere(s, call))
    ensures verifiable && !Reports(s, Read(call, verifiable, now)) ==>
              Next(s, Read(call, verifiable, now)).phase[call] in {Checked, Refused(Tokens.TokenExpired)}
  {
    RefusalOfMine(s, call, verifiable, now);
    SpentTwiceIsStale(s, call);
  }

  ghost predicate ReportedIn(s: System, actions: seq<Action>)
    decreases |actions|
  {
    actions != [] && (Reports(s, actions[0]) || ReportedIn(Next(s, actions[0]), actions[1..]))
  }

  ghost predicate CausedIn(s: System, actions: seq<Action>)
    decreases |actions|
  {
    actions != [] && (Caused(s, actions[0]) || CausedIn(Next(s, actions[0]), actions[1..]))
  }

  lemma ReportsIffCaused(s: System, a: Action)
    requires Inv(s) && s.swept == {}
    ensures Reports(s, a) <==> Caused(s, a)
    ensures !Reports(s, a) ==> Next(s, a).swept == {}
  {
    if a.Read? && Enabled(s, a) {
      ReadReportsIff(s, a.call, a.verifiable, a.now);
    }
  }

  /** Over every run, whatever is delayed, lost or interleaved: reuse is reported at all exactly when some read meets a
      row that others revoked, or a token that a stale load sent again and that was spent already. */
  lemma {:induction false} ReuseIsReportedIff(s: System, actions: seq<Action>)
    requires Inv(s) && s.swept == {}
    ensures ReportedIn(s, actions) <==> CausedIn(s, actions)
    decreases |actions|
  {
    if actions != [] {
      ReportsIffCaused(s, actions[0]);
      if !Reports(s, actions[0]) {
        StepKeepsInv(s, actions[0]);
        ReuseIsReportedIff(Next(s, actions[0]), actions[1..]);
      }
    }
  }

  /** Nobody else revokes a row of this client, and no page load finds a token already sent. */
  ghost predicate Quiet(s: System, a: Action) {
    && (a.Page? ==> !StaleLoad(s.client, a.event))
    && (a.Others? ==> LiveOf(s.rows, s.mine) <= LiveOf(a.rows, s.mine))
  }

  ghost predicate QuietRun(s: System, actions: seq<Action>)
    decreases |actions|
  {
    actions == [] || (Quiet(s, actions[0]) && QuietRun(Next(s, actions[0]), actions[1..]))
  }

  lemma QuietStep(s: System, a: Action)
    requires Inv(s) && Quiet(s, a) && s.cut == {} && s.swept == {} && s.stale == {}
    ensures !Reports(s, a)
    ensures var t := Next(s, a); t.cut == {} && t.swept == {} && t.stale == {}
  {
    ReportsIffCaused(s, a);
  }

  /** So a client that alone holds its tokens, and never loads a stale one, never trips the reuse branch. */
  lemma {:induction false} ReuseIsNeverDetected(s: System, actions: seq<Action>)
    requires Inv(s) && s.cut == {} && s.swept == {} && s.stale == {} && QuietRun(s, actions)
    ensures !ReportedIn(s, actions)
    decreases |actions|
  {
    if actions != [] {
      QuietStep(s, actions[0]);
      StepKeepsInv(s, actions[0]);
      ReuseIsNeverDetected(Next(s, actions[0]), actions[1..]);
    }
  }

  // ----- Across page lives -----

  const NOBODY := Client(None, None, None, map[], map[], None, [])

  function NewSystem(user: nat): System {
    System(NOBODY, user, map[], {}, map[], map[], {}, {}, {})
  }

  lemma NewSystemIsSafe(user: nat)
    ensures Inv(NewSystem(user))
  {
  }

  lemma BootPostsStoredToken(s: System)
    requires s.client.stored.Some?
    ensures var t := Next(s, Page(Reload(true)));
            && t.client.sent == s.client.sent + [s.client.stored.value]
            && t.rows == s.rows && t.mine == s.mine && t.phase == s.phase && t.user == s.user
  {
  }

  /** A page load that finds a stored token makes the server report reuse exactly when that token's row is revoked;
      the report then revokes every row of the user, on whatever device it was issued. */
  lemma BootReportsReuseIff(s: System, now: int)
    requires Inv(s) && s.client.stored.Some?
    ensures var read := Read(|s.client.sent|, true, now);
            var posted := Next(s, Page(Reload(true)));
            var after := Next(posted, read).rows;
            && (Reports(posted, read) <==> !Unrevoked(s.rows, s.client.stored.value))
            && (Reports(posted, read) ==>
                  forall j :: j in s.rows && s.rows[j].userId == s.user ==> j in after && after[j].revokedAt.Some?)
  {
    var call, posted := |s.client.sent|, Next(s, Page(Reload(true)));
    BootPostsStoredToken(s);
    StepKeepsInv(s, Page(Reload(true)));
    assert call !in posted.phase && posted.client.sent[call] == s.client.stored.value;
    RefusalOfMine(posted, call, true, now);
  }

  lemma RunStep(s: System, a: Action, rest: seq<Action>)
    ensures Run(s, [a] + rest) == Run(Next(s, a), rest)
    ensures QuietRun(s, [a] + rest) <==> Quiet(s, a) && QuietRun(Next(s, a), rest)
  {
    assert ([a] + rest)[1..] == rest;
  }

  /** The state after one login whose token is stored, with one request under way. */
  function SignedIn(user: nat): System {
    System(Client(Some(0), Some(1), None, map[], map[0 := Fetch(false, Some(0))], Some(1), []),
           user, map[1 := Tokens.Row(user, 0, 10, None)], {1}, map[], map[], {}, {}, {})
  }

  lemma SigningIn(user: nat, rest: seq<Action>) returns (actions: seq<Action>)
    ensures Run(NewSystem(user), actions) == Run(SignedIn(user), rest)
    ensures QuietRun(NewSystem(user), actions) <==> QuietRun(SignedIn(user), rest)
  {
    var s0 := NewSystem(user);
    var a1, a2, a3 := SignIn(Tokens.Fresh(1, 0, 10)), Deliver(1, 0, true), Page(Start(0));
    var s1 := Next(s0, a1);
    var s2 := Next(s1, a2);
    assert Next(s2, a3) == SignedIn(user);
    RunStep(s2, a3, rest);
    RunStep(s1, a2, [a3] + rest);
    RunStep(s0, a1, [a2] + ([a3] + rest));
    actions := [a1] + ([a2] + ([a3] + rest));
  }

  lemma RefreshingOnce(user: nat) returns (actions: seq<Action>)
    ensures QuietRun(SignedIn(user), actions)
    ensures var s := Run(SignedIn(user), actions); s.client.stored == Some(1) && !Unrevoked(s.rows, 1)
  {
    var s3 := SignedIn(user);
    var a4, a5, a6 := Page(Response(0, true, true)), Read(0, true, 0), Spend(0, 0);
    var s4 := Next(s3, a4);
    assert s4.client.sent == [1] && s4.rows == s3.rows && s4.phase == map[] && s4.client.stored == Some(1);
    var s5 := Next(s4, a5);
    assert s5.phase == map[0 := Checked] && s5.rows == s3.rows && s5.client == s4.client;
    assert Enabled(s5, a6);
    var s6 := Next(s5, a6);
    var a7, a8 := Issue(0, Tokens.Fresh(2, 0, 10)), Deliver(2, 0, true);
    var s7 := Next(s6, a7);
    assert !Unrevoked(s7.rows, 1) && s7.client == s6.client == s4.client && s7.transit == map[2 := RefreshReplyTo(0)];
    ReplyToOneWaiter(s7.client, Session(0, 2));
    assert Next(s7, a8).rows == s7.rows && Next(s7, a8).client.stored == Some(1);
    RunStep(s7, a8, []);
    RunStep(s6, a7, [a8] + []);
    RunStep(s5, a6, [a7] + ([a8] + []));
    RunStep(s4, a5, [a6] + ([a7] + ([a8] + [])));
    RunStep(s3, a4, [a5] + ([a6] + ([a7] + ([a8] + []))));
    actions := [a4] + ([a5] + ([a6] + ([a7] + ([a8] + []))));
  }

  /** Such a page load is reachable: one login and one refresh leave a rotated token in storage. */
  lemma RotatedTokenCanBeStored(user: nat) returns (actions: seq<Action>)
    ensures QuietRun(NewSystem(user), actions)
    ensures var s := Run(NewSystem(user), actions);
            Inv(s) && s.client.stored.Some? && !Unrevoked(s.rows, s.client.stored.value)
  {
    var refresh := RefreshingOnce(user);
    actions := SigningIn(user, refresh);
    NewSystemIsSafe(user);
    EveryRunKeepsInv(NewSystem(user), actions);
  }
}
