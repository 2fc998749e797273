/** Refresh-token rows: issue, rotate, revoke, and reuse detection (rotation as in section 4.14.2 of RFC 9700,
    rows keyed by the `jti` claim of section 4.1.7 of RFC 7519). */
module Tokens {
  import opened Decimals

  /** `secretHash` is what the presented secret is compared with; hashing is taken to be exact. */
  datatype Row = Row(userId: nat, secretHash: nat, expiresAt: int, revokedAt: Option<int>)

  type Table = map<nat, Row>

  /** A presented token: its verified payload, or nothing if the signature or its own expiry fails. */
  datatype Presented = Unverifiable | Payload(sub: nat, jti: nat, secret: nat)

  /** The random parts of a new row. */
  datatype Fresh = Fresh(jti: nat, secret: nat, expiresAt: int)

  datatype RotateResult = Rotated(jti: nat) | TokenInvalid | TokenReused | TokenExpired

  function WithNewRow(rows: Table, user: nat, seed: Fresh): Table {
    rows[seed.jti := Row(user, seed.secret, seed.expiresAt, None)]
  }

  function Revoked(row: Row, now: int): Row {
    if row.revokedAt.Some? then row else row.(revokedAt := Some(now))
  }

  function WithAllRevoked(rows: Table, user: nat, now: int): Table {
    map j | j in rows :: if rows[j].userId == user then Revoked(rows[j], now) else rows[j]
  }

  function WithOneRevoked(rows: Table, token: Presented, now: int): Table {
    if token.Unverifiable? || token.jti !in rows then rows
    else rows[token.jti := Revoked(rows[token.jti], now)]
  }

  /** The reading half of a rotation: None if it may go on to write. */
  function Refusal(rows: Table, token: Presented, now: int): Option<RotateResult> {
    if token.Unverifiable? || token.jti !in rows then Some(TokenInvalid)
    else if rows[token.jti].revokedAt.Some? then Some(TokenReused)
    else if rows[token.jti].expiresAt < now then Some(TokenExpired)
    else if rows[token.jti].secretHash != token.secret then Some(TokenInvalid)
    else None
  }

  /** The writing half: the presented row is revoked, a new one issued. */
  function Committed(rows: Table, token: Presented, seed: Fresh, now: int): Table
    requires token.Payload? && token.jti in rows
  {
    WithNewRow(rows[token.jti := rows[token.jti].(revokedAt := Some(now))], token.sub, seed)
  }

  function RotatedTable(rows: Table, token: Presented, seed: Fresh, now: int): Table {
    var refusal := Refusal(rows, token, now);
    if refusal.None? then Committed(rows, token, seed, now)
    else if refusal.value == TokenReused then WithAllRevoked(rows, rows[token.jti].userId, now)
    else rows
  }

  function RotateReply(rows: Table, token: Presented, seed: Fresh, now: int): RotateResult {
    Refusal(rows, token, now).GetOr(Rotated(seed.jti))
  }

  class TokenService {
    var rows: Table

    constructor ()
      ensures rows == map[]
    {
      rows := map[];
    }

    method IssuePair(user: nat, seed: Fresh)
      modifies this
      ensures rows == WithNewRow(old(rows), user, seed)
    {
      rows := rows[seed.jti := Row(user, seed.secret, seed.expiresAt, None)];
    }

    method Rotate(token: Presented, seed: Fresh, now: int) returns (result: RotateResult)
      modifies this
      ensures rows == RotatedTable(old(rows), token, seed, now)
      ensures result == RotateReply(old(rows), token, seed, now)
    {
      if token.Unverifiable? {
        return TokenInvalid;
      }
      if token.jti !in rows {
        return TokenInvalid;
      }
      var row := rows[token.jti];
      if row.revokedAt.Some? {
        RevokeAllForUser(row.userId, now);
        return TokenReused;
      }
      if row.expiresAt < now {
        return TokenExpired;
      }
      if row.secretHash != token.secret {
        return TokenInvalid;
      }
      rows := rows[token.jti := row.(revokedAt := Some(now))];
      IssuePair(token.sub, seed);
      result := Rotated(seed.jti);
    }

    method Revoke(token: Presented, now: int)
      modifies this
      ensures rows == WithOneRevoked(old(rows), token, now)
    {
      if token.Unverifiable? {
        return;
      }
      if token.jti in rows && rows[token.jti].revokedAt.None? {
        rows := rows[token.jti := rows[token.jti].(revokedAt := Some(now))];
      }
    }

    method RevokeAllForUser(user: nat, now: int)
      modifies this
      ensures rows == WithAllRevoked(old(rows), user, now)
    {
      rows := map j | j in rows ::
        if rows[j].userId == user && rows[j].revokedAt.None? then rows[j].(revokedAt := Some(now)) else rows[j];
    }
  }

  // ----- Serial runs -----

  datatype Event =
    | Issue(user: nat, seed: Fresh)
    | Rotate(token: Presented, seed: Fresh, now: int)
    | Revoke(token: Presented, now: int)
    | RevokeAllForUser(user: nat, now: int)

  /** The table, and for every row the login its lineage started from. */
  datatype State = State(rows: Table, root: map<nat, nat>)

  predicate Rotates(s: State, e: Event) {
    e.Rotate? && Refusal(s.rows, e.token, e.now).None?
  }

  function Next(s: State, e: Event): State {
    match e
    case Issue(user, seed) => State(WithNewRow(s.rows, user, seed), s.root[seed.jti := seed.jti])
    case Rotate(token, seed, now) =>
      State(RotatedTable(s.rows, token, seed, now),
            if Rotates(s, e) && token.jti in s.root then s.root[seed.jti := s.root[token.jti]] else s.root)
    case Revoke(token, now) => s.(rows := WithOneRevoked(s.rows, token, now))
    case RevokeAllForUser(user, now) => s.(rows := WithAllRevoked(s.rows, user, now))
  }

  function Run(s: State, events: seq<Event>): State
    decreases |events|
  {
    if events == [] then s else Run(Next(s, events[0]), events[1..])
  }

  /** Random row ids never repeat. */
  ghost predicate FreshIn(s: State, e: Event) {
    (e.Issue? || e.Rotate?) ==> e.seed.jti !in s.rows
  }

  ghost predicate FreshRun(s: State, events: seq<Event>)
    decreases |events|
  {
    events == [] || (FreshIn(s, events[0]) && FreshRun(Next(s, events[0]), events[1..]))
  }

  // ----- What one event changes -----

  function RowsOf(rows: Table, user: nat): Table {
    map j | j in rows && rows[j].userId == user :: rows[j]
  }

  /** The row is verifiably named and neither revoked nor past its expiry. */
  predicate Usable(rows: Table, token: Presented, now: int) {
    token.Payload? && token.jti in rows && rows[token.jti].revokedAt.None? && now <= rows[token.jti].expiresAt
  }

  /** A rotation succeeds exactly for a usable row and its own secret. A known revoked row is reuse, a known unrevoked
      one past its expiry is expired, whatever the secret; everything else is invalid. Only reuse and success write. */
  lemma RotationOutcomeIff(s: State, token: Presented, seed: Fresh, now: int)
    ensures var reply := RotateReply(s.rows, token, seed, now);
            && (reply.Rotated? <==> Usable(s.rows, token, now) && s.rows[token.jti].secretHash == token.secret)
            && (reply == TokenReused <==> token.Payload? && IsRevoked(s.rows, token.jti))
            && (reply == TokenExpired <==>
                  token.Payload? && Live(s.rows, token.jti) && s.rows[token.jti].expiresAt < now)
            && (reply == TokenInvalid <==>
                  || token.Unverifiable? || token.jti !in s.rows
                  || (Usable(s.rows, token, now) && s.rows[token.jti].secretHash != token.secret))
            && (reply == TokenInvalid || reply == TokenExpired ==> Next(s, Rotate(token, seed, now)) == s)
  {
  }

  /** A successful rotation revokes the presented row, adds a live one for the token's user, and changes no other. */
  lemma RotationMovesOneRow(s: State, token: Presented, seed: Fresh, now: int)
    requires seed.jti !in s.rows && RotateReply(s.rows, token, seed, now).Rotated?
    ensures var rows := Next(s, Rotate(token, seed, now)).rows;
            && rows.Keys == s.rows.Keys + {seed.jti}
            && rows[seed.jti] == Row(token.sub, seed.secret, seed.expiresAt, None)
            && rows[token.jti] == s.rows[token.jti].(revokedAt := Some(now))
            && forall j :: j in s.rows && j != token.jti ==> rows[j] == s.rows[j]
  {
  }

  /** A reported reuse revokes every live row of the row's user, and changes no row of another. */
  lemma ReuseRevokesOneUser(s: State, token: Presented, seed: Fresh, now: int)
    requires RotateReply(s.rows, token, seed, now) == TokenReused
    ensures RevokesExactly(s.rows, Next(s, Rotate(token, seed, now)).rows,
                           RowsOf(s.rows, s.rows[token.jti].userId).Keys, now)
  {
  }

  /** The live ones of these rows are revoked now, and nothing else changes. */
  ghost predicate RevokesExactly(rows: Table, after: Table, ids: set<nat>, now: int) {
    && after.Keys == rows.Keys
    && forall j :: j in rows ==>
         after[j] == if j in ids && rows[j].revokedAt.None? then rows[j].(revokedAt := Some(now)) else rows[j]
  }

  /** An issue adds one live row; the revocations revoke exactly the row the token names, or the user's rows. */
  lemma IssueAndRevocations(s: State, user: nat, seed: Fresh, token: Presented, now: int)
    ensures seed.jti !in s.rows ==>
              var rows := Next(s, Issue(user, seed)).rows;
              && rows.Keys == s.rows.Keys + {seed.jti}
              && rows[seed.jti] == Row(user, seed.secret, seed.expiresAt, None)
              && forall j :: j in s.rows ==> rows[j] == s.rows[j]
    ensures RevokesExactly(s.rows, Next(s, Revoke(token, now)).rows, if token.Payload? then {token.jti} else {}, now)
    ensures RevokesExactly(s.rows, Next(s, RevokeAllForUser(user, now)).rows,
                           RowsOf(s.rows, user).Keys, now)
  {
  }

  /** The event names the user, or a token for the user, or a row of the user. */
  ghost predicate ActsOn(rows: Table, e: Event, user: nat) {
    match e
    case Issue(u, _) => u == user
    case RevokeAllForUser(u, _) => u == user
    case Rotate(token, _, _) => Names(rows, token, user)
    case Revoke(token, _) => Names(rows, token, user)
  }

  ghost predicate Names(rows: Table, token: Presented, user: nat) {
    token.Payload? && (token.sub == user || (token.jti in rows && rows[token.jti].userId == user))
  }

  ghost predicate ActsOnOthers(s: State, events: seq<Event>, user: nat)
    decreases |events|
  {
    events == [] || (!ActsOn(s.rows, events[0], user) && ActsOnOthers(Next(s, events[0]), events[1..], user))
  }

  lemma OneEventLeavesOthers(s: State, e: Event, user: nat)
    requires FreshIn(s, e) && !ActsOn(s.rows, e, user)
    ensures RowsOf(Next(s, e).rows, user) == RowsOf(s.rows, user)
  {
    var rows := Next(s, e).rows;
    forall j ensures j in rows && rows[j].userId == user <==> j in s.rows && s.rows[j].userId == user {
    }
    forall j | j in s.rows && s.rows[j].userId == user ensures rows[j] == s.rows[j] {
    }
  }

  /** Over every serial run, whatever other users do, replayed tokens and mass revocations included, a user's rows stay
      exactly as they are unless an event names the user. */
  lemma {:induction false} OtherUsersChangeNothing(s: State, events: seq<Event>, user: nat)
    requires FreshRun(s, events) && ActsOnOthers(s, events, user)
    ensures RowsOf(Run(s, events).rows, user) == RowsOf(s.rows, user)
    decreases |events|
  {
    if events != [] {
      OneEventLeavesOthers(s, events[0], user);
      OtherUsersChangeNothing(Next(s, events[0]), events[1..], user);
    }
  }

  predicate Live(rows: Table, j: nat) {
    j in rows && rows[j].revokedAt.None?
  }

  /** Every row has a lineage, and no lineage has two live rows. */
  ghost predicate OneLivePerLineage(s: State) {
    && s.rows.Keys == s.root.Keys
    && forall i, j {:trigger Live(s.rows, i), Live(s.rows, j)} ::
      Live(s.rows, i) && Live(s.rows, j) && s.root[i] == s.root[j] ==> i == j
  }

  /** Lineages start at rows of the table, so a fresh id starts one of its own. */
  ghost predicate RootsAreRows(s: State) {
    forall j {:trigger s.root[j]} :: j in s.root ==> s.root[j] in s.rows
  }

  /** Revoking any rows leaves at most one live row per lineage. */
  lemma RevokingKeepsOneLive(s: State, rows: Table)
    requires OneLivePerLineage(s) && RootsAreRows(s)
    requires rows.Keys == s.rows.Keys && forall j :: Live(rows, j) ==> Live(s.rows, j)
    ensures OneLivePerLineage(s.(rows := rows)) && RootsAreRows(s.(rows := rows))
  {
  }

  lemma AddingALiveRowAddsNoPair(s: State, j: nat, row: Row, root: nat)
    requires OneLivePerLineage(s) && j !in s.rows
    requires forall i {:trigger Live(s.rows, i)} :: Live(s.rows, i) ==> s.root[i] != root
    ensures OneLivePerLineage(State(s.rows[j := row], s.root[j := root]))
  {
    var t := State(s.rows[j := row], s.root[j := root]);
    assert t.rows.Keys == s.rows.Keys + {j} && t.root.Keys == s.root.Keys + {j};
    forall a, b | Live(t.rows, a) && Live(t.rows, b) && t.root[a] == t.root[b] ensures a == b {
      assert a == j || Live(s.rows, a);
      assert b == j || Live(s.rows, b);
    }
  }

  lemma AddingALiveRowAddsNoRoot(s: State, j: nat, row: Row, root: nat)
    requires RootsAreRows(s) && (root == j || root in s.rows)
    ensures RootsAreRows(State(s.rows[j := row], s.root[j := root]))
  {
    var t := State(s.rows[j := row], s.root[j := root]);
    forall i | i in t.root ensures t.root[i] in t.rows {
      assert i == j || s.root[i] in s.rows;
    }
  }

  /** A new live row keeps the invariant if no other row of its lineage is live. */
  lemma AddingALiveRow(s: State, j: nat, row: Row, root: nat)
    requires OneLivePerLineage(s) && RootsAreRows(s) && j !in s.rows && (root == j || root in s.rows)
    requires forall i {:trigger Live(s.rows, i)} :: Live(s.rows, i) ==> s.root[i] != root
    ensures var t := State(s.rows[j := row], s.root[j := root]); OneLivePerLineage(t) && RootsAreRows(t)
  {
    AddingALiveRowAddsNoPair(s, j, row, root);
    AddingALiveRowAddsNoRoot(s, j, row, root);
  }

  lemma RotationKeepsOneLive(s: State, e: Event)
    requires OneLivePerLineage(s) && RootsAreRows(s) && FreshIn(s, e) && Rotates(s, e)
    ensures OneLivePerLineage(Next(s, e)) && RootsAreRows(Next(s, e))
  {
    var j := e.token.jti;
    var rows := s.rows[j := s.rows[j].(revokedAt := Some(e.now))];
    RevokingKeepsOneLive(s, rows);
    forall i | Live(rows, i) ensures s.root[i] != s.root[j] {
      assert Live(s.rows, i) && Live(s.rows, j);
    }
    AddingALiveRow(s.(rows := rows), e.seed.jti, Row(e.token.sub, e.seed.secret, e.seed.expiresAt, None), s.root[j]);
  }

  lemma NextKeepsOneLive(s: State, e: Event)
    requires OneLivePerLineage(s) && RootsAreRows(s) && FreshIn(s, e)
    ensures OneLivePerLineage(Next(s, e)) && RootsAreRows(Next(s, e))
  {
    if e.Issue? {
      assert Next(s, e) == State(s.rows[e.seed.jti := Row(e.user, e.seed.secret, e.seed.expiresAt, None)],
                                 s.root[e.seed.jti := e.seed.jti]);
      AddingALiveRow(s, e.seed.jti, Row(e.user, e.seed.secret, e.seed.expiresAt, None), e.seed.jti);
    } else if Rotates(s, e) {
      RotationKeepsOneLive(s, e);
    } else {
      NothingIssued(s, e);
      RevokingKeepsOneLive(s, Next(s, e).rows);
    }
  }

  /** A step that neither issues nor rotates keeps the rows and revives none. */
  lemma NothingIssued(s: State, e: Event)
    requires !e.Issue? && !Rotates(s, e)
    ensures Next(s, e).root == s.root && Next(s, e).rows.Keys == s.rows.Keys
    ensures forall j :: Live(Next(s, e).rows, j) ==> Live(s.rows, j)
  {
  }

  /** Over every serial run, each login's lineage has at most one unrevoked row. */
  lemma {:induction false} EveryRunKeepsOneLive(s: State, events: seq<Event>)
    requires OneLivePerLineage(s) && RootsAreRows(s) && FreshRun(s, events)
    ensures OneLivePerLineage(Run(s, events))
    decreases |events|
  {
    if events != [] {
      NextKeepsOneLive(s, events[0]);
      EveryRunKeepsOneLive(Next(s, events[0]), events[1..]);
    }
  }

  /** How often row j is rotated successfully over a run. */
  function Rotations(j: nat, s: State, events: seq<Event>): nat
    decreases |events|
  {
    if events == [] then 0
    else (if Rotates(s, events[0]) && events[0].token.jti == j then 1 else 0)
         + Rotations(j, Next(s, events[0]), events[1..])
  }

  ghost predicate IsRevoked(rows: Table, j: nat) {
    j in rows && rows[j].revokedAt.Some?
  }

  lemma RevocationStays(s: State, e: Event, j: nat)
    requires IsRevoked(s.rows, j) && FreshIn(s, e)
    ensures j in Next(s, e).rows && Next(s, e).rows[j] == s.rows[j]
  {
  }

  /** Once revoked, a row keeps its revocation, time included, and never rotates again. */
  lemma {:induction false} RevocationIsForever(s: State, events: seq<Event>, j: nat)
    requires IsRevoked(s.rows, j) && FreshRun(s, events)
    ensures j in Run(s, events).rows && Run(s, events).rows[j] == s.rows[j]
    ensures Rotations(j, s, events) == 0
    decreases |events|
  {
    if events != [] {
      RevocationStays(s, events[0], j);
      RevocationIsForever(Next(s, events[0]), events[1..], j);
    }
  }

  /** Each row rotates successfully at most once over any serial run. */
  lemma {:induction false} RowRotatesAtMostOnce(s: State, events: seq<Event>, j: nat)
    requires FreshRun(s, events)
    ensures Rotations(j, s, events) <= 1
    decreases |events|
  {
    if events != [] {
      var e := events[0];
      if Rotates(s, e) && e.token.jti == j {
        assert IsRevoked(Next(s, e).rows, j);
        RevocationIsForever(Next(s, e), events[1..], j);
      } else {
        RowRotatesAtMostOnce(Next(s, e), events[1..], j);
      }
    }
  }

  ghost predicate DetectsReuse(s: State, e: Event) {
    e.Rotate? && Refusal(s.rows, e.token, e.now) == Some(TokenReused)
  }

  /** After a detected reuse, no row the user had at that moment ever rotates again. */
  lemma ReuseEndsEverySession(s: State, e: Event, later: seq<Event>, j: nat)
    requires DetectsReuse(s, e) && FreshRun(Next(s, e), later)
    requires j in s.rows && s.rows[j].userId == s.rows[e.token.jti].userId
    ensures Rotations(j, Next(s, e), later) == 0
    ensures IsRevoked(Run(Next(s, e), later).rows, j)
  {
    assert IsRevoked(Next(s, e).rows, j);
    RevocationIsForever(Next(s, e), later, j);
  }

  /** A token as the server itself issued it. */
  ghost predicate Genuine(s: State, token: Presented) {
    token.Payload? && token.jti in s.rows ==> token.sub == s.rows[token.jti].userId
  }

  ghost predicate GenuineRun(s: State, events: seq<Event>)
    decreases |events|
  {
    events == [] || ((events[0].Rotate? ==> Genuine(s, events[0].token)) && GenuineRun(Next(s, events[0]), events[1..]))
  }

  ghost predicate SameUser(rows: Table, i: nat, j: nat) {
    i in rows && j in rows && rows[i].userId == rows[j].userId
  }

  ghost predicate LineagesStayWithUser(s: State) {
    forall j {:trigger s.root[j]} :: j in s.root ==> SameUser(s.rows, j, s.root[j])
  }

  lemma RowKeepsUser(s: State, e: Event, j: nat)
    requires j in s.rows && FreshIn(s, e)
    ensures j in Next(s, e).rows && Next(s, e).rows[j].userId == s.rows[j].userId
  {
  }

  lemma NewRowHasLineageUser(s: State, e: Event)
    requires LineagesStayWithUser(s) && s.rows.Keys == s.root.Keys
    requires FreshIn(s, e) && (e.Rotate? ==> Genuine(s, e.token)) && (e.Issue? || Rotates(s, e))
    ensures var t := Next(s, e); e.seed.jti in t.root && SameUser(t.rows, e.seed.jti, t.root[e.seed.jti])
  {
    if e.Rotate? {
      var j := e.token.jti;
      assert SameUser(s.rows, j, s.root[j]);
      RowKeepsUser(s, e, s.root[j]);
    }
  }

  lemma NextKeepsLineageUser(s: State, e: Event)
    requires LineagesStayWithUser(s) && s.rows.Keys == s.root.Keys
    requires FreshIn(s, e) && (e.Rotate? ==> Genuine(s, e.token))
    ensures LineagesStayWithUser(Next(s, e))
  {
    var t := Next(s, e);
    forall j | j in t.root ensures SameUser(t.rows, j, t.root[j]) {
      if j in s.root {
        assert SameUser(s.rows, j, s.root[j]);
        RowKeepsUser(s, e, j);
        RowKeepsUser(s, e, s.root[j]);
      } else {
        NewRowHasLineageUser(s, e);
      }
    }
  }

  /** Tokens cannot be forged, so every row of a lineage belongs to the user who logged in. */
  lemma {:induction false} EveryRunKeepsLineageUser(s: State, events: seq<Event>)
    requires LineagesStayWithUser(s) && OneLivePerLineage(s) && RootsAreRows(s)
    requires FreshRun(s, events) && GenuineRun(s, events)
    ensures LineagesStayWithUser(Run(s, events))
    decreases |events|
  {
    if events != [] {
      NextKeepsOneLive(s, events[0]);
      NextKeepsLineageUser(s, events[0]);
      EveryRunKeepsLineageUser(Next(s, events[0]), events[1..]);
    }
  }

  // ----- The two halves of a rotation apart -----

  /** No row of the lineage is live but, possibly, row j itself. */
  ghost predicate NoOtherLive(s: State, j: nat)
    requires s.rows.Keys == s.root.Keys && j in s.rows
  {
    forall i {:trigger Live(s.rows, i)} :: Live(s.rows, i) && s.root[i] == s.root[j] ==> i == j
  }

  function LateCommit(s: State, token: Presented, seed: Fresh, now: int): State
    requires token.Payload? && token.jti in s.rows && token.jti in s.root
  {
    State(Committed(s.rows, token, seed, now), s.root[seed.jti := s.root[token.jti]])
  }

  lemma LateCommitOfLastLiveRow(s: State, token: Presented, seed: Fresh, now: int)
    requires OneLivePerLineage(s) && RootsAreRows(s) && token.Payload? && token.jti in s.rows && seed.jti !in s.rows
    requires NoOtherLive(s, token.jti)
    ensures OneLivePerLineage(LateCommit(s, token, seed, now))
  {
    var j := token.jti;
    var rows := s.rows[j := s.rows[j].(revokedAt := Some(now))];
    RevokingKeepsOneLive(s, rows);
    forall i {:trigger Live(rows, i)} | Live(rows, i) ensures s.root[i] != s.root[j] {
      assert Live(s.rows, i);
    }
    AddingALiveRow(s.(rows := rows), seed.jti, Row(token.sub, seed.secret, seed.expiresAt, None), s.root[j]);
  }

  lemma LateCommitBesideALiveRow(s: State, token: Presented, seed: Fresh, now: int, other: nat)
    requires s.rows.Keys == s.root.Keys && token.Payload? && token.jti in s.rows && seed.jti !in s.rows
    requires Live(s.rows, other) && s.root[other] == s.root[token.jti] && other != token.jti
    ensures !OneLivePerLineage(LateCommit(s, token, seed, now))
  {
    var t := LateCommit(s, token, seed, now);
    assert Live(t.rows, other) && Live(t.rows, seed.jti);
  }

  /** Committing a rotation whose check is already past keeps one live row per lineage
      exactly when no other row of the lineage is live by then. */
  lemma LateCommitKeepsOneLiveIff(s: State, token: Presented, seed: Fresh, now: int)
    requires OneLivePerLineage(s) && RootsAreRows(s) && token.Payload? && token.jti in s.rows && seed.jti !in s.rows
    ensures OneLivePerLineage(LateCommit(s, token, seed, now)) <==> NoOtherLive(s, token.jti)
  {
    if NoOtherLive(s, token.jti) {
      LateCommitOfLastLiveRow(s, token, seed, now);
    } else {
      var other :| Live(s.rows, other) && s.root[other] == s.root[token.jti] && other != token.jti;
      LateCommitBesideALiveRow(s, token, seed, now, other);
    }
  }

  /** Two requests that both read before either writes both rotate the same row: its lineage forks. */
  lemma OverlappingRotationsFork() returns (s: State, token: Presented)
    ensures OneLivePerLineage(s) && RootsAreRows(s) && Refusal(s.rows, token, 0).None?
    ensures var once := Committed(s.rows, token, Fresh(1, 0, 10), 0);
            var twice := Committed(once, token, Fresh(2, 0, 10), 0);
            Live(twice, 1) && Live(twice, 2) && twice[1].userId == twice[2].userId
  {
    s := State(map[0 := Row(7, 5, 10, None)], map[0 := 0]);
    token := Payload(7, 0, 5);
  }
}
