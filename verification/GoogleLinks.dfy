/** When a row linked to one Google account is never given to another, and when no sign-in is refused:
    exact conditions on the table before anybody signs in, over every interleaving. */
module GoogleLinks {
  import opened Decimals
  import opened GoogleSignIn

  // ----- One access -----

  /** No link that a row has is replaced. */
  ghost predicate KeepsLinks(users: Users, after: Users) {
    forall u :: u in users && users[u].googleId.Some? ==> u in after && after[u].googleId == users[u].googleId
  }

  predicate OwnOrNone(users: Users, u: nat, g: nat) {
    u in users && users[u].googleId in {None, Some(g)}
  }

  /** The access replaces no link and, if it completes the sign-in, returns no row linked to another account. */
  ghost predicate Respects(users: Users, stage: Stage, g: nat, email: nat, id: nat) {
    var (after, next) := Access(users, stage, g, email, id);
    KeepsLinks(users, after) && (next.Done? ==> OwnOrNone(after, next.id, g))
  }

  /** The accesses that act on a row without comparing its link: the late link and the retry by email. */
  predicate ActsBlindly(stage: Stage) {
    stage.Link? || stage.RetryByEmail?
  }

  ghost function RowActedOn(users: Users, stage: Stage, email: nat): nat
    requires ActsBlindly(stage)
  {
    match stage
    case Link(u) => u
    case _ => ByEmail(users, email).GetOr(0)
  }

  /** A late link or a retry by email respects other accounts exactly when its row is by then unlinked or the
      account's. */
  lemma LateAccessRespectsIff(users: Users, stage: Stage, g: nat, id: nat, accounts: Accounts)
    requires UniqueRows(users) && g in accounts && StageOk(users, stage, g, accounts) && ActsBlindly(stage)
    ensures Respects(users, stage, g, accounts[g], id) <==> OwnOrNone(users, RowActedOn(users, stage, accounts[g]), g)
  {
    if stage.Link? {
      LinkIsSound(users, stage.u, g, id, accounts);
    }
  }

  /** Every other access respects them. */
  lemma CheckedAccessRespects(users: Users, stage: Stage, g: nat, id: nat, accounts: Accounts)
    requires g in accounts && id !in users && !stage.Done? && !ActsBlindly(stage)
    ensures Respects(users, stage, g, accounts[g], id)
  {
  }

  // ----- What stays of the table before the first sign-in -----

  ghost predicate Unlinked(users: Users, g: nat) {
    forall u :: !HasGoogle(users, u, g)
  }

  ghost predicate NewLink(start: Users, row: User, accounts: Accounts) {
    LinkedToOwner(row, accounts) && Unlinked(start, row.googleId.value)
  }

  /** Rows of the start keep their email and any link; other links are to accounts that had none, on their own email. */
  ghost predicate TableSince(start: Users, users: Users, accounts: Accounts) {
    && (forall u :: u in start ==> u in users && users[u].email == start[u].email)
    && KeepsLinks(start, users)
    && (forall u :: u in users && users[u].googleId.Some? ==>
          (u in start && start[u].googleId == users[u].googleId) || NewLink(start, users[u], accounts))
  }

  /** What a sign-in at each stage knows of the start: past the first lookup the account had no row there, a row to link
      had no link there, and an email to create had no row there. */
  ghost predicate StageSince(start: Users, stage: Stage, g: nat, email: nat) {
    match stage
    case FindByGoogle => true
    case FindByEmail => Unlinked(start, g)
    case Link(u) => Unlinked(start, g) && (u in start ==> start[u].googleId.None?)
    case Create => Unlinked(start, g) && forall u :: !HasEmail(start, u, email)
    case RetryByGoogle => Unlinked(start, g) && forall u :: !HasEmail(start, u, email)
    case RetryByEmail => Unlinked(start, g) && forall u :: !HasEmail(start, u, email)
    case _ => true
  }

  ghost predicate Since(start: Users, w: World, accounts: Accounts) {
    && Inv(w, accounts) && TableSince(start, w.users, accounts)
    && forall t :: t in w.signIns ==> StageSince(start, w.signIns[t].stage, w.signIns[t].g, accounts[w.signIns[t].g])
  }

  lemma AccessKeepsSince(start: Users, users: Users, stage: Stage, g: nat, id: nat, accounts: Accounts)
    requires UniqueRows(users) && g in accounts && id !in users && StageOk(users, stage, g, accounts)
    requires TableSince(start, users, accounts) && StageSince(start, stage, g, accounts[g])
    ensures var (after, next) := Access(users, stage, g, accounts[g], id);
            TableSince(start, after, accounts) && StageSince(start, next, g, accounts[g])
  {
    match stage
    case FindByGoogle =>
      forall u | HasGoogle(start, u, g) ensures HasGoogle(users, u, g) {}
    case FindByEmail =>
      forall u | HasEmail(start, u, accounts[g]) ensures HasEmail(users, u, accounts[g]) {}
    case Link(u) =>
      LinkIsSound(users, u, g, id, accounts);
      LinkKeepsTable(start, users, u, g, accounts);
    case Create => CreateKeepsTable(start, users, g, id, accounts);
    case _ =>
  }

  lemma LinkKeepsTable(start: Users, users: Users, u: nat, g: nat, accounts: Accounts)
    requires TableSince(start, users, accounts) && g in accounts && HasEmail(users, u, accounts[g])
    requires Unlinked(start, g) && (u in start ==> start[u].googleId.None?)
    ensures TableSince(start, Linked(users, u, g), accounts)
  {
  }

  lemma CreateKeepsTable(start: Users, users: Users, g: nat, id: nat, accounts: Accounts)
    requires TableSince(start, users, accounts) && g in accounts && id !in users && Unlinked(start, g)
    ensures TableSince(start, users[id := User(accounts[g], None, Some(g))], accounts)
  {
  }

  lemma StepKeepsSince(start: Users, w: World, s: Step, accounts: Accounts)
    requires Since(start, w, accounts) && Enabled(w, s, accounts)
    ensures Since(start, Next(w, s, accounts), accounts)
  {
    StepKeepsInv(w, s, accounts);
    if s.Advance? {
      AccessKeepsSince(start, w.users, w.signIns[s.t].stage, w.signIns[s.t].g, s.id, accounts);
    }
  }

  // ----- Reachable worlds -----

  /** Some run from the table, with nobody signed in, leads here. */
  ghost predicate Reachable(start: Users, w: World, accounts: Accounts) {
    exists ws, steps :: IsRun(ws, steps, accounts) && ws[0] == Before(start) && ws[|steps|] == w
  }

  lemma StartIsReachable(start: Users, accounts: Accounts)
    ensures Reachable(start, Before(start), accounts)
  {
    assert IsRun([Before(start)], [], accounts);
  }

  lemma NextIsReachable(start: Users, w: World, s: Step, accounts: Accounts)
    requires Reachable(start, w, accounts) && Enabled(w, s, accounts)
    ensures Reachable(start, Next(w, s, accounts), accounts)
  {
    var ws, steps :| IsRun(ws, steps, accounts) && ws[0] == Before(start) && ws[|steps|] == w;
    var longer, more := ws + [Next(w, s, accounts)], steps + [s];
    assert IsRun(longer, more, accounts);
    assert longer[|more|] == Next(w, s, accounts);
  }

  lemma {:induction false} RunKeepsSince(start: Users, ws: seq<World>, steps: seq<Step>, accounts: Accounts, n: nat)
    requires UniqueRows(start) && IsRun(ws, steps, accounts) && ws[0] == Before(start) && n < |ws|
    ensures Since(start, ws[n], accounts)
  {
    if n > 0 {
      RunKeepsSince(start, ws, steps, accounts, n - 1);
      StepKeepsSince(start, ws[n - 1], steps[n - 1], accounts);
    }
  }

  lemma ReachableKeepsSince(start: Users, w: World, accounts: Accounts)
    requires UniqueRows(start) && Reachable(start, w, accounts)
    ensures Since(start, w, accounts)
  {
    var ws, steps :| IsRun(ws, steps, accounts) && ws[0] == Before(start) && ws[|steps|] == w;
    RunKeepsSince(start, ws, steps, accounts, |steps|);
  }

  /** In every interleaving, for any accounts, a link that was there before the first sign-in stays. */
  lemma StartingLinksStay(start: Users, w: World, accounts: Accounts, u: nat)
    requires UniqueRows(start) && Reachable(start, w, accounts) && u in start && start[u].googleId.Some?
    ensures u in w.users && w.users[u].googleId == start[u].googleId
  {
    ReachableKeepsSince(start, w, accounts);
  }

  // ----- When no row goes to another account -----

  /** The step replaces no link and completes no sign-in with a row linked to another account. */
  ghost predicate RespectfulStep(w: World, s: Step, accounts: Accounts)
    requires Enabled(w, s, accounts)
  {
    s.Advance? && !w.signIns[s.t].stage.Done? ==>
      Respects(w.users, w.signIns[s.t].stage, w.signIns[s.t].g, accounts[w.signIns[s.t].g], s.id)
  }

  ghost predicate AlwaysRespectful(start: Users, accounts: Accounts) {
    forall w, s :: Reachable(start, w, accounts) && Enabled(w, s, accounts) ==> RespectfulStep(w, s, accounts)
  }

  predicate ShareEmail(accounts: Accounts, g: nat, h: nat) {
    g != h && g in accounts && h in accounts && accounts[g] == accounts[h]
  }

  /** Two accounts without a row may share an email only if that email's row is linked already. */
  ghost predicate NoContest(start: Users, accounts: Accounts) {
    forall g, h :: ShareEmail(accounts, g, h) && Unlinked(start, g) && Unlinked(start, h) ==>
                     LinkedRow(start, accounts[g])
  }

  ghost predicate LinkedRow(users: Users, email: nat) {
    exists u :: HasEmail(users, u, email) && users[u].googleId.Some?
  }

  lemma NoContestIsRespectful(start: Users, w: World, s: Step, accounts: Accounts)
    requires Since(start, w, accounts) && NoContest(start, accounts) && Enabled(w, s, accounts)
    ensures RespectfulStep(w, s, accounts)
  {
    if s.Advance? && !w.signIns[s.t].stage.Done? {
      var g, stage := w.signIns[s.t].g, w.signIns[s.t].stage;
      if ActsBlindly(stage) {
        BlindRowIsOwn(start, w.users, stage, g, accounts);
        LateAccessRespectsIff(w.users, stage, g, s.id, accounts);
      } else {
        CheckedAccessRespects(w.users, stage, g, s.id, accounts);
      }
    }
  }

  lemma BlindRowIsOwn(start: Users, users: Users, stage: Stage, g: nat, accounts: Accounts)
    requires UniqueRows(users) && g in accounts && StageOk(users, stage, g, accounts) && ActsBlindly(stage)
    requires TableSince(start, users, accounts) && StageSince(start, stage, g, accounts[g])
    requires NoContest(start, accounts)
    ensures OwnOrNone(users, RowActedOn(users, stage, accounts[g]), g)
  {
    var u := RowActedOn(users, stage, accounts[g]);
    assert HasEmail(users, u, accounts[g]);
    if users[u].googleId.Some? && users[u].googleId != Some(g) {
      var h := users[u].googleId.value;
      assert stage.RetryByEmail? ==> !HasEmail(start, u, accounts[g]);
      assert NewLink(start, users[u], accounts);
      assert ShareEmail(accounts, g, h);
    }
  }

  // ----- Runs that break the promise -----

  lemma {:induction false} Fresh(keys: set<nat>) returns (id: nat)
    ensures id !in keys && forall k :: k in keys ==> k < id
    decreases |keys|
  {
    if keys == {} {
      id := 0;
    } else {
      var k :| k in keys;
      id := Fresh(keys - {k});
      assert forall x :: x in keys ==> x == k || x in keys - {k};
      if id <= k {
        id := k + 1;
      }
    }
  }

  /** A sign-in of an account without a row looks twice and goes on to link its email's row, or to create one. */
  ghost function AfterLookups(users: Users, email: nat): Stage {
    if ByEmail(users, email).None? then Create else Link(ByEmail(users, email).value)
  }

  lemma TwoLookups(start: Users, w: World, t: nat, g: nat, accounts: Accounts) returns (after: World)
    requires Reachable(start, w, accounts) && t !in w.signIns
    requires g in accounts && Unlinked(w.users, g) && UniqueRows(w.users)
    ensures Reachable(start, after, accounts) && after.users == w.users
    ensures t in after.signIns && after.signIns[t].g == g && after.signIns == w.signIns[t := after.signIns[t]]
    ensures after.signIns[t].stage
         == if LinkedRow(w.users, accounts[g]) then EmailTaken else AfterLookups(w.users, accounts[g])
  {
    var id := Fresh(w.users.Keys);
    var begun := Next(w, Begin(t, g), accounts);
    NextIsReachable(start, w, Begin(t, g), accounts);
    var once := Next(begun, Advance(t, id), accounts);
    NextIsReachable(start, begun, Advance(t, id), accounts);
    assert once.signIns[t] == SignIn(g, FindByEmail) && once.users == w.users;
    after := Next(once, Advance(t, id), accounts);
    NextIsReachable(start, once, Advance(t, id), accounts);
    LookupByEmail(w.users, g, accounts[g], id);
  }

  lemma LookupByEmail(users: Users, g: nat, email: nat, id: nat)
    requires UniqueRows(users) && Unlinked(users, g)
    ensures Access(users, FindByEmail, g, email, id)
         == (users, if LinkedRow(users, email) then EmailTaken else AfterLookups(users, email))
  {
    var byEmail := ByEmail(users, email);
    if byEmail.Some? {
      assert !HasGoogle(users, byEmail.value, g);
      if u :| HasEmail(users, u, email) && users[u].googleId.Some? {
        assert u == byEmail.value;
      }
      if users[byEmail.value].googleId.Some? {
        assert LinkedRow(users, email);
      }
    }
  }

  /** Two accounts reach the same write, and the second is not respectful. */
  lemma ContestBreaksThePromise(start: Users, g: nat, h: nat, accounts: Accounts)
    requires UniqueRows(start) && ShareEmail(accounts, g, h) && Unlinked(start, g) && Unlinked(start, h)
    requires !LinkedRow(start, accounts[g])
    ensures !AlwaysRespectful(start, accounts)
  {
    StartIsReachable(start, accounts);
    var w := TwoLookups(start, Before(start), 0, g, accounts);
    w := TwoLookups(start, w, 1, h, accounts);
    if ByEmail(start, accounts[g]).Some? {
      var u := ByEmail(start, accounts[g]).value;
      var before, s := SecondLinkReplaces(start, w, u, g, h, accounts);
      assert !KeepsLinks(before.users, Next(before, s, accounts).users);
      assert !RespectfulStep(before, s, accounts);
    } else {
      var before, s, u := RetryReturnsForeignRow(start, w, g, h, accounts);
      assert Next(before, s, accounts).signIns[1].stage == Done(u);
      assert !RespectfulStep(before, s, accounts);
    }
  }

  /** Of two accounts about to link the same unlinked row, the second replaces the link of the first. */
  lemma SecondLinkReplaces(start: Users, w: World, u: nat, g: nat, h: nat, accounts: Accounts)
      returns (before: World, s: Step)
    requires Reachable(start, w, accounts) && w.users == start && u in start && start[u].googleId.None?
    requires ShareEmail(accounts, g, h) && Unlinked(start, g) && Unlinked(start, h) && UniqueRows(start)
    requires 0 in w.signIns && w.signIns[0] == SignIn(g, Link(u))
    requires 1 in w.signIns && w.signIns[1] == SignIn(h, Link(u))
    ensures Reachable(start, before, accounts) && Enabled(before, s, accounts)
    ensures s.Advance? && s.t == 1 && 1 in before.signIns && before.signIns[1] == SignIn(h, Link(u))
    ensures u in before.users && before.users[u].googleId == Some(g)
    ensures Next(before, s, accounts).users == before.users[u := before.users[u].(googleId := Some(h))]
  {
    var id := Fresh(start.Keys);
    before, s := Next(w, Advance(0, id), accounts), Advance(1, id);
    assert forall v :: !HasGoogle(start, v, g);
    assert before.users == Linked(start, u, g);
    NextIsReachable(start, w, Advance(0, id), accounts);
    forall v | v != u ensures !HasGoogle(before.users, v, h) {
      assert !HasGoogle(start, v, h);
    }
  }

  /** Of two accounts about to create a row for their email, the second ends with the row of the first. */
  lemma RetryReturnsForeignRow(start: Users, w: World, g: nat, h: nat, accounts: Accounts)
      returns (before: World, s: Step, u: nat)
    requires Reachable(start, w, accounts) && w.users == start && UniqueRows(start)
    requires ShareEmail(accounts, g, h) && Unlinked(start, g) && Unlinked(start, h)
    requires ByEmail(start, accounts[g]).None?
    requires 0 in w.signIns && w.signIns[0] == SignIn(g, Create) && 1 in w.signIns && w.signIns[1] == SignIn(h, Create)
    ensures Reachable(start, before, accounts) && Enabled(before, s, accounts)
    ensures s.Advance? && s.t == 1 && 1 in before.signIns && before.signIns[1] == SignIn(h, RetryByEmail)
    ensures u in before.users && before.users[u].googleId == Some(g)
    ensures Next(before, s, accounts) == before.(signIns := before.signIns[1 := SignIn(h, Done(u))])
  {
    var email := accounts[g];
    var id := Fresh(start.Keys);
    var made := Next(w, Advance(0, id), accounts);
    assert forall v :: !HasGoogle(start, v, g);
    assert made.users == start[id := User(email, None, Some(g))];
    NextIsReachable(start, w, Advance(0, id), accounts);
    assert HasEmail(made.users, id, email);
    var id2 := Fresh(made.users.Keys);
    var failed := Next(made, Advance(1, id2), accounts);
    NextIsReachable(start, made, Advance(1, id2), accounts);
    assert failed.users == made.users && failed.signIns[1] == SignIn(h, RetryByGoogle);
    forall v ensures !HasGoogle(made.users, v, h) {
      assert !HasGoogle(start, v, h);
    }
    before, s, u := Next(failed, Advance(1, id2), accounts), Advance(1, id2), id;
    NextIsReachable(start, failed, Advance(1, id2), accounts);
    assert before.users == made.users && before.signIns[1] == SignIn(h, RetryByEmail);
    forall v | HasEmail(made.users, v, email) ensures v == id {
      assert !HasEmail(start, v, email);
    }
    assert ByEmail(made.users, email) == Some(id);
  }

  /** From a table and for a set of accounts, no interleaving ever replaces a link or signs an account in to a row
      linked to another exactly when no two accounts without a row contend for an email whose row is missing or
      unlinked. */
  lemma LinksAreNeverTakenIff(start: Users, accounts: Accounts)
    requires UniqueRows(start)
    ensures AlwaysRespectful(start, accounts) <==> NoContest(start, accounts)
  {
    if NoContest(start, accounts) {
      forall w, s | Reachable(start, w, accounts) && Enabled(w, s, accounts) ensures RespectfulStep(w, s, accounts) {
        ReachableKeepsSince(start, w, accounts);
        NoContestIsRespectful(start, w, s, accounts);
      }
    } else {
      var g, h :| && ShareEmail(accounts, g, h) && Unlinked(start, g) && Unlinked(start, h)
                  && !LinkedRow(start, accounts[g]);
      ContestBreaksThePromise(start, g, h, accounts);
    }
  }

  // ----- When no sign-in is refused -----

  ghost predicate NobodyRefused(w: World) {
    forall t :: t in w.signIns ==> !w.signIns[t].stage.EmailTaken?
  }

  ghost predicate NeverRefused(start: Users, accounts: Accounts) {
    forall w :: Reachable(start, w, accounts) ==> NobodyRefused(w)
  }

  /** An account without a row has its email to itself: the email's row is unlinked, and no other account without a row
      has that email. */
  ghost predicate EmailsAreFree(start: Users, accounts: Accounts) {
    forall g :: g in accounts && Unlinked(start, g) ==>
      !LinkedRow(start, accounts[g]) && forall h :: ShareEmail(accounts, g, h) ==> !Unlinked(start, h)
  }

  lemma FreeEmailIsNotTaken(start: Users, users: Users, stage: Stage, g: nat, id: nat, accounts: Accounts)
    requires g in accounts && !stage.EmailTaken? && EmailsAreFree(start, accounts)
    requires TableSince(start, users, accounts) && StageSince(start, stage, g, accounts[g])
    ensures !Access(users, stage, g, accounts[g], id).1.EmailTaken?
  {
    var byEmail := ByEmail(users, accounts[g]);
    if stage.FindByEmail? && byEmail.Some? && users[byEmail.value].googleId.Some? {
      var u, h := byEmail.value, users[byEmail.value].googleId.value;
      if u in start && start[u].googleId == users[u].googleId {
        assert HasEmail(start, u, accounts[g]);
        assert LinkedRow(start, accounts[g]);
        assert false;
      } else {
        assert NewLink(start, users[u], accounts);
        assert h != g ==> ShareEmail(accounts, g, h);
      }
    }
  }

  lemma {:induction false} FreeEmailsRunUnrefused(start: Users, ws: seq<World>, steps: seq<Step>, accounts: Accounts,
                                                  n: nat)
    requires UniqueRows(start) && EmailsAreFree(start, accounts)
    requires IsRun(ws, steps, accounts) && ws[0] == Before(start) && n < |ws|
    ensures NobodyRefused(ws[n])
  {
    if n > 0 {
      FreeEmailsRunUnrefused(start, ws, steps, accounts, n - 1);
      RunKeepsSince(start, ws, steps, accounts, n - 1);
      var w, s := ws[n - 1], steps[n - 1];
      if s.Advance? {
        FreeEmailIsNotTaken(start, w.users, w.signIns[s.t].stage, w.signIns[s.t].g, s.id, accounts);
      }
    }
  }

  /** A sign-in that found its email's row unlinked, or missing, leaves that row linked to its account. */
  lemma FinishSignIn(start: Users, w: World, t: nat, g: nat, accounts: Accounts) returns (after: World)
    requires Reachable(start, w, accounts) && w.users == start && UniqueRows(start)
    requires g in accounts && Unlinked(start, g) && !LinkedRow(start, accounts[g])
    requires t in w.signIns && w.signIns[t] == SignIn(g, AfterLookups(start, accounts[g]))
    ensures Reachable(start, after, accounts) && UniqueRows(after.users) && LinkedRow(after.users, accounts[g])
    ensures forall h :: h != g && Unlinked(start, h) ==> Unlinked(after.users, h)
    ensures after.signIns.Keys == w.signIns.Keys
  {
    var email := accounts[g];
    var id := Fresh(start.Keys);
    after := Next(w, Advance(t, id), accounts);
    NextIsReachable(start, w, Advance(t, id), accounts);
    var byEmail := ByEmail(start, email);
    if byEmail.Some? {
      var u := byEmail.value;
      assert start[u].googleId.None?;
      assert forall v :: !HasGoogle(start, v, g);
      LinkingKeepsUnique(start, u, g);
      assert after.users == Linked(start, u, g) && HasEmail(after.users, u, email);
      OthersStayUnlinked(start, after.users, u, g);
    } else {
      InsertingKeepsUnique(start, id, User(email, None, Some(g)));
      assert after.users == start[id := User(email, None, Some(g))] && HasEmail(after.users, id, email);
      OthersStayUnlinked(start, after.users, id, g);
    }
  }

  lemma OthersStayUnlinked(users: Users, after: Users, u: nat, g: nat)
    requires forall v :: v != u && v in after ==> v in users && after[v] == users[v]
    requires HasGoogle(after, u, g)
    ensures forall h :: h != g && Unlinked(users, h) ==> Unlinked(after, h)
  {
    forall h, v | h != g && Unlinked(users, h) ensures !HasGoogle(after, v, h) {
      assert !HasGoogle(users, v, h);
    }
  }

  lemma TakenEmailRefuses(start: Users, w: World, t: nat, g: nat, accounts: Accounts)
    requires Reachable(start, w, accounts) && UniqueRows(w.users) && t !in w.signIns
    requires g in accounts && Unlinked(w.users, g) && LinkedRow(w.users, accounts[g])
    ensures !NeverRefused(start, accounts)
  {
    var after := TwoLookups(start, w, t, g, accounts);
    assert !NobodyRefused(after);
  }

  /** From a table and for a set of accounts, no sign-in of any interleaving is refused exactly when every account
      without a row has its email to itself. */
  lemma NeverRefusedIff(start: Users, accounts: Accounts)
    requires UniqueRows(start)
    ensures NeverRefused(start, accounts) <==> EmailsAreFree(start, accounts)
  {
    if EmailsAreFree(start, accounts) {
      forall w | Reachable(start, w, accounts) ensures NobodyRefused(w) {
        var ws, steps :| IsRun(ws, steps, accounts) && ws[0] == Before(start) && ws[|steps|] == w;
        FreeEmailsRunUnrefused(start, ws, steps, accounts, |steps|);
      }
    } else {
      var g :| g in accounts && Unlinked(start, g)
               && !(!LinkedRow(start, accounts[g]) && forall h :: ShareEmail(accounts, g, h) ==> !Unlinked(start, h));
      StartIsReachable(start, accounts);
      if LinkedRow(start, accounts[g]) {
        TakenEmailRefuses(start, Before(start), 0, g, accounts);
      } else {
        var h :| ShareEmail(accounts, g, h) && Unlinked(start, h);
        var w := TwoLookups(start, Before(start), 0, g, accounts);
        w := FinishSignIn(start, w, 0, g, accounts);
        TakenEmailRefuses(start, w, 1, h, accounts);
      }
    }
  }
}
