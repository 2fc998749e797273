/** Signing in with Google: find, link or create the user row, with a retry on a unique violation. */
module GoogleSignIn {
  import opened Decimals

  datatype User = User(email: nat, passwordHash: Option<nat>, googleId: Option<nat>)

  type Users = map<nat, User>

  predicate HasGoogle(users: Users, u: nat, g: nat) {
    u in users && users[u].googleId == Some(g)
  }

  predicate HasEmail(users: Users, u: nat, email: nat) {
    u in users && users[u].email == email
  }

  /** The table's two unique constraints. */
  ghost predicate UniqueRows(users: Users) {
    && (forall u, v :: u in users && v in users && users[u].email == users[v].email ==> u == v)
    && (forall u, v :: u in users && v in users && users[u].googleId.Some? && users[u].googleId == users[v].googleId ==>
          u == v)
  }

  ghost function ByGoogle(users: Users, g: nat): (r: Option<nat>)
    ensures r.Some? ==> HasGoogle(users, r.value, g)
    ensures r.None? ==> forall u :: !HasGoogle(users, u, g)
  {
    if exists u :: HasGoogle(users, u, g) then
      var u :| HasGoogle(users, u, g);
      Some(u)
    else None
  }

  ghost function ByEmail(users: Users, email: nat): (r: Option<nat>)
    ensures r.Some? ==> HasEmail(users, r.value, email)
    ensures r.None? ==> forall u :: !HasEmail(users, u, email)
  {
    if exists u :: HasEmail(users, u, email) then
      var u :| HasEmail(users, u, email);
      Some(u)
    else None
  }

  function Linked(users: Users, u: nat, g: nat): Users
    requires u in users
  {
    users[u := users[u].(googleId := Some(g))]
  }

  lemma LinkingKeepsUnique(users: Users, u: nat, g: nat)
    requires UniqueRows(users) && u in users && forall v :: HasGoogle(users, v, g) ==> v == u
    ensures UniqueRows(Linked(users, u, g)) && HasGoogle(Linked(users, u, g), u, g)
  {
    forall v | v in users && users[v].googleId == Some(g) ensures v == u {
      assert HasGoogle(users, v, g);
    }
  }

  lemma InsertingKeepsUnique(users: Users, id: nat, row: User)
    requires UniqueRows(users) && id !in users && forall v :: !HasEmail(users, v, row.email)
    requires row.googleId.Some? ==> forall v :: !HasGoogle(users, v, row.googleId.value)
    ensures UniqueRows(users[id := row])
  {
    forall v | v in users ensures users[v].email != row.email {
      assert !HasEmail(users, v, row.email);
    }
    forall v | v in users && row.googleId.Some? ensures users[v].googleId != row.googleId {
      assert !HasGoogle(users, v, row.googleId.value);
    }
  }

  // ----- One sign-in, one table access at a time -----

  datatype Stage =
    | FindByGoogle
    | FindByEmail
    | Link(u: nat)
    | Create
    | RetryByGoogle
    | RetryByEmail
    | Done(id: nat)
    | EmailTaken
    | Failed

  /** What one table access makes of the table and the sign-in; `id` is the id a new row would get. */
  ghost function Access(users: Users, stage: Stage, g: nat, email: nat, id: nat): (Users, Stage) {
    match stage
    case FindByGoogle =>
      (match ByGoogle(users, g)
       case Some(u) => (users, Done(u))
       case None => (users, FindByEmail))
    case FindByEmail =>
      (match ByEmail(users, email)
       case None => (users, Create)
       case Some(u) =>
         if users[u].googleId.None? then (users, Link(u))
         else if users[u].googleId == Some(g) then (users, Done(u))
         else (users, EmailTaken))
    case Link(u) =>
      if u !in users || (exists v :: v != u && HasGoogle(users, v, g)) then (users, Failed)
      else (Linked(users, u, g), Done(u))
    case Create =>
      if ByEmail(users, email).Some? || ByGoogle(users, g).Some? then (users, RetryByGoogle)
      else (users[id := User(email, None, Some(g))], Done(id))
    case RetryByGoogle =>
      (match ByGoogle(users, g)
       case Some(u) => (users, Done(u))
       case None => (users, RetryByEmail))
    case RetryByEmail =>
      (match ByEmail(users, email)
       case Some(u) => (users, Done(u))
       case None => (users, Failed))
    case _ => (users, stage)
  }

  // ----- The service, called alone -----

  datatype SignInResult = SignedIn(id: nat) | EmailUnverified

  /** What a sign-in that runs alone returns. */
  ghost function AloneResult(users: Users, g: nat, email: nat, id: nat): SignInResult {
    var byGoogle, byEmail := ByGoogle(users, g), ByEmail(users, email);
    if byGoogle.Some? then SignedIn(byGoogle.value)
    else if byEmail.None? then SignedIn(id)
    else if users[byEmail.value].googleId in {None, Some(g)} then SignedIn(byEmail.value)
    else EmailUnverified
  }

  /** The table it leaves behind. */
  ghost function AloneTable(users: Users, g: nat, email: nat, id: nat): Users {
    var byEmail := ByEmail(users, email);
    if ByGoogle(users, g).Some? then users
    else if byEmail.None? then users[id := User(email, None, Some(g))]
    else if users[byEmail.value].googleId.None? then Linked(users, byEmail.value, g)
    else users
  }

  /** No row is linked to the account, and the row of its email is linked to another. */
  ghost predicate OwnedByAnother(users: Users, g: nat, email: nat) {
    && (forall u :: u in users ==> users[u].googleId != Some(g))
    && exists u :: HasEmail(users, u, email) && users[u].googleId.Some?
  }

  class UsersService {
    var users: Users

    constructor ()
      ensures users == map[]
    {
      users := map[];
    }

    method FindByGoogleId(g: nat) returns (r: Option<nat>)
      requires UniqueRows(users)
      ensures r == ByGoogle(users, g)
    {
      if u :| u in users && users[u].googleId == Some(g) {
        assert HasGoogle(users, u, g);
        r := Some(u);
      } else {
        r := None;
      }
    }

    method FindByEmail(email: nat) returns (r: Option<nat>)
      requires UniqueRows(users)
      ensures r == ByEmail(users, email)
    {
      if u :| u in users && users[u].email == email {
        assert HasEmail(users, u, email);
        r := Some(u);
      } else {
        r := None;
      }
    }

    method LinkGoogleId(u: nat, g: nat)
      requires u in users
      modifies this
      ensures users == Linked(old(users), u, g)
    {
      users := users[u := users[u].(googleId := Some(g))];
    }

    /** Inserts a row, unless that would break a unique constraint. */
    method CreateWithGoogle(email: nat, g: nat, id: nat) returns (created: bool)
      requires UniqueRows(users) && id !in users
      modifies this
      ensures UniqueRows(users)
      ensures created <==> ByEmail(old(users), email).None? && ByGoogle(old(users), g).None?
      ensures users == if created then old(users)[id := User(email, None, Some(g))] else old(users)
    {
      var byEmail := FindByEmail(email);
      var byGoogle := FindByGoogleId(g);
      created := byEmail.None? && byGoogle.None?;
      if created {
        InsertingKeepsUnique(users, id, User(email, None, Some(g)));
        users := users[id := User(email, None, Some(g))];
      }
    }

    method ResolveGoogleUser(g: nat, email: nat, id: nat) returns (r: SignInResult)
      requires UniqueRows(users) && id !in users
      modifies this
      ensures UniqueRows(users)
      ensures users == AloneTable(old(users), g, email, id)
      ensures r == AloneResult(old(users), g, email, id)
      ensures r.SignedIn? ==> HasGoogle(users, r.id, g)
      ensures r.EmailUnverified? <==> OwnedByAnother(old(users), g, email)
      ensures forall u :: u in old(users) && (r.EmailUnverified? || u != r.id) ==>
                            u in users && users[u] == old(users)[u]
      ensures forall u :: u in users && u !in old(users) ==> r == SignedIn(u) && users[u] == User(email, None, Some(g))
    {
      var byGoogle := FindByGoogleId(g);
      if byGoogle.Some? {
        return SignedIn(byGoogle.value);
      }
      var byEmail := FindByEmail(email);
      ForeignRowIff(users, g, email);
      if byEmail.Some? {
        var u := byEmail.value;
        if users[u].googleId.Some? && users[u].googleId != Some(g) {
          return EmailUnverified;
        }
        if users[u].googleId == Some(g) {
          return SignedIn(u);
        }
        LinkingKeepsUnique(users, u, g);
        LinkGoogleId(u, g);
        return SignedIn(u);
      }
      var created := CreateWithGoogle(email, g, id);
      r := SignedIn(id);
    }
  }

  /** The sign-in after its next n accesses, with no other access in between. */
  ghost function Accesses(users: Users, stage: Stage, g: nat, email: nat, id: nat, n: nat): (Users, Stage)
    decreases n
  {
    if n == 0 then (users, stage)
    else
      var (after, next) := Access(users, stage, g, email, id);
      Accesses(after, next, g, email, id, n - 1)
  }

  /** Alone, the separate accesses end after at most three, with exactly the method's table and result: signed in to a
      row linked to the account, or refused for an email that another account owns. */
  lemma AccessesAloneEndAsResolved(users: Users, g: nat, email: nat, id: nat, n: nat)
    requires UniqueRows(users) && id !in users && n >= 3
    ensures var r := AloneResult(users, g, email, id);
            && Accesses(users, FindByGoogle, g, email, id, n)
               == (AloneTable(users, g, email, id), if r.SignedIn? then Done(r.id) else EmailTaken)
            && (r.SignedIn? ==> HasGoogle(AloneTable(users, g, email, id), r.id, g))
            && (r.EmailUnverified? <==> OwnedByAnother(users, g, email))
  {
    var (after, stage) := Access(users, FindByGoogle, g, email, id);
    ForeignRowIff(users, g, email);
    if stage.Done? {
      SettledStays(after, stage, g, email, id, n - 1);
    } else {
      var (after2, stage2) := Access(after, stage, g, email, id);
      var (after3, stage3) := Access(after2, stage2, g, email, id);
      LookedUpIsSettled(users, g, email, id);
      SettledStays(after3, stage3, g, email, id, n - 3);
      assert Accesses(after, stage, g, email, id, n - 1) == Accesses(after2, stage2, g, email, id, n - 2);
    }
  }

  /** After two lookups without a link, the third access settles the sign-in. */
  lemma LookedUpIsSettled(users: Users, g: nat, email: nat, id: nat)
    requires UniqueRows(users) && id !in users && ByGoogle(users, g).None?
    ensures var (after, stage) := Access(users, FindByEmail, g, email, id);
            var r := AloneResult(users, g, email, id);
            && Access(after, stage, g, email, id)
               == (AloneTable(users, g, email, id), if r.SignedIn? then Done(r.id) else EmailTaken)
            && (r.SignedIn? ==> HasGoogle(AloneTable(users, g, email, id), r.id, g))
  {
    assert forall u :: !HasGoogle(users, u, g);
  }

  lemma {:induction false} SettledStays(users: Users, stage: Stage, g: nat, email: nat, id: nat, n: nat)
    requires stage.Done? || stage.EmailTaken?
    ensures Accesses(users, stage, g, email, id, n) == (users, stage)
    decreases n
  {
    if n > 0 {
      SettledStays(users, stage, g, email, id, n - 1);
    }
  }

  lemma ForeignRowIff(users: Users, g: nat, email: nat)
    requires UniqueRows(users)
    ensures OwnedByAnother(users, g, email) <==>
              && ByGoogle(users, g).None?
              && ByEmail(users, email).Some? && users[ByEmail(users, email).value].googleId.Some?
  {
    if ByGoogle(users, g).None? {
      forall u | u in users ensures users[u].googleId != Some(g) {
        assert !HasGoogle(users, u, g);
      }
    }
    if u :| HasEmail(users, u, email) && users[u].googleId.Some? {
      assert ByEmail(users, email) == Some(u);
    }
  }

  /** Signing in again returns the same user and writes nothing, and a link to a Google account is never replaced. */
  lemma SigningInAgainChangesNothing(users: Users, g: nat, email: nat, id: nat, again: nat)
    requires UniqueRows(users) && id !in users
    ensures var after := AloneTable(users, g, email, id);
            && AloneTable(after, g, email, again) == after
            && AloneResult(after, g, email, again) == AloneResult(users, g, email, id)
            && forall u :: u in users ==>
                 u in after && after[u].email == users[u].email && after[u].passwordHash == users[u].passwordHash
                 && (users[u].googleId.Some? ==> after[u].googleId == users[u].googleId)
  {
    var byEmail := ByEmail(users, email);
    if ByGoogle(users, g).None? {
      if byEmail.None? {
        InsertingKeepsUnique(users, id, User(email, None, Some(g)));
        assert HasGoogle(AloneTable(users, g, email, id), id, g);
      } else if users[byEmail.value].googleId.None? {
        LinkingKeepsUnique(users, byEmail.value, g);
      }
    }
  }

  // ----- Any interleaving -----

  datatype SignIn = SignIn(g: nat, stage: Stage)

  /** The table, the sign-ins so far, and which Google account each Google-made row was made for. */
  datatype World = World(users: Users, signIns: map<nat, SignIn>, created: map<nat, nat>)

  datatype Step =
    | Begin(t: nat, g: nat)
    | Advance(t: nat, id: nat)
    | Register(id: nat, email: nat, passwordHash: nat)

  /** The verified email of each Google account. */
  type Accounts = map<nat, nat>

  ghost predicate Enabled(w: World, s: Step, accounts: Accounts) {
    match s
    case Begin(t, g) => t !in w.signIns && g in accounts
    case Advance(t, id) => t in w.signIns && w.signIns[t].g in accounts && id !in w.users
    case Register(id, _, _) => id !in w.users
  }

  ghost function Next(w: World, s: Step, accounts: Accounts): World
    requires Enabled(w, s, accounts)
  {
    match s
    case Begin(t, g) => w.(signIns := w.signIns[t := SignIn(g, FindByGoogle)])
    case Advance(t, id) =>
      var g := w.signIns[t].g;
      var (users, stage) := Access(w.users, w.signIns[t].stage, g, accounts[g], id);
      World(users, w.signIns[t := SignIn(g, stage)],
            if id in users then w.created[id := g] else w.created)
    case Register(id, email, hash) =>
      if ByEmail(w.users, email).Some? then w else w.(users := w.users[id := User(email, Some(hash), None)])
  }

  /** The row an account's sign-ins lead to: one linked under another email, or the row of its email
      once every link of the account lies there. */
  ghost predicate IsTarget(users: Users, g: nat, email: nat, u: nat) {
    || (HasGoogle(users, u, g) && !HasEmail(users, u, email))
    || (HasEmail(users, u, email) && LinkedByEmail(users, g, email))
  }

  /** Every row linked to the account has the account's email. */
  ghost predicate LinkedByEmail(users: Users, g: nat, email: nat) {
    forall u :: HasGoogle(users, u, g) ==> HasEmail(users, u, email)
  }

  lemma TargetIsUnique(users: Users, g: nat, email: nat, u: nat, v: nat)
    requires UniqueRows(users) && IsTarget(users, g, email, u) && IsTarget(users, g, email, v)
    ensures u == v
  {
  }

  /** The row's link, if any, is to an account with the row's email. */
  predicate LinkedToOwner(row: User, accounts: Accounts) {
    row.googleId.Some? && row.googleId.value in accounts && accounts[row.googleId.value] == row.email
  }

  /** What a sign-in at each stage knows of the present table. After it saw no row of its account,
      any row the account gets has the account's email. */
  ghost predicate StageOk(users: Users, stage: Stage, g: nat, accounts: Accounts)
    requires g in accounts
  {
    var email := accounts[g];
    match stage
    case FindByGoogle => true
    case FindByEmail => LinkedByEmail(users, g, email)
    case Link(u) =>
      LinkedByEmail(users, g, email) && HasEmail(users, u, email)
      && (users[u].googleId.None? || LinkedToOwner(users[u], accounts))
    case Create => LinkedByEmail(users, g, email)
    case RetryByGoogle => LinkedByEmail(users, g, email) && ByEmail(users, email).Some?
    case RetryByEmail => LinkedByEmail(users, g, email) && ByEmail(users, email).Some?
    case Done(u) => IsTarget(users, g, email, u)
    case EmailTaken => true
    case Failed => false
  }

  ghost predicate SignInsOk(w: World, accounts: Accounts) {
    forall t :: t in w.signIns ==>
      w.signIns[t].g in accounts && StageOk(w.users, w.signIns[t].stage, w.signIns[t].g, accounts)
  }

  ghost predicate CreatedOk(w: World, accounts: Accounts) {
    forall i :: i in w.created ==> w.created[i] in accounts && HasEmail(w.users, i, accounts[w.created[i]])
  }

  ghost predicate Inv(w: World, accounts: Accounts) {
    UniqueRows(w.users) && SignInsOk(w, accounts) && CreatedOk(w, accounts)
  }

  /** How any step may change the table: rows stay, keep email and password, and change their link only from none,
      or from one owner of the row's email, to an owner; new rows are linked to nothing or to an owner. */
  ghost predicate Grows(users: Users, after: Users, accounts: Accounts) {
    && (forall u :: u in users ==>
          && u in after && after[u].email == users[u].email && after[u].passwordHash == users[u].passwordHash
          && (after[u].googleId == users[u].googleId
              || ((users[u].googleId.None? || LinkedToOwner(users[u], accounts)) && LinkedToOwner(after[u], accounts))))
    && (forall u :: u in after && u !in users ==> after[u].googleId.None? || LinkedToOwner(after[u], accounts))
  }

  /** One access, seen from the sign-in that makes it. */
  lemma AccessIsSound(users: Users, stage: Stage, g: nat, id: nat, accounts: Accounts)
    requires UniqueRows(users) && g in accounts && id !in users && StageOk(users, stage, g, accounts)
    ensures var (after, next) := Access(users, stage, g, accounts[g], id);
            && UniqueRows(after) && Grows(users, after, accounts) && StageOk(after, next, g, accounts)
            && (forall u :: u in after && u !in users ==> u == id && HasEmail(after, u, accounts[g]))
  {
    match stage
    case Link(u) => LinkIsSound(users, u, g, id, accounts);
    case Create => CreateIsSound(users, g, id, accounts);
    case _ =>
  }

  lemma LinkIsSound(users: Users, u: nat, g: nat, id: nat, accounts: Accounts)
    requires UniqueRows(users) && g in accounts && StageOk(users, Link(u), g, accounts)
    ensures Access(users, Link(u), g, accounts[g], id) == (Linked(users, u, g), Done(u))
    ensures var after := Linked(users, u, g);
            UniqueRows(after) && Grows(users, after, accounts) && StageOk(after, Done(u), g, accounts)
  {
    assert forall v :: v != u ==> !HasGoogle(users, v, g);
    LinkingKeepsUnique(users, u, g);
  }

  lemma CreateIsSound(users: Users, g: nat, id: nat, accounts: Accounts)
    requires UniqueRows(users) && g in accounts && id !in users && StageOk(users, Create, g, accounts)
    ensures var (after, next) := Access(users, Create, g, accounts[g], id);
            && UniqueRows(after) && Grows(users, after, accounts) && StageOk(after, next, g, accounts)
            && (forall u :: u in after && u !in users ==> u == id && HasEmail(after, u, accounts[g]))
  {
    var email := accounts[g];
    if ByEmail(users, email).None? && ByGoogle(users, g).None? {
      InsertingKeepsUnique(users, id, User(email, None, Some(g)));
      assert HasGoogle(users[id := User(email, None, Some(g))], id, g);
    }
  }

  lemma GrowthKeepsEmailLinks(users: Users, after: Users, g: nat, accounts: Accounts)
    requires g in accounts && Grows(users, after, accounts) && LinkedByEmail(users, g, accounts[g])
    ensures LinkedByEmail(after, g, accounts[g])
  {
    forall u | HasGoogle(after, u, g) ensures HasEmail(after, u, accounts[g]) {
      if HasGoogle(users, u, g) {
        assert HasEmail(users, u, accounts[g]);
      }
    }
  }

  /** The same step, seen from every other sign-in. */
  lemma GrowthKeepsStages(users: Users, after: Users, stage: Stage, g: nat, accounts: Accounts)
    requires UniqueRows(after) && g in accounts && Grows(users, after, accounts) && StageOk(users, stage, g, accounts)
    ensures StageOk(after, stage, g, accounts)
  {
    var email := accounts[g];
    if LinkedByEmail(users, g, email) {
      GrowthKeepsEmailLinks(users, after, g, accounts);
    }
    if ByEmail(users, email).Some? {
      assert HasEmail(after, ByEmail(users, email).value, email);
    }
  }

  lemma StepKeepsInv(w: World, s: Step, accounts: Accounts)
    requires Inv(w, accounts) && Enabled(w, s, accounts)
    ensures Inv(Next(w, s, accounts), accounts) && Grows(w.users, Next(w, s, accounts).users, accounts)
  {
    var after := Next(w, s, accounts);
    if s.Register? && ByEmail(w.users, s.email).None? {
      InsertingKeepsUnique(w.users, s.id, User(s.email, Some(s.passwordHash), None));
    } else if s.Advance? {
      AccessIsSound(w.users, w.signIns[s.t].stage, w.signIns[s.t].g, s.id, accounts);
    }
    forall t | t in after.signIns
      ensures after.signIns[t].g in accounts
      ensures StageOk(after.users, after.signIns[t].stage, after.signIns[t].g, accounts)
    {
      if t in w.signIns && (s.Advance? ==> t != s.t) {
        GrowthKeepsStages(w.users, after.users, w.signIns[t].stage, w.signIns[t].g, accounts);
      }
    }
  }

  ghost predicate IsRun(ws: seq<World>, steps: seq<Step>, accounts: Accounts) {
    && |ws| == |steps| + 1
    && forall i :: 0 <= i < |steps| ==>
         Enabled(ws[i], steps[i], accounts) && ws[i + 1] == Next(ws[i], steps[i], accounts)
  }

  /** A table before anybody signs in. */
  function Before(users: Users): World {
    World(users, map[], map[])
  }

  lemma {:induction false} RunKeepsInv(ws: seq<World>, steps: seq<Step>, accounts: Accounts, n: nat)
    requires IsRun(ws, steps, accounts) && Inv(ws[0], accounts) && n < |ws|
    ensures Inv(ws[n], accounts)
  {
    if n > 0 {
      RunKeepsInv(ws, steps, accounts, n - 1);
      StepKeepsInv(ws[n - 1], steps[n - 1], accounts);
    }
  }

  predicate Completed(w: World, t: nat) {
    t in w.signIns && w.signIns[t].stage.Done?
  }

  /** From any table with unique columns and for any accounts, shared emails and foreign links included, in every
      interleaving: no sign-in fails, all completed sign-ins of an account return the same user, and at most one row
      is ever created for it. */
  lemma SignInsAgree(ws: seq<World>, steps: seq<Step>, accounts: Accounts)
    requires IsRun(ws, steps, accounts) && UniqueRows(ws[0].users) && ws[0] == Before(ws[0].users)
    ensures var end := ws[|steps|];
            && (forall t :: t in end.signIns ==> !end.signIns[t].stage.Failed?)
            && (forall t, r :: Completed(end, t) && Completed(end, r) && end.signIns[t].g == end.signIns[r].g ==>
                  end.signIns[t].stage.id == end.signIns[r].stage.id)
            && (forall i, j :: i in end.created && j in end.created && end.created[i] == end.created[j] ==> i == j)
  {
    var end := ws[|steps|];
    RunKeepsInv(ws, steps, accounts, |steps|);
    forall t, r | Completed(end, t) && Completed(end, r) && end.signIns[t].g == end.signIns[r].g
      ensures end.signIns[t].stage.id == end.signIns[r].stage.id
    {
      var g := end.signIns[t].g;
      TargetIsUnique(end.users, g, accounts[g], end.signIns[t].stage.id, end.signIns[r].stage.id);
    }
  }

  lemma StepKeepsPasswords(w: World, s: Step, accounts: Accounts, u: nat)
    requires Enabled(w, s, accounts) && u in w.users
    ensures var after := Next(w, s, accounts).users;
            u in after && after[u].email == w.users[u].email && after[u].passwordHash == w.users[u].passwordHash
  {
  }

  /** In every run of any table and any accounts, no user row disappears and no email or password hash changes. */
  lemma {:induction false} PasswordsNeverChange(ws: seq<World>, steps: seq<Step>, accounts: Accounts, n: nat, u: nat)
    requires IsRun(ws, steps, accounts) && n < |ws| && u in ws[0].users
    ensures u in ws[n].users && ws[n].users[u].email == ws[0].users[u].email
    ensures ws[n].users[u].passwordHash == ws[0].users[u].passwordHash
  {
    if n > 0 {
      PasswordsNeverChange(ws, steps, accounts, n - 1, u);
      StepKeepsPasswords(ws[n - 1], steps[n - 1], accounts, u);
    }
  }
}
