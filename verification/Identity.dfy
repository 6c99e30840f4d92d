/**
 Accounts, sessions and password-reset tokens (internal/auth/service.go).

 Tokens are named by their hash, taken to be injective; times are whole seconds,
 read once per call and passed in.
 */
module Identity {

  /** Users are kept under their unique normalised email. */
  datatype User = User(id: string, password: string)

  datatype Session = Session(userId: string, expiresAt: int)

  datatype ResetToken = ResetToken(userId: string, expiresAt: int, used: bool)

  datatype Db = Db(users: map<string, User>, sessions: map<string, Session>, resets: map<string, ResetToken>)

  datatype Answer =
    | Done
    | Who(userId: string)
    | InvalidCredentials
    | SessionNotFound
    | NoSuchAccount
    | WeakPassword
    | ResetTokenInvalid
    | EmailTaken
    | Failed

  datatype Request =
    | SignUp(email: string, id: string, password: string, now: int)
    | Login(email: string, password: string, token: string, now: int)
    | Validate(token: string, now: int)
    | Logout(token: string, now: int)
    | RevokeAllSessions(userId: string, now: int)
    | CreateResetToken(email: string, token: string, now: int)
    // `fails`: some statement of the transaction fails, and it rolls back.
    | ResetPassword(token: string, password: string, now: int, fails: bool)
    | PurgeSessions(now: int)
    | PurgeResetTokens(now: int)
    | DeleteUser(userId: string, now: int)

  const SESSION_TTL := 30 * 24 * 3600
  const RESET_TOKEN_TTL := 3600
  const MIN_PASSWORD := 8

  const EMPTY := Db(map[], map[], map[])

  // ----- Specification ---------------------------------------------------------------

  predicate HasUser(db: Db, id: string) {
    exists email :: email in db.users && db.users[email].id == id
  }

  /** What the session's owner is told at `now`; the last instant still counts. */
  function Validated(db: Db, token: string, now: int): Answer {
    if token in db.sessions && HasUser(db, db.sessions[token].userId) && now <= db.sessions[token].expiresAt
    then Who(db.sessions[token].userId) else SessionNotFound
  }

  predicate Redeemable(db: Db, token: string, now: int) {
    token in db.resets && !db.resets[token].used && now <= db.resets[token].expiresAt
  }

  function WithPassword(users: map<string, User>, id: string, password: string): map<string, User> {
    map email | email in users ::
      if users[email].id == id then users[email].(password := password) else users[email]
  }

  function WithoutSessionsOf(sessions: map<string, Session>, id: string): map<string, Session> {
    map token | token in sessions && sessions[token].userId != id :: sessions[token]
  }

  function AllUsed(resets: map<string, ResetToken>, id: string): map<string, ResetToken> {
    map token | token in resets ::
      if resets[token].userId == id then resets[token].(used := true) else resets[token]
  }

  function WithoutUser(db: Db, id: string): Db {
    Db(map email | email in db.users && db.users[email].id != id :: db.users[email],
       WithoutSessionsOf(db.sessions, id),
       map token | token in db.resets && db.resets[token].userId != id :: db.resets[token])
  }

  function Redeemed(db: Db, id: string, password: string): Db {
    Db(WithPassword(db.users, id, password), WithoutSessionsOf(db.sessions, id), AllUsed(db.resets, id))
  }

  function PurgedSessions(db: Db, now: int): Db {
    db.(sessions := map token | token in db.sessions && db.sessions[token].expiresAt > now :: db.sessions[token])
  }

  function PurgedResets(db: Db, now: int): Db {
    db.(resets := map token | token in db.resets && db.resets[token].expiresAt > now && !db.resets[token].used
        :: db.resets[token])
  }

  function Next(db: Db, r: Request): (Db, Answer) {
    match r
    case SignUp(email, id, password, _) =>
      if |password| < MIN_PASSWORD then (db, WeakPassword)
      else if email in db.users || HasUser(db, id) then (db, EmailTaken)
      else (db.(users := db.users[email := User(id, password)]), Who(id))
    case Login(email, password, token, now) =>
      if email !in db.users || db.users[email].password != password then (db, InvalidCredentials)
      else if token in db.sessions then (db, Failed)
      else
        var id := db.users[email].id;
        (db.(sessions := db.sessions[token := Session(id, now + SESSION_TTL)]), Who(id))
    case Validate(token, now) => (db, Validated(db, token, now))
    case Logout(token, _) => (db.(sessions := db.sessions - {token}), Done)
    case RevokeAllSessions(id, _) => (db.(sessions := WithoutSessionsOf(db.sessions, id)), Done)
    case CreateResetToken(email, token, now) =>
      if email !in db.users then (db, NoSuchAccount)
      else if token in db.resets then (db, Failed)
      else
        var id := db.users[email].id;
        (db.(resets := db.resets[token := ResetToken(id, now + RESET_TOKEN_TTL, false)]), Who(id))
    case ResetPassword(token, password, now, fails) =>
      if |password| < MIN_PASSWORD then (db, WeakPassword)
      else if !Redeemable(db, token, now) then (db, ResetTokenInvalid)
      else if fails then (db, Failed)
      else (Redeemed(db, db.resets[token].userId, password), Who(db.resets[token].userId))
    case PurgeSessions(now) => (PurgedSessions(db, now), Done)
    case PurgeResetTokens(now) => (PurgedResets(db, now), Done)
    case DeleteUser(id, _) => (WithoutUser(db, id), Done)
  }

  // ----- The service -------------------------------------------------------------------

  class Service {
    var users: map<string, User>
    var sessions: map<string, Session>
    var resets: map<string, ResetToken>

    function State(): Db
      reads this
    {
      Db(users, sessions, resets)
    }

    constructor ()
      ensures State() == EMPTY
    {
      users, sessions, resets := map[], map[], map[];
    }

    method SignUp(email: string, id: string, password: string, now: int) returns (answer: Answer)
      modifies this
      ensures (State(), answer) == Next(old(State()), Request.SignUp(email, id, password, now))
    {
      if |password| < MIN_PASSWORD {
        return WeakPassword;
      }
      if email in users || HasUser(State(), id) {
        return EmailTaken;
      }
      users := users[email := User(id, password)];
      return Who(id);
    }

    method Login(email: string, password: string, token: string, now: int) returns (answer: Answer)
      modifies this
      ensures (State(), answer) == Next(old(State()), Request.Login(email, password, token, now))
    {
      if email !in users || users[email].password != password {
        return InvalidCredentials;
      }
      if token in sessions {
        return Failed;
      }
      sessions := sessions[token := Session(users[email].id, now + SESSION_TTL)];
      return Who(users[email].id);
    }

    method ValidateSession(token: string, now: int) returns (answer: Answer)
      ensures (State(), answer) == Next(State(), Validate(token, now))
    {
      if token !in sessions || !HasUser(State(), sessions[token].userId) {
        return SessionNotFound;
      }
      if now > sessions[token].expiresAt {
        return SessionNotFound;
      }
      return Who(sessions[token].userId);
    }

    method Logout(token: string, now: int)
      modifies this
      ensures (State(), Done) == Next(old(State()), Request.Logout(token, now))
    {
      sessions := sessions - {token};
    }

    method RevokeAllSessions(id: string, now: int)
      modifies this
      ensures (State(), Done) == Next(old(State()), Request.RevokeAllSessions(id, now))
    {
      sessions := WithoutSessionsOf(sessions, id);
    }

    method CreateResetToken(email: string, token: string, now: int) returns (answer: Answer)
      modifies this
      ensures (State(), answer) == Next(old(State()), Request.CreateResetToken(email, token, now))
    {
      if email !in users {
        return NoSuchAccount;
      }
      if token in resets {
        return Failed;
      }
      resets := resets[token := ResetToken(users[email].id, now + RESET_TOKEN_TTL, false)];
      return Who(users[email].id);
    }

    /** One transaction: a statement that fails undoes the ones before it. */
    method ResetPassword(token: string, password: string, now: int, failAt: nat) returns (answer: Answer)
      modifies this
      ensures (State(), answer) == Next(old(State()), Request.ResetPassword(token, password, now, failAt < 4))
    {
      if |password| < MIN_PASSWORD {
        return WeakPassword;
      }
      if token !in resets || resets[token].used || now > resets[token].expiresAt {
        return ResetTokenInvalid;
      }
      var id, savedUsers, savedResets, savedSessions := resets[token].userId, users, resets, sessions;
      var statement := 0;
      while statement < 4
        invariant statement <= 4 && statement <= failAt
        invariant users == if statement > 0 then WithPassword(savedUsers, id, password) else savedUsers
        invariant resets == if statement > 1 then AllUsed(savedResets, id) else savedResets
        invariant sessions == if statement > 2 then WithoutSessionsOf(savedSessions, id) else savedSessions
      {
        if statement == failAt {
          users, resets, sessions := savedUsers, savedResets, savedSessions;
          return Failed;
        }
        if statement == 0 {
          users := WithPassword(users, id, password);
        } else if statement == 1 {
          resets := AllUsed(resets, id);
        } else if statement == 2 {
          sessions := WithoutSessionsOf(sessions, id);
        }
        statement := statement + 1;
      }
      return Who(id);
    }

    method PurgeExpiredSessions(now: int)
      modifies this
      ensures (State(), Done) == Next(old(State()), PurgeSessions(now))
    {
      sessions := map token | token in sessions && sessions[token].expiresAt > now :: sessions[token];
    }

    method PurgeExpiredResetTokens(now: int)
      modifies this
      ensures (State(), Done) == Next(old(State()), PurgeResetTokens(now))
    {
      resets := map token | token in resets && resets[token].expiresAt > now && !resets[token].used :: resets[token];
    }

    /** The foreign keys cascade to sessions and reset tokens. */
    method DeleteUser(id: string, now: int)
      modifies this
      ensures (State(), Done) == Next(old(State()), Request.DeleteUser(id, now))
    {
      users := map email | email in users && users[email].id != id :: users[email];
      sessions := WithoutSessionsOf(sessions, id);
      resets := map token | token in resets && resets[token].userId != id :: resets[token];
    }
  }

  // ----- Runs ------------------------------------------------------------------------

  function After(db: Db, rs: seq<Request>): Db
    decreases |rs|
  {
    if rs == [] then db else After(Next(db, rs[0]).0, rs[1..])
  }

  /** How often the token is redeemed with success. */
  function Redemptions(db: Db, rs: seq<Request>, token: string): nat
    decreases |rs|
  {
    if rs == [] then 0
    else
      (if rs[0].ResetPassword? && rs[0].token == token && Next(db, rs[0]).1.Who? then 1 else 0)
      + Redemptions(Next(db, rs[0]).0, rs[1..], token)
  }

  function Issues(rs: seq<Request>, token: string): nat {
    if rs == [] then 0
    else (if rs[0].CreateResetToken? && rs[0].token == token then 1 else 0) + Issues(rs[1..], token)
  }

  predicate Live(db: Db, token: string) {
    token in db.resets && !db.resets[token].used
  }

  lemma StepSpends(db: Db, r: Request, token: string)
    ensures var (next, answer) := Next(db, r);
      && (Live(next, token) ==> Live(db, token) || (r.CreateResetToken? && r.token == token))
      && (r.ResetPassword? && r.token == token && answer.Who? ==> Live(db, token) && !Live(next, token))
  {
  }

  /** A reset token is redeemed at most once per time it is issued, however the requests interleave. */
  lemma {:induction false} RedeemedOncePerIssue(db: Db, rs: seq<Request>, token: string)
    ensures Redemptions(db, rs, token) <= Issues(rs, token) + if Live(db, token) then 1 else 0
    decreases |rs|
  {
    if rs != [] {
      StepSpends(db, rs[0], token);
      hide Next, Live;
      RedeemedOncePerIssue(Next(db, rs[0]).0, rs[1..], token);
    }
  }

  /** From an empty database and with tokens issued once, each token redeems at most once. */
  lemma SingleUse(rs: seq<Request>, token: string)
    requires Issues(rs, token) <= 1
    ensures Redemptions(EMPTY, rs, token) <= 1
  {
    RedeemedOncePerIssue(EMPTY, rs, token);
  }

  predicate Reissues(r: Request, token: string) {
    (r.CreateResetToken? || r.Login?) && r.token == token
  }

  /**
   A successful redemption kills every session and reset token its user had:
   whatever happens next, short of the very same token being issued anew, none of
   them is accepted again.
   */
  lemma ResetKillsEarlierTokens(db: Db, r: Request, later: seq<Request>, token: string, now: int)
    requires r.ResetPassword? && Next(db, r).1.Who?
    requires forall i :: 0 <= i < |later| ==> !Reissues(later[i], token)
    ensures var end := After(Next(db, r).0, later);
      var id := Next(db, r).1.userId;
      && (token in db.sessions && db.sessions[token].userId == id ==> Validated(end, token, now) == SessionNotFound)
      && (token in db.resets && db.resets[token].userId == id ==> !Redeemable(end, token, now))
  {
    var next, id := Next(db, r).0, Next(db, r).1.userId;
    if token in db.sessions && db.sessions[token].userId == id {
      SessionStaysGone(next, later, token);
    }
    if token in db.resets && db.resets[token].userId == id {
      ResetStaysDead(next, later, token);
    }
  }

  lemma {:induction false} SessionStaysGone(db: Db, rs: seq<Request>, token: string)
    requires token !in db.sessions && forall i :: 0 <= i < |rs| ==> !Reissues(rs[i], token)
    ensures token !in After(db, rs).sessions
    decreases |rs|
  {
    if rs != [] {
      SessionStaysGone(Next(db, rs[0]).0, rs[1..], token);
    }
  }

  lemma {:induction false} ResetStaysDead(db: Db, rs: seq<Request>, token: string)
    requires !Live(db, token) && forall i :: 0 <= i < |rs| ==> !Reissues(rs[i], token)
    ensures !Live(After(db, rs), token)
    decreases |rs|
  {
    if rs != [] {
      StepSpends(db, rs[0], token);
      ResetStaysDead(Next(db, rs[0]).0, rs[1..], token);
    }
  }

  /** A session that is logged out of is accepted nowhere and never again, short of its token being issued anew. */
  lemma LogoutEndsSession(db: Db, token: string, at: int, later: seq<Request>, now: int)
    requires forall i :: 0 <= i < |later| ==> !Reissues(later[i], token)
    ensures Validated(After(Next(db, Logout(token, at)).0, later), token, now) == SessionNotFound
  {
    SessionStaysGone(Next(db, Logout(token, at)).0, later, token);
  }

  /** Neither is any session of a user whose sessions are revoked. */
  lemma RevokeEndsSessions(db: Db, id: string, at: int, later: seq<Request>, token: string, now: int)
    requires token in db.sessions && db.sessions[token].userId == id
    requires forall i :: 0 <= i < |later| ==> !Reissues(later[i], token)
    ensures Validated(After(Next(db, RevokeAllSessions(id, at)).0, later), token, now) == SessionNotFound
  {
    SessionStaysGone(Next(db, RevokeAllSessions(id, at)).0, later, token);
  }

  // ----- What a request leaves alone -----------------------------------------------

  /** The request is about that user: their id, account, session or reset token. (A purge is about everyone.) */
  predicate About(db: Db, r: Request, id: string) {
    match r
    case SignUp(_, id', _, _) => id' == id
    case Login(email, _, _, _) => email in db.users && db.users[email].id == id
    case CreateResetToken(email, _, _) => email in db.users && db.users[email].id == id
    case Logout(token, _) => token in db.sessions && db.sessions[token].userId == id
    case ResetPassword(token, _, _, _) => token in db.resets && db.resets[token].userId == id
    case RevokeAllSessions(id', _) => id' == id
    case DeleteUser(id', _) => id' == id
    case Validate(_, _) => false
    case PurgeSessions(_) => true
    case PurgeResetTokens(_) => true
  }

  /** The same account, sessions and reset tokens of one user. */
  ghost predicate SameFor(a: Db, b: Db, id: string) {
    && (forall email :: email in a.users && a.users[email].id == id ==>
          email in b.users && b.users[email] == a.users[email])
    && (forall token :: token in a.sessions && a.sessions[token].userId == id ==>
          token in b.sessions && b.sessions[token] == a.sessions[token])
    && (forall token :: token in a.resets && a.resets[token].userId == id ==>
          token in b.resets && b.resets[token] == a.resets[token])
  }

  /** Nothing a request about one user does is seen by another: nothing of theirs goes, changes or is added. */
  lemma OthersKeepTheirs(db: Db, r: Request, id: string)
    requires !About(db, r, id)
    ensures SameFor(db, Next(db, r).0, id) && SameFor(Next(db, r).0, db, id)
  {
    hide HasUser, Validated;
  }

  /** And a logout leaves the subject's own other sessions as they were. */
  lemma LogoutEndsOnlyOne(db: Db, token: string, at: int, other: string, now: int)
    requires other != token
    ensures Validated(Next(db, Logout(token, at)).0, other, now) == Validated(db, other, now)
  {
    var next := Next(db, Logout(token, at)).0;
    assert forall id :: HasUser(next, id) == HasUser(db, id);
    hide HasUser;
  }

  /** A request that is refused, or fails, has changed nothing. */
  lemma RefusedChangesNothing(db: Db, r: Request)
    requires !Next(db, r).1.Who? && Next(db, r).1 != Done
    ensures Next(db, r).0 == db
  {
    hide HasUser, WithoutUser, PurgedSessions, PurgedResets, WithoutSessionsOf, Redeemed;
  }

  /** A purge takes exactly what has run out, and reset tokens that are used up. */
  lemma PurgesTakeWhatIsDead(db: Db, now: int, token: string)
    ensures var next := Next(db, PurgeSessions(now)).0;
      && next.users == db.users && next.resets == db.resets
      && (token in next.sessions <==> token in db.sessions && now < db.sessions[token].expiresAt)
      && (token in next.sessions ==> next.sessions[token] == db.sessions[token])
    ensures var next := Next(db, PurgeResetTokens(now)).0;
      && next.users == db.users && next.sessions == db.sessions
      && (token in next.resets <==>
            token in db.resets && !db.resets[token].used && now < db.resets[token].expiresAt)
      && (token in next.resets ==> next.resets[token] == db.resets[token])
  {
  }

  // ----- Signing up and logging in ---------------------------------------------------

  /**
   An account is made exactly if the password has eight characters, the email is free
   and the id new; from then on that password logs in to it, and no other.
   */
  lemma SignUpIff(db: Db, r: Request, login: Request)
    requires r.SignUp? && login.Login? && login.email == r.email && login.token !in db.sessions
    ensures var (next, answer) := Next(db, r);
      && (answer == Who(r.id) <==> |r.password| >= 8 && r.email !in db.users && !HasUser(db, r.id))
      && (answer == WeakPassword <==> |r.password| < 8)
      && (answer.Who? ==> (Next(next, login).1 == Who(r.id) <==> login.password == r.password))
      && (answer.Who? ==>
            next.sessions == db.sessions && next.resets == db.resets && next.users - {r.email} == db.users)
  {
    hide HasUser;
    if Next(db, r).1.Who? {
      assert Next(db, r).0.users - {r.email} == db.users;
    }
  }

  /** A login opens a session exactly if the account is there, the password is its own and the token is new. */
  lemma LoginIff(db: Db, r: Request)
    requires r.Login?
    ensures var (next, answer) := Next(db, r);
      var right := r.email in db.users && db.users[r.email].password == r.password;
      && (answer == InvalidCredentials <==> !right)
      && (answer.Who? <==> right && r.token !in db.sessions)
      && (answer.Who? ==>
            && answer == Who(db.users[r.email].id) && r.token in next.sessions
            && next.sessions[r.token].userId == db.users[r.email].id
            && next.sessions - {r.token} == db.sessions && next.users == db.users && next.resets == db.resets)
  {
    if Next(db, r).1.Who? {
      assert Next(db, r).0.sessions - {r.token} == db.sessions;
    }
  }

  // ----- Purging is invisible --------------------------------------------------------

  predicate Purge(r: Request) {
    r.PurgeSessions? || r.PurgeResetTokens?
  }

  /** The answers to everything but purges. */
  function Answers(db: Db, rs: seq<Request>): seq<Answer>
    decreases |rs|
  {
    if rs == [] then []
    else (if Purge(rs[0]) then [] else [Next(db, rs[0]).1]) + Answers(Next(db, rs[0]).0, rs[1..])
  }

  function WithoutPurges(rs: seq<Request>): seq<Request> {
    if rs == [] then [] else (if Purge(rs[0]) then [] else [rs[0]]) + WithoutPurges(rs[1..])
  }

  /** The later request reads an expiry that the purge has acted on. */
  predicate ReadsPurged(purge: Request, later: Request) {
    (purge.PurgeSessions? && later.Validate?) || (purge.PurgeResetTokens? && later.ResetPassword?)
  }

  /** Whatever reads an expiry after the purge of it happens strictly later. */
  predicate PurgesSettle(rs: seq<Request>) {
    forall i, j :: 0 <= i < j < |rs| && ReadsPurged(rs[i], rs[j]) ==> rs[i].now < rs[j].now
  }

  predicate SessionIsDead(s: Session, rs: seq<Request>) {
    forall i :: 0 <= i < |rs| && rs[i].Validate? ==> s.expiresAt < rs[i].now
  }

  predicate ResetIsDead(t: ResetToken, rs: seq<Request>) {
    t.used || forall i :: 0 <= i < |rs| && rs[i].ResetPassword? ==> t.expiresAt < rs[i].now
  }

  /** New tokens differ from those of every row, purged or not. */
  predicate TokensAreNew(db: Db, rs: seq<Request>)
    decreases |rs|
  {
    rs == [] ||
      (if Purge(rs[0]) then TokensAreNew(db, rs[1..])
       else
         && (rs[0].Login? ==> rs[0].token !in db.sessions)
         && (rs[0].CreateResetToken? ==> rs[0].token !in db.resets)
         && TokensAreNew(Next(db, rs[0]).0, rs[1..]))
  }

  /** The same rows but for some that are dead to every request to come. */
  ghost predicate SessionsAlike(full: map<string, Session>, lean: map<string, Session>, rs: seq<Request>) {
    && (forall token :: token in lean ==> token in full && full[token] == lean[token])
    && (forall token :: token in full && token !in lean ==> SessionIsDead(full[token], rs))
  }

  ghost predicate ResetsAlike(full: map<string, ResetToken>, lean: map<string, ResetToken>, rs: seq<Request>) {
    && (forall token :: token in lean ==> token in full && full[token] == lean[token])
    && (forall token :: token in full && token !in lean ==> ResetIsDead(full[token], rs))
  }

  ghost predicate Alike(full: Db, lean: Db, rs: seq<Request>) {
    && full.users == lean.users && SessionsAlike(full.sessions, lean.sessions, rs)
    && ResetsAlike(full.resets, lean.resets, rs)
  }

  lemma LaterAlike(full: Db, lean: Db, rs: seq<Request>)
    requires rs != [] && Alike(full, lean, rs)
    ensures Alike(full, lean, rs[1..])
  {
    forall s: Session | SessionIsDead(s, rs)
      ensures SessionIsDead(s, rs[1..])
    {
    }
    forall t: ResetToken | ResetIsDead(t, rs)
      ensures ResetIsDead(t, rs[1..])
    {
    }
    hide SessionIsDead, ResetIsDead;
  }

  lemma AnswerAlike(full: Db, lean: Db, rs: seq<Request>)
    requires rs != [] && Alike(full, lean, rs) && TokensAreNew(full, rs) && !Purge(rs[0])
    ensures Next(full, rs[0]).1 == Next(lean, rs[0]).1
    ensures rs[0].ResetPassword? ==>
      (Redeemable(full, rs[0].token, rs[0].now) <==> Redeemable(lean, rs[0].token, rs[0].now))
  {
    assert forall id :: HasUser(full, id) == HasUser(lean, id);
    assert rs[0].Validate? ==> forall s: Session :: SessionIsDead(s, rs) ==> s.expiresAt < rs[0].now;
    assert rs[0].ResetPassword? ==> forall t: ResetToken :: ResetIsDead(t, rs) ==> t.used || t.expiresAt < rs[0].now;
    hide SessionIsDead, ResetIsDead, HasUser, WithPassword, WithoutSessionsOf, AllUsed, WithoutUser, TokensAreNew;
  }

  /** A user's rows are dropped, or marked used, alike. */
  lemma SessionsDroppedAlike(full: map<string, Session>, lean: map<string, Session>, id: string, rs: seq<Request>)
    requires SessionsAlike(full, lean, rs)
    ensures SessionsAlike(WithoutSessionsOf(full, id), WithoutSessionsOf(lean, id), rs)
  {
    hide SessionIsDead;
  }

  lemma ResetsUsedAlike(full: map<string, ResetToken>, lean: map<string, ResetToken>, id: string, rs: seq<Request>)
    requires ResetsAlike(full, lean, rs)
    ensures ResetsAlike(AllUsed(full, id), AllUsed(lean, id), rs)
  {
    assert forall t: ResetToken :: ResetIsDead(t, rs) ==> ResetIsDead(t.(used := true), rs);
    hide ResetIsDead;
  }

  lemma UserDroppedAlike(full: Db, lean: Db, id: string, rs: seq<Request>)
    requires Alike(full, lean, rs)
    ensures Alike(WithoutUser(full, id), WithoutUser(lean, id), rs)
  {
    SessionsDroppedAlike(full.sessions, lean.sessions, id, rs);
    hide SessionIsDead, ResetIsDead, SessionsAlike, WithoutSessionsOf;
  }

  lemma ResetPasswordAlike(full: Db, lean: Db, rs: seq<Request>)
    requires rs != [] && Alike(full, lean, rs) && TokensAreNew(full, rs) && rs[0].ResetPassword?
    ensures Alike(Next(full, rs[0]).0, Next(lean, rs[0]).0, rs[1..])
  {
    AnswerAlike(full, lean, rs);
    LaterAlike(full, lean, rs);
    if Redeemable(full, rs[0].token, rs[0].now) {
      SessionsDroppedAlike(full.sessions, lean.sessions, full.resets[rs[0].token].userId, rs[1..]);
      ResetsUsedAlike(full.resets, lean.resets, full.resets[rs[0].token].userId, rs[1..]);
      assert full.resets[rs[0].token] == lean.resets[rs[0].token];
    }
    hide SessionsAlike, ResetsAlike, WithPassword, WithoutSessionsOf, AllUsed, TokensAreNew;
  }

  lemma IssueAlike(full: Db, lean: Db, rs: seq<Request>)
    requires rs != [] && Alike(full, lean, rs) && TokensAreNew(full, rs) && (rs[0].Login? || rs[0].CreateResetToken?)
    ensures Alike(Next(full, rs[0]).0, Next(lean, rs[0]).0, rs[1..])
  {
    LaterAlike(full, lean, rs);
    hide SessionIsDead, ResetIsDead, WithoutUser, WithoutSessionsOf, AllUsed, Redeemable, Validated, HasUser;
    if rs[0].Login? {
      hide ResetsAlike;
    } else {
      hide SessionsAlike;
    }
  }

  lemma StepAlike(full: Db, lean: Db, rs: seq<Request>)
    requires rs != [] && Alike(full, lean, rs) && TokensAreNew(full, rs) && !Purge(rs[0])
    ensures Next(full, rs[0]).1 == Next(lean, rs[0]).1
    ensures Alike(Next(full, rs[0]).0, Next(lean, rs[0]).0, rs[1..])
  {
    AnswerAlike(full, lean, rs);
    LaterAlike(full, lean, rs);
    match rs[0]
    case ResetPassword(_, _, _, _) => ResetPasswordAlike(full, lean, rs);
    case Login(_, _, _, _) => IssueAlike(full, lean, rs);
    case CreateResetToken(_, _, _) => IssueAlike(full, lean, rs);
    case DeleteUser(id, _) =>
      UserDroppedAlike(full, lean, id, rs[1..]);
      hide Alike, WithoutUser, TokensAreNew;
    case RevokeAllSessions(id, _) =>
      SessionsDroppedAlike(full.sessions, lean.sessions, id, rs[1..]);
      hide SessionsAlike, ResetsAlike, WithoutSessionsOf, TokensAreNew;
    case Logout(_, _) => hide SessionIsDead, ResetsAlike, TokensAreNew;
    case SignUp(_, _, _, _) =>
      assert forall id :: HasUser(full, id) == HasUser(lean, id);
      hide SessionsAlike, ResetsAlike, HasUser, TokensAreNew;
    case Validate(_, _) => hide SessionsAlike, ResetsAlike, TokensAreNew;
  }

  lemma PurgeAlike(full: Db, lean: Db, rs: seq<Request>)
    requires rs != [] && Purge(rs[0]) && PurgesSettle(rs) && Alike(full, lean, rs)
    ensures Alike(full, Next(lean, rs[0]).0, rs[1..])
  {
    LaterAlike(full, lean, rs);
    var purge, later := rs[0], rs[1..];
    assert forall i :: 0 <= i < |later| && ReadsPurged(purge, later[i]) ==> purge.now < later[i].now;
    if purge.PurgeSessions? {
      forall s: Session | s.expiresAt <= purge.now
        ensures SessionIsDead(s, later)
      {
        assert forall i :: 0 <= i < |later| && later[i].Validate? ==> ReadsPurged(purge, later[i]);
      }
    } else {
      forall t: ResetToken | t.used || t.expiresAt <= purge.now
        ensures ResetIsDead(t, later)
      {
        assert forall i :: 0 <= i < |later| && later[i].ResetPassword? ==> ReadsPurged(purge, later[i]);
      }
    }
    hide SessionIsDead, ResetIsDead, PurgesSettle;
  }

  /**
   With purges left out of a run, every other request still gets the answer it
   got: a purge is invisible to all but what reads an expiry in the same instant.
   */
  lemma {:induction false} PurgingIsInvisible(full: Db, lean: Db, rs: seq<Request>)
    requires Alike(full, lean, rs) && PurgesSettle(rs) && TokensAreNew(full, rs)
    ensures Answers(lean, rs) == Answers(full, WithoutPurges(rs))
    decreases |rs|
  {
    if rs != [] {
      var rest := rs[1..];
      assert PurgesSettle(rest);
      if Purge(rs[0]) {
        PurgeAlike(full, lean, rs);
        PurgingIsInvisible(full, Next(lean, rs[0]).0, rest);
        assert WithoutPurges(rs) == WithoutPurges(rest);
      } else {
        StepAlike(full, lean, rs);
        PurgingIsInvisible(Next(full, rs[0]).0, Next(lean, rs[0]).0, rest);
        var kept := WithoutPurges(rs);
        assert kept == [rs[0]] + WithoutPurges(rest) && kept[0] == rs[0];
        assert kept[1..] == WithoutPurges(rest);
      }
      hide Next, Alike, PurgesSettle;
    }
  }

  lemma PurgesNeedNotRun(db: Db, rs: seq<Request>)
    requires PurgesSettle(rs) && TokensAreNew(db, rs)
    ensures Answers(db, rs) == Answers(db, WithoutPurges(rs))
  {
    PurgingIsInvisible(db, db, rs);
  }

  /**
   A purge at time t changes a session's answer at a time from t on exactly at the
   boundary: expiry, purge and check in one instant.
   */
  lemma PurgeShowsOnlyAtBoundary(db: Db, t: int, token: string, now: int)
    requires t <= now
    ensures Validated(PurgedSessions(db, t), token, now) != Validated(db, token, now) <==>
      token in db.sessions && HasUser(db, db.sessions[token].userId) && db.sessions[token].expiresAt == t == now
  {
    assert forall id :: HasUser(PurgedSessions(db, t), id) == HasUser(db, id);
    hide HasUser;
  }

  lemma ResetPurgeShowsOnlyAtBoundary(db: Db, t: int, token: string, now: int)
    requires t <= now
    ensures Redeemable(PurgedResets(db, t), token, now) != Redeemable(db, token, now) <==>
      token in db.resets && !db.resets[token].used && db.resets[token].expiresAt == t == now
  {
  }

  // ----- No orphans ---------------------------------------------------------------------

  /** Foreign keys: every session and reset token has its user, and ids are unique. */
  ghost predicate Referential(db: Db) {
    && (forall token :: token in db.sessions ==> HasUser(db, db.sessions[token].userId))
    && (forall token :: token in db.resets ==> HasUser(db, db.resets[token].userId))
    && (forall a, b :: a in db.users && b in db.users && db.users[a].id == db.users[b].id ==> a == b)
  }

  lemma UsersKept(db: Db, r: Request, id: string)
    requires HasUser(db, id) && (r.DeleteUser? ==> r.userId != id)
    ensures HasUser(Next(db, r).0, id)
  {
    var email :| email in db.users && db.users[email].id == id;
    assert email in Next(db, r).0.users && Next(db, r).0.users[email].id == id;
  }

  /** The users a step's sessions and reset tokens name were there before it, and are not the one it deletes. */
  lemma NamedUsersWereThere(db: Db, r: Request)
    requires Referential(db)
    ensures var next := Next(db, r).0;
      && (forall token :: token in next.sessions ==>
            HasUser(db, next.sessions[token].userId) && (r.DeleteUser? ==> r.userId != next.sessions[token].userId))
      && (forall token :: token in next.resets ==>
            HasUser(db, next.resets[token].userId) && (r.DeleteUser? ==> r.userId != next.resets[token].userId))
  {
    assert forall email :: email in db.users ==> HasUser(db, db.users[email].id);
    hide HasUser, WithPassword, Referential;
    if r.Login? || r.CreateResetToken? {
      hide WithoutUser, WithoutSessionsOf, AllUsed, PurgedResets, PurgedSessions, Redeemable;
    } else if r.DeleteUser? {
      hide Redeemable, AllUsed;
    }
  }

  lemma StepKeepsReferential(db: Db, r: Request)
    requires Referential(db)
    ensures Referential(Next(db, r).0)
  {
    hide Next, HasUser;
    var next := Next(db, r).0;
    NamedUsersWereThere(db, r);
    forall token | token in next.sessions
      ensures HasUser(next, next.sessions[token].userId)
    {
      UsersKept(db, r, next.sessions[token].userId);
    }
    forall token | token in next.resets
      ensures HasUser(next, next.resets[token].userId)
    {
      UsersKept(db, r, next.resets[token].userId);
    }
    KeepsIdsUnique(db, r);
  }

  /** A user was there before under the same id, or has just signed up with an id nobody had. */
  lemma UserWasThere(db: Db, r: Request, email: string)
    requires email in Next(db, r).0.users
    ensures var user := Next(db, r).0.users[email];
      || (email in db.users && user.id == db.users[email].id)
      || (r.SignUp? && email == r.email && user.id == r.id && !HasUser(db, user.id))
  {
    hide HasUser, WithoutSessionsOf, AllUsed, Validated;
  }

  lemma KeepsIdsUnique(db: Db, r: Request)
    requires Referential(db)
    ensures var users := Next(db, r).0.users;
      forall a, b :: a in users && b in users && users[a].id == users[b].id ==> a == b
  {
    hide Next;
    var users := Next(db, r).0.users;
    forall a, b | a in users && b in users && users[a].id == users[b].id
      ensures a == b
    {
      UserWasThere(db, r, a);
      UserWasThere(db, r, b);
    }
  }

  /** Over any run, deleting a user leaves none of their sessions and reset tokens, and none ever outlives its user. */
  lemma {:induction false} NoOrphans(db: Db, rs: seq<Request>)
    requires Referential(db)
    ensures Referential(After(db, rs))
    decreases |rs|
  {
    hide Referential, Next;
    if rs != [] {
      StepKeepsReferential(db, rs[0]);
      NoOrphans(Next(db, rs[0]).0, rs[1..]);
    }
  }

  // ----- What is issued works -------------------------------------------------------------

  lemma KeptPassword(users: map<string, User>, id: string, password: string, email: string)
    requires email in users
    ensures email in WithPassword(users, id, password) && WithPassword(users, id, password)[email].id == users[email].id
  {
  }

  /** A session opened by a login validates, as its user's, for exactly thirty days, the last instant included. */
  lemma SessionLastsItsTtl(db: Db, r: Request, now: int)
    requires r.Login? && Next(db, r).1.Who?
    ensures Validated(Next(db, r).0, r.token, now) ==
      if now <= r.now + 30 * 24 * 60 * 60 then Who(db.users[r.email].id) else SessionNotFound
    ensures db.users[r.email].password == r.password
  {
    var next := Next(db, r).0;
    assert next.users[r.email].id == db.users[r.email].id;
    assert HasUser(next, db.users[r.email].id);
  }

  /**
   A reset token, once issued, redeems for exactly an hour if the new password is
   long enough; from then on the new password logs in and no other one does.
   */
  lemma ResetTakesEffect(db: Db, issue: Request, reset: Request, login: Request)
    requires Referential(db) && issue.CreateResetToken? && Next(db, issue).1.Who?
    requires reset.ResetPassword? && reset.token == issue.token && !reset.fails
    requires login.Login? && login.email == issue.email && login.token !in db.sessions
    ensures var issued := Next(db, issue).0;
      var (after, answer) := Next(issued, reset);
      && (answer == Who(db.users[issue.email].id) <==>
            |reset.password| >= 8 && reset.now <= issue.now + 60 * 60)
      && (answer.Who? ==> (Next(after, login).1 == Who(db.users[issue.email].id) <==> login.password == reset.password))
      && (!answer.Who? ==> after == issued)
  {
    var issued := Next(db, issue).0;
    assert issued.users == db.users && Live(issued, issue.token);
    KeptPassword(db.users, db.users[issue.email].id, reset.password, issue.email);
  }
}
