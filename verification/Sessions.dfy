/**
Accounts and sessions (bms/auth.py, AuthStore).

Tokens are random values: a run assumes each one issued is new, and that their
hashes are distinct.  Whether a password is right is an input.
*/
module Sessions {
  import opened Prelude

  type Id = nat
  type Token = string

  const SESSION_TTL_SECONDS := 2592000.0

  /** Rows of app_user and session, by their keys. */
  datatype Account = Account(username: string, active: bool)
  datatype Session = Session(user: Id, expiresAt: real)
  datatype State = State(users: map<Id, Account>, sessions: map<Token, Session>)

  const EMPTY := State(map[], map[])

  datatype Op =
    | CreateUser(id: Id, username: string)
    | SetPassword(username: string)
    | ChangeOwnPassword(user: Id, right: bool)   // right: the old one was right and the new one differs
    | Deactivate(username: string)
    | CreateSession(user: Id, token: Token)
    | Resolve(token: Token)
    | Revoke(token: Token)
    | Purge

  datatype Timed = Timed(op: Op, at: real)

  // ----------------------------------------------------------- what each does

  /** `username = ?` under COLLATE NOCASE, given how case is folded. */
  predicate Named(s: State, id: Id, username: string, fold: string -> string) {
    id in s.users && fold(s.users[id].username) == fold(username)
  }

  /** `revoke_all_sessions`. */
  function RevokeAll(s: State, username: string, fold: string -> string): State {
    s.(sessions := map t | t in s.sessions && !Named(s, s.sessions[t].user, username, fold) :: s.sessions[t])
  }

  function SetInactive(s: State, username: string, fold: string -> string): State {
    s.(users := map id | id in s.users :: if Named(s, id, username, fold) then s.users[id].(active := false) else s.users[id])
  }

  predicate NameTaken(s: State, username: string, fold: string -> string) {
    exists id :: id in s.users && Named(s, id, username, fold)
  }

  function Step(s: State, t: Timed, fold: string -> string): State {
    match t.op
    case CreateUser(id, username) =>
      if id in s.users || NameTaken(s, username, fold) then s else s.(users := s.users[id := Account(username, true)])
    case SetPassword(username) => RevokeAll(s, username, fold)
    case ChangeOwnPassword(user, right) => if user in s.users && right then RevokeAll(s, s.users[user].username, fold) else s
    case Deactivate(username) => RevokeAll(SetInactive(s, username, fold), username, fold)
    case CreateSession(user, token) =>
      if user in s.users then s.(sessions := s.sessions[token := Session(user, t.at + SESSION_TTL_SECONDS)]) else s
    case Resolve(token) =>
      if token in s.sessions && ActiveUser(s, s.sessions[token].user) && s.sessions[token].expiresAt < t.at
      then s.(sessions := s.sessions - {token}) else s
    case Revoke(token) => s.(sessions := s.sessions - {token})
    case Purge => s.(sessions := map token | token in s.sessions && s.sessions[token].expiresAt >= t.at :: s.sessions[token])
  }

  predicate ActiveUser(s: State, id: Id) {
    id in s.users && s.users[id].active
  }

  /** Whom a token stands for. */
  function Resolves(s: State, token: Token, now: real): Option<Id> {
    if token in s.sessions && ActiveUser(s, s.sessions[token].user) && s.sessions[token].expiresAt >= now
    then Some(s.sessions[token].user) else None
  }

  // ------------------------------------------------------ as the code keeps it

  class AuthStore {
    const fold: string -> string
    var users: map<Id, Account>
    var sessions: map<Token, Session>

    ghost function Contents(): State
      reads this
    {
      State(users, sessions)
    }

    constructor (fold: string -> string)
      ensures Contents() == EMPTY && this.fold == fold
    {
      this.fold := fold;
      users, sessions := map[], map[];
    }

    method RevokeAllSessions(username: string)
      modifies this
      ensures Contents() == RevokeAll(old(Contents()), username, fold)
    {
      sessions := map t | t in sessions && !(sessions[t].user in users && fold(users[sessions[t].user].username) == fold(username))
                    :: sessions[t];
    }

    method UpdatePassword(username: string, at: real) returns (found: bool)
      modifies this
      ensures Contents() == Step(old(Contents()), Timed(SetPassword(username), at), fold)
      ensures found == NameTaken(old(Contents()), username, fold)
    {
      found := exists id :: id in users && fold(users[id].username) == fold(username);
      if found {
        RevokeAllSessions(username);
      }
      assert !found ==> RevokeAll(old(Contents()), username, fold).sessions == old(sessions);
    }

    method ReplaceOwnPassword(user: Id, right: bool, at: real) returns (changed: bool)
      modifies this
      ensures Contents() == Step(old(Contents()), Timed(ChangeOwnPassword(user, right), at), fold)
      ensures changed == (user in old(users) && right)
    {
      if user !in users || !right {
        return false;
      }
      RevokeAllSessions(users[user].username);
      changed := true;
    }

    method DeactivateUser(username: string, at: real) returns (found: bool)
      modifies this
      ensures Contents() == Step(old(Contents()), Timed(Deactivate(username), at), fold)
      ensures found == NameTaken(old(Contents()), username, fold)
    {
      found := exists id :: id in users && fold(users[id].username) == fold(username);
      users := map id | id in users :: if fold(users[id].username) == fold(username) then users[id].(active := false) else users[id];
      if found {
        RevokeAllSessions(username);
      }
      assert !found ==> RevokeAll(SetInactive(old(Contents()), username, fold), username, fold).sessions == old(sessions);
    }

    method NewSession(user: Id, token: Token, now: real)
      requires user in users
      modifies this
      ensures Contents() == Step(old(Contents()), Timed(CreateSession(user, token), now), fold)
    {
      sessions := sessions[token := Session(user, now + SESSION_TTL_SECONDS)];
    }

    method ResolveSession(token: Token, now: real) returns (who: Option<Id>)
      modifies this
      ensures Contents() == Step(old(Contents()), Timed(Resolve(token), now), fold)
      ensures who == Resolves(old(Contents()), token, now)
      ensures forall t :: t in sessions <==>
                t in old(sessions) && !(t == token && old(sessions)[t].expiresAt < now && ActiveUser(old(Contents()), old(sessions)[t].user))
    {
      if token !in sessions || sessions[token].user !in users || !users[sessions[token].user].active {
        return None;
      }
      if sessions[token].expiresAt < now {
        sessions := sessions - {token};
        return None;
      }
      who := Some(sessions[token].user);
    }

    method RevokeSession(token: Token, at: real)
      modifies this
      ensures Contents() == Step(old(Contents()), Timed(Revoke(token), at), fold)
    {
      sessions := sessions - {token};
    }

    method PurgeExpiredSessions(now: real) returns (count: nat)
      modifies this
      ensures Contents() == Step(old(Contents()), Timed(Purge, now), fold)
      ensures count == |old(sessions)| - |sessions|
      ensures forall t :: t in sessions <==> t in old(sessions) && old(sessions)[t].expiresAt >= now
    {
      var kept := map token | token in sessions && sessions[token].expiresAt >= now :: sessions[token];
      KeptIsFewer(kept, sessions);
      count := |sessions| - |kept|;
      sessions := kept;
    }
  }

  lemma {:induction false} KeptIsFewer(kept: map<Token, Session>, all: map<Token, Session>)
    requires forall t :: t in kept ==> t in all
    ensures |kept| <= |all|
  {
    var extra := all.Keys - kept.Keys;
    assert all.Keys == kept.Keys + extra;
    assert |kept.Keys| == |kept| && |all.Keys| == |all|;
  }

  // ------------------------------------------------------------------- runs

  function After(run: seq<Timed>, fold: string -> string): State {
    if run == [] then EMPTY else Step(After(run[..|run| - 1], fold), run[|run| - 1], fold)
  }

  ghost predicate ClockForward(run: seq<Timed>) {
    forall i, j :: 0 <= i < j < |run| ==> run[i].at <= run[j].at
  }

  ghost predicate NotBefore(run: seq<Timed>, now: real) {
    forall i :: 0 <= i < |run| ==> run[i].at <= now
  }

  /** A token is issued once. */
  ghost predicate FreshTokens(run: seq<Timed>) {
    forall i, j :: 0 <= i < j < |run| && run[i].op.CreateSession? && run[j].op.CreateSession? ==> run[i].op.token != run[j].op.token
  }

  /** The operation changes the password of `id`, found by its name as the code finds it. */
  predicate ChangesPassword(s: State, t: Timed, id: Id, fold: string -> string) {
    match t.op
    case SetPassword(username) => Named(s, id, username, fold)
    case ChangeOwnPassword(user, right) => right && user in s.users && Named(s, id, s.users[user].username, fold)
    case _ => false
  }

  predicate Deactivates(s: State, t: Timed, id: Id, fold: string -> string) {
    t.op.Deactivate? && Named(s, id, t.op.username, fold)
  }

  predicate Ends(s: State, t: Timed, id: Id, token: Token, fold: string -> string) {
    t.op == Revoke(token) || ChangesPassword(s, t, id, fold) || Deactivates(s, t, id, fold)
  }

  /** Operation `j` of the run ends the sessions of `id`, or this one. */
  ghost predicate EndedAt(run: seq<Timed>, j: int, id: Id, token: Token, fold: string -> string) {
    0 <= j < |run| && Ends(After(run[..j], fold), run[j], id, token, fold)
  }

  /** The session was opened at `i` for `id`, and nothing ended it since. */
  ghost predicate OpenedAt(run: seq<Timed>, i: int, id: Id, token: Token, fold: string -> string) {
    && 0 <= i < |run| && run[i].op == CreateSession(id, token) && id in After(run[..i], fold).users
    && forall j :: i < j < |run| ==> !EndedAt(run, j, id, token, fold)
  }

  lemma {:induction false} Prefix(run: seq<Timed>, i: nat, n: nat)
    requires i <= n <= |run|
    ensures run[..n][..i] == run[..i]
  {
  }

  lemma {:induction false} EndedInPrefix(run: seq<Timed>, n: nat, j: nat, id: Id, token: Token, fold: string -> string)
    requires j < n <= |run|
    ensures EndedAt(run[..n], j, id, token, fold) == EndedAt(run, j, id, token, fold)
  {
    Prefix(run, j, n);
  }

  lemma {:induction false} OpenedSplit(run: seq<Timed>, i: int, id: Id, token: Token, fold: string -> string)
    requires 0 <= i < |run| - 1
    ensures OpenedAt(run, i, id, token, fold)
            <==> OpenedAt(run[..|run| - 1], i, id, token, fold) && !EndedAt(run, |run| - 1, id, token, fold)
  {
    var n := |run| - 1;
    Prefix(run, i, n);
    forall j | i < j < n ensures EndedAt(run[..n], j, id, token, fold) == EndedAt(run, j, id, token, fold) {
      EndedInPrefix(run, n, j, id, token, fold);
    }
  }

  /** What one operation does to the row of a token. */
  lemma {:induction false} RowStep(s: State, t: Timed, token: Token, id: Id, fold: string -> string)
    ensures var r := Step(s, t, fold);
            && (token in r.sessions && r.sessions[token].user == id ==>
                  (t.op == CreateSession(id, token) && id in s.users && r.sessions[token].expiresAt == t.at + SESSION_TTL_SECONDS)
                  || (token in s.sessions && s.sessions[token] == r.sessions[token] && !Ends(s, t, id, token, fold)))
            && (token in s.sessions && s.sessions[token].user == id && !Ends(s, t, id, token, fold)
                && !(t.op.CreateSession? && t.op.token == token) ==>
                  (token in r.sessions && r.sessions[token] == s.sessions[token]) || s.sessions[token].expiresAt < t.at)
            && (t.op == CreateSession(id, token) && id in s.users ==>
                  token in r.sessions && r.sessions[token] == Session(id, t.at + SESSION_TTL_SECONDS))
  {
  }

  /** A row of the session table was opened in the run, is not ended, and expires thirty days after. */
  lemma {:induction false} RowIsHistory(run: seq<Timed>, token: Token, fold: string -> string) returns (i: int)
    requires token in After(run, fold).sessions
    ensures OpenedAt(run, i, After(run, fold).sessions[token].user, token, fold)
    ensures After(run, fold).sessions[token].expiresAt == run[i].at + SESSION_TTL_SECONDS
  {
    var n := |run| - 1;
    var id := After(run, fold).sessions[token].user;
    RowStep(After(run[..n], fold), run[n], token, id, fold);
    if run[n].op == CreateSession(id, token) && id in After(run[..n], fold).users {
      i := n;
    } else {
      i := RowIsHistory(run[..n], token, fold);
      OpenedSplit(run, i, id, token, fold);
    }
  }

  /** And a session opened and not ended is in the table until it expires. */
  lemma {:induction false} HistoryIsRow(run: seq<Timed>, i: int, id: Id, token: Token, now: real, fold: string -> string)
    requires OpenedAt(run, i, id, token, fold) && FreshTokens(run) && NotBefore(run, now)
    requires now <= run[i].at + SESSION_TTL_SECONDS
    ensures token in After(run, fold).sessions && After(run, fold).sessions[token] == Session(id, run[i].at + SESSION_TTL_SECONDS)
  {
    var n := |run| - 1;
    RowStep(After(run[..n], fold), run[n], token, id, fold);
    if i < n {
      OpenedSplit(run, i, id, token, fold);
      assert run[i] == run[..n][i];
      HistoryIsRow(run[..n], i, id, token, now, fold);
    }
  }

  /** So a token resolves exactly when the account is active and a session was opened that nothing ended since. */
  lemma {:induction false} ResolvesOpened(run: seq<Timed>, token: Token, id: Id, now: real, fold: string -> string)
    requires FreshTokens(run) && NotBefore(run, now)
    ensures Resolves(After(run, fold), token, now) == Some(id)
            <==> ActiveUser(After(run, fold), id)
                 && exists i :: OpenedAt(run, i, id, token, fold) && now <= run[i].at + SESSION_TTL_SECONDS
  {
    if Resolves(After(run, fold), token, now) == Some(id) {
      var i := RowIsHistory(run, token, fold);
      assert OpenedAt(run, i, id, token, fold);
    }
    if i :| OpenedAt(run, i, id, token, fold) && now <= run[i].at + SESSION_TTL_SECONDS {
      HistoryIsRow(run, i, id, token, now, fold);
    }
  }

  // ------------------------------------------------ accounts, by the operations

  /** The operation created an account: none created before has its id, or its name but for case. */
  ghost predicate Created(run: seq<Timed>, i: int, fold: string -> string)
    decreases i
  {
    && 0 <= i < |run| && run[i].op.CreateUser?
    && forall j :: 0 <= j < i && Created(run, j, fold) ==>
                     run[j].op.id != run[i].op.id && fold(run[j].op.username) != fold(run[i].op.username)
  }

  ghost predicate AccountAt(run: seq<Timed>, c: int, id: Id, name: string, fold: string -> string) {
    Created(run, c, fold) && run[c].op == CreateUser(id, name)
  }

  lemma {:induction false} CreatedInPrefix(run: seq<Timed>, n: nat, i: int, fold: string -> string)
    requires i < n <= |run|
    ensures Created(run[..n], i, fold) == Created(run, i, fold)
    decreases i
  {
    if 0 <= i {
      forall j | 0 <= j < i ensures Created(run[..n], j, fold) == Created(run, j, fold) {
        CreatedInPrefix(run, n, j, fold);
      }
    }
  }

  lemma {:induction false} CreatedOnce(run: seq<Timed>, b: int, c: int, fold: string -> string)
    requires Created(run, b, fold) && Created(run, c, fold)
    requires run[b].op.id == run[c].op.id || fold(run[b].op.username) == fold(run[c].op.username)
    ensures b == c
  {
  }

  lemma {:induction false} UserStep(s: State, t: Timed, id: Id, fold: string -> string)
    ensures var r := Step(s, t, fold);
            (id in s.users ==> id in r.users && r.users[id].username == s.users[id].username
                               && r.users[id].active == (s.users[id].active && !(t.op.Deactivate? && fold(t.op.username) == fold(s.users[id].username))))
            && (id !in s.users ==>
                  if t.op.CreateUser? && t.op.id == id && !NameTaken(s, t.op.username, fold)
                  then id in r.users && r.users[id] == Account(t.op.username, true) else id !in r.users)
  {
  }

  /** The accounts are those the run created, under the names it gave them. */
  lemma {:induction false} UsersAreCreated(run: seq<Timed>, id: Id, fold: string -> string) returns (c: int)
    ensures id in After(run, fold).users ==> AccountAt(run, c, id, After(run, fold).users[id].username, fold)
    ensures forall i :: Created(run, i, fold) && run[i].op.id == id ==> i == c && id in After(run, fold).users
    decreases |run|, 1
  {
    if run == [] {
      c := 0;
    } else {
      var n := |run| - 1;
      var s := After(run[..n], fold);
      c := UsersAreCreated(run[..n], id, fold);
      UserStep(s, run[n], id, fold);
      CreatedNow(run, fold);
      if id in s.users {
        CreatedInPrefix(run, n, c, fold);
        forall i | Created(run, i, fold) && run[i].op.id == id ensures i == c {
          CreatedOnce(run, i, c, fold);
        }
      } else {
        forall i | Created(run, i, fold) && run[i].op.id == id ensures i == n {
          if i < n { CreatedInPrefix(run, n, i, fold); }
        }
        c := n;
      }
    }
  }

  /** The last operation creates an account exactly when its id and its name are free. */
  lemma {:induction false} CreatedNow(run: seq<Timed>, fold: string -> string)
    requires run != []
    ensures var t, s := run[|run| - 1], After(run[..|run| - 1], fold);
            Created(run, |run| - 1, fold) <==> t.op.CreateUser? && t.op.id !in s.users && !NameTaken(s, t.op.username, fold)
    decreases |run|, 0
  {
    var n := |run| - 1;
    var t, s := run[n], After(run[..n], fold);
    if t.op.CreateUser? {
      if t.op.id in s.users {
        var c := UsersAreCreated(run[..n], t.op.id, fold);
        CreatedInPrefix(run, n, c, fold);
      }
      if id :| id in s.users && Named(s, id, t.op.username, fold) {
        var c := UsersAreCreated(run[..n], id, fold);
        CreatedInPrefix(run, n, c, fold);
      }
      forall j | 0 <= j < n && Created(run, j, fold) && (run[j].op.id == t.op.id || fold(run[j].op.username) == fold(t.op.username))
        ensures t.op.id in s.users || NameTaken(s, t.op.username, fold)
      {
        CreatedInPrefix(run, n, j, fold);
        var c := UsersAreCreated(run[..n], run[j].op.id, fold);
        assert Named(s, run[j].op.id, run[j].op.username, fold);
      }
    }
  }

  predicate DeactivatesName(t: Timed, name: string, fold: string -> string) {
    t.op.Deactivate? && fold(t.op.username) == fold(name)
  }

  /** Nothing after the creation of the account deactivated it. */
  ghost predicate KeptActive(run: seq<Timed>, c: int, name: string, fold: string -> string) {
    forall j :: 0 <= j < |run| && c < j ==> !DeactivatesName(run[j], name, fold)
  }

  /** An account is active exactly when it was created and no later operation deactivated it by its name. */
  lemma {:induction false} ActiveExactly(run: seq<Timed>, id: Id, fold: string -> string)
    ensures ActiveUser(After(run, fold), id)
            <==> exists c, name :: AccountAt(run, c, id, name, fold) && KeptActive(run, c, name, fold)
  {
    var c := UsersAreCreated(run, id, fold);
    if id in After(run, fold).users {
      ActiveSince(run, c, id, After(run, fold).users[id].username, fold);
    }
  }

  lemma {:induction false} ActiveSince(run: seq<Timed>, c: int, id: Id, name: string, fold: string -> string)
    requires AccountAt(run, c, id, name, fold)
    ensures id in After(run, fold).users && After(run, fold).users[id].username == name
    ensures After(run, fold).users[id].active <==> KeptActive(run, c, name, fold)
  {
    var n := |run| - 1;
    var s := After(run[..n], fold);
    UserStep(s, run[n], id, fold);
    if c == n {
      CreatedNow(run, fold);
    } else {
      CreatedInPrefix(run, n, c, fold);
      ActiveSince(run[..n], c, id, name, fold);
      assert KeptActive(run, c, name, fold) <==> KeptActive(run[..n], c, name, fold) && !DeactivatesName(run[n], name, fold) by {
        assert forall j :: 0 <= j < n ==> run[..n][j] == run[j];
      }
    }
  }

  /** The operation ends a session of the account with this name: by logging it out, a password change, or a deactivation. */
  predicate CutsOff(t: Timed, id: Id, name: string, token: Token, fold: string -> string) {
    match t.op
    case Revoke(k) => k == token
    case SetPassword(username) => fold(username) == fold(name)
    case ChangeOwnPassword(user, right) => right && user == id
    case Deactivate(username) => fold(username) == fold(name)
    case _ => false
  }

  /** Of accounts no two have the same name but for case. */
  lemma {:induction false} NamesApart(run: seq<Timed>, a: Id, b: Id, fold: string -> string)
    requires var s := After(run, fold); a in s.users && b in s.users && fold(s.users[a].username) == fold(s.users[b].username)
    ensures a == b
  {
    var c := UsersAreCreated(run, a, fold);
    var d := UsersAreCreated(run, b, fold);
    CreatedOnce(run, c, d, fold);
  }

  lemma {:induction false} EndsByName(run: seq<Timed>, c: int, j: nat, id: Id, name: string, token: Token, fold: string -> string)
    requires AccountAt(run, c, id, name, fold) && c < j < |run|
    ensures EndedAt(run, j, id, token, fold) <==> CutsOff(run[j], id, name, token, fold)
  {
    var s := After(run[..j], fold);
    CreatedInPrefix(run, j, c, fold);
    ActiveSince(run[..j], c, id, name, fold);
    if run[j].op.ChangeOwnPassword? && run[j].op.user in s.users && Named(s, id, s.users[run[j].op.user].username, fold) {
      NamesApart(run[..j], id, run[j].op.user, fold);
    }
  }

  /**
  The session of the token was opened at `i` for the account created at `c`, it
  is not more than thirty days old, nothing ended it, and nothing deactivated the
  account.  All of it is said in the operations of the run.
  */
  ghost predicate OpenFor(run: seq<Timed>, c: int, i: int, id: Id, name: string, token: Token, now: real, fold: string -> string) {
    && AccountAt(run, c, id, name, fold) && KeptActive(run, c, name, fold)
    && c < i < |run| && run[i].op == CreateSession(id, token) && now <= run[i].at + 2592000.0
    && forall j :: i < j < |run| ==> !CutsOff(run[j], id, name, token, fold)
  }

  lemma {:induction false} OpenedByName(run: seq<Timed>, c: int, i: int, id: Id, name: string, token: Token, fold: string -> string)
    requires AccountAt(run, c, id, name, fold)
    ensures OpenedAt(run, i, id, token, fold)
            <==> c < i < |run| && run[i].op == CreateSession(id, token)
                 && forall j :: i < j < |run| ==> !CutsOff(run[j], id, name, token, fold)
  {
    if 0 <= i < |run| && run[i].op == CreateSession(id, token) {
      if c < i {
        CreatedInPrefix(run, i, c, fold);
        ActiveSince(run[..i], c, id, name, fold);
        forall j | i < j < |run| ensures EndedAt(run, j, id, token, fold) <==> CutsOff(run[j], id, name, token, fold) {
          EndsByName(run, c, j, id, name, token, fold);
        }
      } else if id in After(run[..i], fold).users {
        var b := UsersAreCreated(run[..i], id, fold);
        CreatedInPrefix(run, i, b, fold);
        CreatedOnce(run, b, c, fold);
      }
    }
  }

  /**
  A token resolves to an account exactly when its session was opened for that
  account at most thirty days ago, neither logged out since nor cut by a password
  change of the account or its deactivation, and the account, created before, was
  never deactivated.
  */
  lemma {:induction false} ResolvesExactly(run: seq<Timed>, token: Token, id: Id, now: real, fold: string -> string)
    requires FreshTokens(run) && NotBefore(run, now)
    ensures Resolves(After(run, fold), token, now) == Some(id)
            <==> exists c, i, name :: OpenFor(run, c, i, id, name, token, now, fold)
  {
    ResolvesOpened(run, token, id, now, fold);
    ActiveExactly(run, id, fold);
    forall c, i, name | AccountAt(run, c, id, name, fold)
      ensures OpenedAt(run, i, id, token, fold) && now <= run[i].at + SESSION_TTL_SECONDS && KeptActive(run, c, name, fold)
              <==> OpenFor(run, c, i, id, name, token, now, fold)
    {
      OpenedByName(run, c, i, id, name, token, fold);
    }
  }

  /** No token works that was issued before the account's last password change, whoever made it. */
  lemma {:induction false} PasswordChangeCutsAll(run: seq<Timed>, k: nat, token: Token, id: Id, now: real, fold: string -> string)
    requires FreshTokens(run) && NotBefore(run, now) && k < |run| && ChangesPassword(After(run[..k], fold), run[k], id, fold)
    requires Resolves(After(run, fold), token, now) == Some(id)
    ensures exists i :: k < i < |run| && run[i].op == CreateSession(id, token)
  {
    ResolvesOpened(run, token, id, now, fold);
    var i :| OpenedAt(run, i, id, token, fold) && now <= run[i].at + SESSION_TTL_SECONDS;
    assert EndedAt(run, k, id, token, fold) && run[k].op != CreateSession(id, token);
  }

  // ------------------------------------------------------------ deactivation

  predicate Inactive(s: State, id: Id) {
    id in s.users && !s.users[id].active
  }

  lemma {:induction false} StaysInactive(s: State, t: Timed, id: Id, fold: string -> string)
    requires Inactive(s, id)
    ensures Inactive(Step(s, t, fold), id)
  {
  }

  lemma {:induction false} AfterOneMore(run: seq<Timed>, t: Timed, fold: string -> string)
    ensures After(run + [t], fold) == Step(After(run, fold), t, fold)
  {
    assert (run + [t])[..|run|] == run;
  }

  lemma {:induction false} InactiveForGood(run: seq<Timed>, more: seq<Timed>, id: Id, fold: string -> string)
    requires Inactive(After(run, fold), id)
    ensures Inactive(After(run + more, fold), id)
  {
    if more == [] {
      assert run + more == run;
    } else {
      var init, last := more[..|more| - 1], more[|more| - 1];
      InactiveForGood(run, init, id, fold);
      assert run + more == (run + init) + [last];
      OneMoreInactive(run + init, last, id, fold);
    }
  }

  lemma {:induction false} OneMoreInactive(run: seq<Timed>, last: Timed, id: Id, fold: string -> string)
    requires Inactive(After(run, fold), id)
    ensures Inactive(After(run + [last], fold), id)
  {
    AfterOneMore(run, last, fold);
    StaysInactive(After(run, fold), last, id, fold);
  }

  lemma {:induction false} BecomesInactive(s: State, t: Timed, id: Id, fold: string -> string)
    requires Deactivates(s, t, id, fold)
    ensures Inactive(Step(s, t, fold), id)
  {
  }

  /** After a deactivation nothing ever resolves to the account again. */
  lemma {:induction false} DeactivationIsPermanent(run: seq<Timed>, k: nat, token: Token, id: Id, now: real, fold: string -> string)
    requires k < |run| && Deactivates(After(run[..k], fold), run[k], id, fold)
    ensures Resolves(After(run, fold), token, now) != Some(id)
  {
    assert run[..k + 1] == run[..k] + [run[k]] && run == run[..k + 1] + run[k + 1..];
    AfterOneMore(run[..k], run[k], fold);
    BecomesInactive(After(run[..k], fold), run[k], id, fold);
    InactiveForGood(run[..k + 1], run[k + 1..], id, fold);
  }

  // ----------------------------------------------------------------- purging

  function WithoutPurges(run: seq<Timed>): seq<Timed> {
    if run == [] then []
    else WithoutPurges(run[..|run| - 1]) + if run[|run| - 1].op.Purge? then [] else [run[|run| - 1]]
  }

  /** Same accounts, and the same sessions but for expired ones. */
  ghost predicate SameLive(a: State, b: State, now: real) {
    && a.users == b.users
    && forall t :: LiveRow(a, t, now) == LiveRow(b, t, now)
  }

  function LiveRow(s: State, token: Token, now: real): Option<Session> {
    if token in s.sessions && s.sessions[token].expiresAt >= now then Some(s.sessions[token]) else None
  }

  lemma {:induction false} LiveLater(s: State, token: Token, early: real, late: real)
    requires early <= late
    ensures LiveRow(s, token, late)
            == match LiveRow(s, token, early) case None => None case Some(r) => if r.expiresAt >= late then Some(r) else None
  {
  }

  /** What an operation leaves of a live row depends on the accounts and the live row alone. */
  lemma {:induction false} StepLive(s: State, t: Timed, token: Token, fold: string -> string)
    ensures LiveRow(Step(s, t, fold), token, t.at)
            == (match t.op
                case CreateSession(user, k) =>
                  if k == token && user in s.users then Some(Session(user, t.at + SESSION_TTL_SECONDS)) else LiveRow(s, token, t.at)
                case _ =>
                  var row := LiveRow(s, token, t.at);
                  if row.Some? && Ends(s, t, row.value.user, token, fold) then None else row)
  {
  }

  lemma {:induction false} StepUsers(a: State, b: State, t: Timed, fold: string -> string)
    requires a.users == b.users
    ensures Step(a, t, fold).users == Step(b, t, fold).users
    ensures forall id, token :: Ends(a, t, id, token, fold) == Ends(b, t, id, token, fold)
  {
    assert NameTaken(a, if t.op.CreateUser? then t.op.username else "", fold)
        == NameTaken(b, if t.op.CreateUser? then t.op.username else "", fold) by {
      if id :| id in a.users && Named(a, id, if t.op.CreateUser? then t.op.username else "", fold) {
        assert Named(b, id, if t.op.CreateUser? then t.op.username else "", fold);
      }
      if id :| id in b.users && Named(b, id, if t.op.CreateUser? then t.op.username else "", fold) {
        assert Named(a, id, if t.op.CreateUser? then t.op.username else "", fold);
      }
    }
  }

  lemma {:induction false} StepSameLive(a: State, b: State, t: Timed, fold: string -> string)
    requires SameLive(a, b, t.at)
    ensures SameLive(Step(a, t, fold), Step(b, t, fold), t.at)
  {
    StepUsers(a, b, t, fold);
    forall token ensures LiveRow(Step(a, t, fold), token, t.at) == LiveRow(Step(b, t, fold), token, t.at) {
      StepLive(a, t, token, fold);
      StepLive(b, t, token, fold);
    }
  }

  lemma {:induction false} PurgeSameLive(a: State, t: Timed, fold: string -> string)
    requires t.op.Purge?
    ensures SameLive(Step(a, t, fold), a, t.at)
  {
  }

  lemma {:induction false} SameLiveLater(a: State, b: State, early: real, late: real)
    requires SameLive(a, b, early) && early <= late
    ensures SameLive(a, b, late)
  {
    forall t ensures LiveRow(a, t, late) == LiveRow(b, t, late) {
      LiveLater(a, t, early, late);
      LiveLater(b, t, early, late);
    }
  }

  lemma {:induction false} PurgesLeaveLive(run: seq<Timed>, now: real, fold: string -> string)
    requires ClockForward(run) && NotBefore(run, now)
    ensures SameLive(After(run, fold), After(WithoutPurges(run), fold), now)
  {
    if run != [] {
      var init, last := run[..|run| - 1], run[|run| - 1];
      var a, b := After(init, fold), After(WithoutPurges(init), fold);
      PurgesLeaveLive(init, last.at, fold);
      if last.op.Purge? {
        PurgeSameLive(a, last, fold);
        assert WithoutPurges(run) == WithoutPurges(init);
        assert SameLive(After(run, fold), b, last.at);
      } else {
        StepSameLive(a, b, last, fold);
        AfterOneMore(WithoutPurges(init), last, fold);
      }
      SameLiveLater(After(run, fold), After(WithoutPurges(run), fold), last.at, now);
    }
  }

  /** Purging expired sessions, any number of times, changes no resolution. */
  lemma {:induction false} PurgeChangesNothing(run: seq<Timed>, token: Token, now: real, fold: string -> string)
    requires ClockForward(run) && NotBefore(run, now)
    ensures Resolves(After(run, fold), token, now) == Resolves(After(WithoutPurges(run), fold), token, now)
  {
    PurgesLeaveLive(run, now, fold);
    var a, b := After(run, fold), After(WithoutPurges(run), fold);
    assert LiveRow(a, token, now) == LiveRow(b, token, now);
  }
}
