/**
Step-up verification before a door opens (bms/passkeys.py; the gate of
bms/api.py, require_recent_verification and unlock_door).

Challenges are random values: a run assumes each one issued is new.  What the
WebAuthn library says about a signature is an input.  The clock never goes back.
*/
module Passkeys {
  import opened Prelude

  type User = nat
  type Challenge = string

  datatype Purpose = ForRegister | ForAuthenticate

  const CHALLENGE_TTL_SECONDS := 180.0
  const VERIFICATION_WINDOW_SECONDS := 90.0

  /** Rows of webauthn_challenge and webauthn_credential, by their keys. */
  datatype Issued = Issued(user: User, purpose: Purpose, expiresAt: real)
  datatype Credential = Credential(user: User, signCount: nat)

  datatype State = State(challenges: map<Challenge, Issued>, credentials: map<string, Credential>, verifiedAt: map<User, real>)

  const EMPTY := State(map[], map[], map[])

  /** What users ask for; `assertion` and `attestation` are the library's verdict and what it extracted. */
  datatype Op =
    | RegistrationOptions(user: User, challenge: Challenge)
    | Register(user: User, challenge: Challenge, attestation: Option<(string, nat)>)
    | AuthenticationOptions(user: User, challenge: Challenge)
    | Verify(user: User, challenge: Challenge, credential: string, assertion: Option<nat>)
    | DeleteCredential(user: User, credential: string)
    | Unlock(user: User)
    | Restart

  /** An operation, when it first looked at the clock and when it last did. */
  datatype Timed = Timed(op: Op, begun: real, done: real)

  // ----------------------------------------------------------- what each does

  predicate HasPasskey(s: State, user: User) {
    exists id :: id in s.credentials && s.credentials[id].user == user
  }

  predicate RecentlyVerified(s: State, user: User, now: real) {
    user in s.verifiedAt && now - s.verifiedAt[user] <= VERIFICATION_WINDOW_SECONDS
  }

  /** `DELETE ... WHERE user_id = ? AND purpose = ?`, then `INSERT`. */
  function IssueChallenge(s: State, user: User, purpose: Purpose, challenge: Challenge, now: real): State {
    var kept := map c | c in s.challenges && !(s.challenges[c].user == user && s.challenges[c].purpose == purpose) :: s.challenges[c];
    s.(challenges := kept[challenge := Issued(user, purpose, now + CHALLENGE_TTL_SECONDS)])
  }

  /** Deleted whether or not it is any good. */
  function Consume(s: State, challenge: Challenge): State {
    s.(challenges := s.challenges - {challenge})
  }

  predicate Good(s: State, user: User, purpose: Purpose, challenge: Challenge, now: real) {
    && challenge in s.challenges
    && s.challenges[challenge].user == user && s.challenges[challenge].purpose == purpose
    && s.challenges[challenge].expiresAt >= now
  }

  /** The assertion is of a credential of this user, the library accepted it, and its counter moved on. */
  predicate Asserted(s: State, user: User, credential: string, assertion: Option<nat>) {
    && credential in s.credentials && s.credentials[credential].user == user
    && assertion.Some? && !(s.credentials[credential].signCount != 0 && assertion.value <= s.credentials[credential].signCount)
  }

  /** The new state, and whether the caller got what it asked for. */
  function Step(s: State, t: Timed, configured: bool): (State, bool) {
    match t.op
    case RegistrationOptions(user, challenge) => (IssueChallenge(s, user, ForRegister, challenge, t.done), true)
    case Register(user, challenge, attestation) =>
      if challenge == "" then (s, false)
      else
        var after := Consume(s, challenge);
        if !Good(s, user, ForRegister, challenge, t.begun) || attestation.None? then (after, false)
        else (after.(credentials := after.credentials[attestation.value.0 := Credential(user, attestation.value.1)]), true)
    case AuthenticationOptions(user, challenge) =>
      if HasPasskey(s, user) then (IssueChallenge(s, user, ForAuthenticate, challenge, t.done), true) else (s, false)
    case Verify(user, challenge, credential, assertion) =>
      if challenge == "" then (s, false)
      else
        var after := Consume(s, challenge);
        if !Good(s, user, ForAuthenticate, challenge, t.begun) || !Asserted(s, user, credential, assertion) then (after, false)
        else (after.(credentials := after.credentials[credential := Credential(user, assertion.value)],
                     verifiedAt := after.verifiedAt[user := t.done]), true)
    case DeleteCredential(user, credential) =>
      if credential in s.credentials && s.credentials[credential].user == user
      then (s.(credentials := s.credentials - {credential}), true) else (s, false)
    case Unlock(user) => (s, !configured || (HasPasskey(s, user) && RecentlyVerified(s, user, t.begun)))
    case Restart => (s.(verifiedAt := map[]), true)
  }

  // ------------------------------------------------------ as the code keeps it

  class PasskeyStore {
    const configured: bool
    var challenges: map<Challenge, Issued>
    var credentials: map<string, Credential>
    var verifiedAt: map<User, real>

    ghost function Contents(): State
      reads this
    {
      State(challenges, credentials, verifiedAt)
    }

    constructor (configured: bool)
      ensures Contents() == EMPTY && this.configured == configured
    {
      this.configured := configured;
      challenges, credentials, verifiedAt := map[], map[], map[];
    }

    method Issue(user: User, purpose: Purpose, challenge: Challenge, now: real)
      modifies this
      ensures Contents() == IssueChallenge(old(Contents()), user, purpose, challenge, now)
    {
      challenges := map c | c in challenges && !(challenges[c].user == user && challenges[c].purpose == purpose) :: challenges[c];
      challenges := challenges[challenge := Issued(user, purpose, now + CHALLENGE_TTL_SECONDS)];
    }

    method ConsumeChallenge(user: User, purpose: Purpose, challenge: Challenge, now: real) returns (good: bool)
      modifies this
      ensures Contents() == Consume(old(Contents()), challenge)
      ensures good == Good(old(Contents()), user, purpose, challenge, now)
    {
      var row := if challenge in challenges && challenges[challenge].user == user && challenges[challenge].purpose == purpose
                 then Some(challenges[challenge]) else None;
      challenges := challenges - {challenge};
      good := row.Some? && !(row.value.expiresAt < now);
    }

    method GetAuthenticationOptions(user: User, challenge: Challenge, begun: real, now: real) returns (ok: bool)
      modifies this
      ensures (Contents(), ok) == Step(old(Contents()), Timed(AuthenticationOptions(user, challenge), begun, now), configured)
    {
      if !exists id :: id in credentials && credentials[id].user == user {
        return false;
      }
      Issue(user, ForAuthenticate, challenge, now);
      ok := true;
    }

    method RegisterDevice(user: User, challenge: Challenge, attestation: Option<(string, nat)>, begun: real, done: real) returns (ok: bool)
      modifies this
      ensures (Contents(), ok) == Step(old(Contents()), Timed(Register(user, challenge, attestation), begun, done), configured)
    {
      if challenge == "" {
        return false;
      }
      var good := ConsumeChallenge(user, ForRegister, challenge, begun);
      if !good || attestation.None? {
        return false;
      }
      credentials := credentials[attestation.value.0 := Credential(user, attestation.value.1)];
      ok := true;
    }

    method VerifyAssertion(user: User, challenge: Challenge, credential: string, assertion: Option<nat>, begun: real, done: real)
      returns (ok: bool)
      modifies this
      ensures (Contents(), ok) == Step(old(Contents()), Timed(Verify(user, challenge, credential, assertion), begun, done), configured)
    {
      if challenge == "" {
        return false;
      }
      var good := ConsumeChallenge(user, ForAuthenticate, challenge, begun);
      if !good {
        return false;
      }
      if credential !in credentials || credentials[credential].user != user {
        return false;
      }
      if assertion.None? {
        return false;
      }
      if credentials[credential].signCount != 0 && assertion.value <= credentials[credential].signCount {
        return false;
      }
      credentials := credentials[credential := Credential(user, assertion.value)];
      verifiedAt := verifiedAt[user := done];
      ok := true;
    }

    method Delete(user: User, credential: string, begun: real, done: real) returns (ok: bool)
      modifies this
      ensures (Contents(), ok) == Step(old(Contents()), Timed(DeleteCredential(user, credential), begun, done), configured)
    {
      ok := credential in credentials && credentials[credential].user == user;
      if ok {
        credentials := credentials - {credential};
      }
    }

    /** `require_recent_verification`: True lets the unlock go on. */
    method RequireRecentVerification(user: User, now: real) returns (ok: bool)
      ensures (Contents(), ok) == Step(Contents(), Timed(Unlock(user), now, now), configured)
    {
      if !configured {
        return true;
      }
      if !exists id :: id in credentials && credentials[id].user == user {
        return false;
      }
      ok := user in verifiedAt && now - verifiedAt[user] <= VERIFICATION_WINDOW_SECONDS;
    }
  }

  // ------------------------------------------------------------------- runs

  function After(run: seq<Timed>, configured: bool): State {
    if run == [] then EMPTY else Step(After(run[..|run| - 1], configured), run[|run| - 1], configured).0
  }

  /** Whether operation `k` of the run was granted. */
  predicate Granted(run: seq<Timed>, k: nat, configured: bool)
    requires k < |run|
  {
    Step(After(run[..k], configured), run[k], configured).1
  }

  /** The clock does not go back, within an operation or between two. */
  ghost predicate ClockForward(run: seq<Timed>) {
    && (forall i :: 0 <= i < |run| ==> run[i].begun <= run[i].done)
    && (forall i, j :: 0 <= i < j < |run| ==> run[i].done <= run[j].begun)
  }

  predicate Issues(t: Timed, challenge: Challenge) {
    (t.op.RegistrationOptions? || t.op.AuthenticationOptions?) && t.op.challenge == challenge
  }

  predicate Presents(t: Timed, challenge: Challenge) {
    (t.op.Register? || t.op.Verify?) && t.op.challenge == challenge
  }

  /** A challenge issued has never been seen before, and is not empty. */
  ghost predicate FreshChallenges(run: seq<Timed>) {
    forall j :: 0 <= j < |run| && (run[j].op.RegistrationOptions? || run[j].op.AuthenticationOptions?) ==>
                  run[j].op.challenge != ""
                  && forall i :: 0 <= i < j ==> !Issues(run[i], run[j].op.challenge) && !Presents(run[i], run[j].op.challenge)
  }

  lemma {:induction false} FreshPrefix(run: seq<Timed>, n: nat)
    requires FreshChallenges(run) && n <= |run|
    ensures FreshChallenges(run[..n])
  {
  }

  lemma {:induction false} Prefix(run: seq<Timed>, i: nat, n: nat)
    requires i <= n <= |run|
    ensures run[..n][..i] == run[..i]
  {
  }

  lemma {:induction false} AfterOneMore(run: seq<Timed>, t: Timed, configured: bool)
    ensures After(run + [t], configured) == Step(After(run, configured), t, configured).0
  {
    assert (run + [t])[..|run|] == run;
  }

  // -------------------------------------------------------- challenge table

  ghost predicate SamePurpose(a: Issued, b: Issued) {
    a.user == b.user && a.purpose == b.purpose
  }

  ghost predicate OnePerPurpose(challenges: map<Challenge, Issued>) {
    forall c, d :: c in challenges && d in challenges && SamePurpose(challenges[c], challenges[d]) ==> c == d
  }

  lemma {:induction false} IssueKeepsOne(s: State, user: User, purpose: Purpose, challenge: Challenge, now: real)
    requires OnePerPurpose(s.challenges)
    ensures OnePerPurpose(IssueChallenge(s, user, purpose, challenge, now).challenges)
  {
  }

  lemma {:induction false} ConsumeKeepsOne(s: State, challenge: Challenge)
    requires OnePerPurpose(s.challenges)
    ensures OnePerPurpose(Consume(s, challenge).challenges)
  {
  }

  /** At most one challenge per user and purpose is ever outstanding. */
  lemma {:induction false} OneOutstanding(run: seq<Timed>, configured: bool)
    ensures OnePerPurpose(After(run, configured).challenges)
  {
    if run != [] {
      var s, t := After(run[..|run| - 1], configured), run[|run| - 1];
      OneOutstanding(run[..|run| - 1], configured);
      match t.op {
        case RegistrationOptions(user, challenge) => IssueKeepsOne(s, user, ForRegister, challenge, t.done);
        case AuthenticationOptions(user, challenge) => IssueKeepsOne(s, user, ForAuthenticate, challenge, t.done);
        case Register(_, challenge, _) => ConsumeKeepsOne(s, challenge);
        case Verify(_, challenge, _, _) => ConsumeKeepsOne(s, challenge);
        case _ =>
      }
    }
  }

  /** Operation `i` of the run put `c` in the table with these columns. */
  ghost predicate IssuedAt(run: seq<Timed>, i: int, c: Challenge, row: Issued, configured: bool) {
    && 0 <= i < |run| && Granted(run, i, configured)
    && row.expiresAt == run[i].done + CHALLENGE_TTL_SECONDS
    && run[i].op == if row.purpose == ForRegister then RegistrationOptions(row.user, c) else AuthenticationOptions(row.user, c)
  }

  lemma {:induction false} IssuedLonger(run: seq<Timed>, n: nat, i: int, c: Challenge, row: Issued, configured: bool)
    requires n <= |run| && IssuedAt(run[..n], i, c, row, configured)
    ensures IssuedAt(run, i, c, row, configured)
  {
    Prefix(run, i, n);
  }

  lemma {:induction false} TableStep(s: State, t: Timed, c: Challenge, configured: bool)
    requires c in Step(s, t, configured).0.challenges
    ensures !Presents(t, c) || c == ""
    ensures (c in s.challenges && s.challenges[c] == Step(s, t, configured).0.challenges[c] && !Issues(t, c))
            || (Issues(t, c) && Step(s, t, configured).1
                && Step(s, t, configured).0.challenges[c]
                   == Issued(t.op.user, if t.op.RegistrationOptions? then ForRegister else ForAuthenticate, t.done + CHALLENGE_TTL_SECONDS))
            || (Issues(t, c) && !Step(s, t, configured).1 && c in s.challenges && s.challenges[c] == Step(s, t, configured).0.challenges[c])
  {
  }

  /** A challenge in the table was issued as the table says, and not presented since. */
  lemma {:induction false} TableIsHistory(run: seq<Timed>, c: Challenge, configured: bool) returns (i: int)
    requires c in After(run, configured).challenges && FreshChallenges(run)
    ensures IssuedAt(run, i, c, After(run, configured).challenges[c], configured)
    ensures forall j :: 0 <= j < |run| ==> !Presents(run[j], c)
  {
    var n := |run| - 1;
    var s, t := After(run[..n], configured), run[n];
    TableStep(s, t, c, configured);
    if Issues(t, c) && Step(s, t, configured).1 {
      i := n;
    } else {
      FreshPrefix(run, n);
      i := TableIsHistory(run[..n], c, configured);
      IssuedLonger(run, n, i, c, s.challenges[c], configured);
      forall j | 0 <= j < |run| ensures !Presents(run[j], c) {
        if j < n { assert run[..n][j] == run[j]; }
      }
    }
  }

  // --------------------------------------------------- the tables, exactly

  /** Operation `j` was given a challenge for this user and purpose. */
  ghost predicate Given(run: seq<Timed>, j: int, user: User, purpose: Purpose, configured: bool) {
    && 0 <= j < |run| && Granted(run, j, configured)
    && match run[j].op
       case RegistrationOptions(u, _) => u == user && purpose == ForRegister
       case AuthenticationOptions(u, _) => u == user && purpose == ForAuthenticate
       case _ => false
  }

  /** The challenge was given to the user at `i` for the purpose; nobody presented it since, and no other was given them for it. */
  ghost predicate Outstanding(run: seq<Timed>, i: int, user: User, purpose: Purpose, c: Challenge, configured: bool) {
    && Given(run, i, user, purpose, configured) && run[i].op.challenge == c
    && forall j :: i < j < |run| ==> !Presents(run[j], c) && !Given(run, j, user, purpose, configured)
  }

  lemma {:induction false} GivenPrefix(run: seq<Timed>, n: nat, j: int, user: User, purpose: Purpose, configured: bool)
    requires j < n <= |run|
    ensures Given(run[..n], j, user, purpose, configured) == Given(run, j, user, purpose, configured)
  {
    if 0 <= j {
      Prefix(run, j, n);
    }
  }

  lemma {:induction false} OutstandingSplit(run: seq<Timed>, i: int, user: User, purpose: Purpose, c: Challenge, configured: bool)
    requires 0 <= i < |run| - 1
    ensures Outstanding(run, i, user, purpose, c, configured)
            <==> Outstanding(run[..|run| - 1], i, user, purpose, c, configured)
                 && !Presents(run[|run| - 1], c) && !Given(run, |run| - 1, user, purpose, configured)
  {
    var n := |run| - 1;
    forall j | 0 <= j < n ensures Given(run[..n], j, user, purpose, configured) == Given(run, j, user, purpose, configured) {
      GivenPrefix(run, n, j, user, purpose, configured);
    }
    assert forall j :: 0 <= j < n ==> run[..n][j] == run[j];
  }

  /** What one operation does to a row of the challenge table. */
  lemma {:induction false} ChallengeStep(s: State, t: Timed, c: Challenge, row: Issued, configured: bool)
    requires c != "" && (Issues(t, c) ==> c !in s.challenges)
    ensures var (r, granted) := Step(s, t, configured);
            var given := granted && ((t.op.RegistrationOptions? && t.op.user == row.user && row.purpose == ForRegister)
                                     || (t.op.AuthenticationOptions? && t.op.user == row.user && row.purpose == ForAuthenticate));
            c in r.challenges && r.challenges[c] == row
            <==> (given && t.op.challenge == c && row.expiresAt == t.done + 180.0)
                 || (c in s.challenges && s.challenges[c] == row && !Presents(t, c) && !given)
  {
  }

  lemma {:induction false} IssuedBefore(run: seq<Timed>, n: nat, c: Challenge, configured: bool)
    requires n <= |run| && FreshChallenges(run) && c in After(run[..n], configured).challenges
    ensures exists i :: 0 <= i < n && Issues(run[i], c)
  {
    FreshPrefix(run, n);
    var i := TableIsHistory(run[..n], c, configured);
    assert Issues(run[..n][i], c) && run[..n][i] == run[i];
  }

  /** The challenge table holds exactly the outstanding challenges, each for 180 seconds. */
  lemma {:induction false} TableExactly(run: seq<Timed>, c: Challenge, row: Issued, configured: bool)
    requires FreshChallenges(run) && c != ""
    ensures c in After(run, configured).challenges && After(run, configured).challenges[c] == row
            <==> exists i :: Outstanding(run, i, row.user, row.purpose, c, configured) && row.expiresAt == run[i].done + 180.0
  {
    if run != [] {
      var n := |run| - 1;
      var s, t := After(run[..n], configured), run[n];
      FreshPrefix(run, n);
      TableExactly(run[..n], c, row, configured);
      if c in s.challenges {
        IssuedBefore(run, n, c, configured);
      }
      ChallengeStep(s, t, c, row, configured);
      forall i | 0 <= i < n
        ensures Outstanding(run, i, row.user, row.purpose, c, configured)
                <==> Outstanding(run[..n], i, row.user, row.purpose, c, configured)
                     && !Presents(t, c) && !Given(run, n, row.user, row.purpose, configured)
      {
        OutstandingSplit(run, i, row.user, row.purpose, c, configured);
      }
      if Given(run, n, row.user, row.purpose, configured) && t.op.challenge == c {
        assert Outstanding(run, n, row.user, row.purpose, c, configured);
      }
      if i :| Outstanding(run[..n], i, row.user, row.purpose, c, configured) && row.expiresAt == run[..n][i].done + 180.0 {
        assert run[..n][i] == run[i];
      }
    }
  }

  /** Operation `j` registered the credential, for whoever asked. */
  ghost predicate RegisteredAt(run: seq<Timed>, j: int, id: string, configured: bool) {
    && 0 <= j < |run| && run[j].op.Register? && Granted(run, j, configured)
    && run[j].op.attestation.Some? && run[j].op.attestation.value.0 == id
  }

  /** The user registered the credential at `i`; nobody registered it since, and the user did not remove it. */
  ghost predicate Holds(run: seq<Timed>, i: int, user: User, id: string, configured: bool) {
    && RegisteredAt(run, i, id, configured) && run[i].op.user == user
    && forall j :: i < j < |run| ==> !RegisteredAt(run, j, id, configured) && run[j].op != DeleteCredential(user, id)
  }

  lemma {:induction false} RegisteredPrefix(run: seq<Timed>, n: nat, j: int, id: string, configured: bool)
    requires j < n <= |run|
    ensures RegisteredAt(run[..n], j, id, configured) == RegisteredAt(run, j, id, configured)
  {
    if 0 <= j {
      Prefix(run, j, n);
    }
  }

  lemma {:induction false} HoldsSplit(run: seq<Timed>, i: int, user: User, id: string, configured: bool)
    requires 0 <= i < |run| - 1
    ensures Holds(run, i, user, id, configured)
            <==> Holds(run[..|run| - 1], i, user, id, configured)
                 && !RegisteredAt(run, |run| - 1, id, configured) && run[|run| - 1].op != DeleteCredential(user, id)
  {
    var n := |run| - 1;
    forall j | 0 <= j < n ensures RegisteredAt(run[..n], j, id, configured) == RegisteredAt(run, j, id, configured) {
      RegisteredPrefix(run, n, j, id, configured);
    }
    assert forall j :: 0 <= j < n ==> run[..n][j] == run[j];
  }

  lemma {:induction false} OwnerStep(s: State, t: Timed, user: User, id: string, configured: bool)
    ensures var (r, granted) := Step(s, t, configured);
            var registered := granted && t.op.Register? && t.op.attestation.Some? && t.op.attestation.value.0 == id;
            id in r.credentials && r.credentials[id].user == user
            <==> (registered && t.op.user == user)
                 || (id in s.credentials && s.credentials[id].user == user && !registered && t.op != DeleteCredential(user, id))
  {
  }

  /** A credential is a user's exactly if that user registered it, nobody else did since, and they did not remove it. */
  lemma {:induction false} OwnedExactly(run: seq<Timed>, user: User, id: string, configured: bool)
    ensures id in After(run, configured).credentials && After(run, configured).credentials[id].user == user
            <==> exists i :: Holds(run, i, user, id, configured)
  {
    if run != [] {
      var n := |run| - 1;
      OwnedExactly(run[..n], user, id, configured);
      OwnerStep(After(run[..n], configured), run[n], user, id, configured);
      forall i | 0 <= i < n
        ensures Holds(run, i, user, id, configured)
                <==> Holds(run[..n], i, user, id, configured) && !RegisteredAt(run, n, id, configured) && run[n].op != DeleteCredential(user, id)
      {
        HoldsSplit(run, i, user, id, configured);
      }
      if RegisteredAt(run, n, id, configured) && run[n].op.user == user {
        assert Holds(run, n, user, id, configured);
      }
    }
  }

  lemma {:induction false} PasskeyExactly(run: seq<Timed>, user: User, configured: bool)
    ensures HasPasskey(After(run, configured), user) <==> exists id, i :: Holds(run, i, user, id, configured)
  {
    if id :| id in After(run, configured).credentials && After(run, configured).credentials[id].user == user {
      OwnedExactly(run, user, id, configured);
    }
    if id, i :| Holds(run, i, user, id, configured) {
      OwnedExactly(run, user, id, configured);
    }
  }

  /** Operation `j` set the counter of the credential: it registered it, or was an assertion that was accepted. */
  ghost predicate SetsCounter(run: seq<Timed>, j: int, id: string, configured: bool) {
    && 0 <= j < |run| && Granted(run, j, configured)
    && match run[j].op
       case Register(_, _, attestation) => attestation.Some? && attestation.value.0 == id
       case Verify(_, _, credential, assertion) => credential == id && assertion.Some?
       case _ => false
  }

  /** The last operation to set it set it to `n`. */
  ghost predicate LastCounted(run: seq<Timed>, j: int, id: string, n: nat, configured: bool) {
    && SetsCounter(run, j, id, configured)
    && n == (if run[j].op.Register? then run[j].op.attestation.value.1 else run[j].op.assertion.value)
    && forall l :: j < l < |run| ==> !SetsCounter(run, l, id, configured)
  }

  lemma {:induction false} SetsPrefix(run: seq<Timed>, k: nat, j: int, id: string, configured: bool)
    requires j < k <= |run|
    ensures SetsCounter(run[..k], j, id, configured) == SetsCounter(run, j, id, configured)
  {
    if 0 <= j {
      Prefix(run, j, k);
    }
  }

  lemma {:induction false} LastCountedSplit(run: seq<Timed>, j: int, id: string, n: nat, configured: bool)
    requires 0 <= j < |run| - 1
    ensures LastCounted(run, j, id, n, configured)
            <==> LastCounted(run[..|run| - 1], j, id, n, configured) && !SetsCounter(run, |run| - 1, id, configured)
  {
    var k := |run| - 1;
    forall l | l < k ensures SetsCounter(run[..k], l, id, configured) == SetsCounter(run, l, id, configured) {
      SetsPrefix(run, k, l, id, configured);
    }
  }

  lemma {:induction false} CountStep(s: State, t: Timed, id: string, configured: bool)
    ensures var (r, granted) := Step(s, t, configured);
            id in r.credentials ==>
              if granted && t.op.Register? && t.op.attestation.Some? && t.op.attestation.value.0 == id
              then r.credentials[id].signCount == t.op.attestation.value.1
              else if granted && t.op.Verify? && t.op.credential == id && t.op.assertion.Some?
              then t.op.assertion.value == r.credentials[id].signCount
              else id in s.credentials && r.credentials[id].signCount == s.credentials[id].signCount
  {
  }

  /** The stored counter is the one last accepted. */
  lemma {:induction false} CounterIsLast(run: seq<Timed>, id: string, configured: bool) returns (j: int)
    requires id in After(run, configured).credentials
    ensures LastCounted(run, j, id, After(run, configured).credentials[id].signCount, configured)
  {
    var k := |run| - 1;
    var s := After(run[..k], configured);
    CountStep(s, run[k], id, configured);
    if SetsCounter(run, k, id, configured) {
      j := k;
    } else {
      j := CounterIsLast(run[..k], id, configured);
      LastCountedSplit(run, j, id, s.credentials[id].signCount, configured);
    }
  }

  lemma {:induction false} OneLastCount(run: seq<Timed>, i: int, j: int, id: string, m: nat, n: nat, configured: bool)
    requires LastCounted(run, i, id, m, configured) && LastCounted(run, j, id, n, configured)
    ensures i == j && m == n
  {
  }

  // --------------------------------------------------- what is granted, exactly

  /** A device is registered exactly with an outstanding challenge for it, at most 180 seconds old, and the library's consent. */
  lemma {:induction false} RegisterExactly(run: seq<Timed>, k: nat, configured: bool)
    requires k < |run| && run[k].op.Register? && FreshChallenges(run)
    ensures Granted(run, k, configured)
            <==> run[k].op.challenge != "" && run[k].op.attestation.Some?
                 && exists i :: Outstanding(run[..k], i, run[k].op.user, ForRegister, run[k].op.challenge, configured)
                                && run[k].begun <= run[i].done + 180.0
  {
    if run[k].op.challenge != "" {
      GoodExactly(run, k, run[k].op.user, ForRegister, run[k].op.challenge, run[k].begun, configured);
    }
  }

  lemma {:induction false} GoodExactly(run: seq<Timed>, k: nat, user: User, purpose: Purpose, c: Challenge, now: real, configured: bool)
    requires k < |run| && FreshChallenges(run) && c != ""
    ensures Good(After(run[..k], configured), user, purpose, c, now)
            <==> exists i :: Outstanding(run[..k], i, user, purpose, c, configured) && now <= run[i].done + 180.0
  {
    var before := run[..k];
    FreshPrefix(run, k);
    forall expiresAt ensures c in After(before, configured).challenges && After(before, configured).challenges[c] == Issued(user, purpose, expiresAt)
                             <==> exists i :: Outstanding(before, i, user, purpose, c, configured) && expiresAt == before[i].done + 180.0 {
      TableExactly(before, c, Issued(user, purpose, expiresAt), configured);
    }
    if Good(After(before, configured), user, purpose, c, now) {
      var e := After(before, configured).challenges[c].expiresAt;
      assert After(before, configured).challenges[c] == Issued(user, purpose, e);
    }
    if i :| Outstanding(before, i, user, purpose, c, configured) && now <= run[i].done + 180.0 {
      assert before[i] == run[i];
      assert After(before, configured).challenges[c] == Issued(user, purpose, before[i].done + 180.0);
    }
  }

  /**
  A verification is accepted exactly with an outstanding challenge of this user for
  it, at most 180 seconds old, a credential the user holds, the library's consent,
  and a counter above the last one accepted, or any if that was zero.
  */
  lemma {:induction false} VerifyExactly(run: seq<Timed>, k: nat, configured: bool)
    requires k < |run| && run[k].op.Verify? && FreshChallenges(run)
    ensures Granted(run, k, configured)
            <==> run[k].op.challenge != "" && run[k].op.assertion.Some?
                 && (exists i :: Outstanding(run[..k], i, run[k].op.user, ForAuthenticate, run[k].op.challenge, configured)
                                 && run[k].begun <= run[i].done + 180.0)
                 && (exists i :: Holds(run[..k], i, run[k].op.user, run[k].op.credential, configured))
                 && (forall j, n :: LastCounted(run[..k], j, run[k].op.credential, n, configured) ==> n == 0 || run[k].op.assertion.value > n)
  {
    var t, before := run[k], run[..k];
    if t.op.challenge != "" {
      GoodExactly(run, k, t.op.user, ForAuthenticate, t.op.challenge, t.begun, configured);
      OwnedExactly(before, t.op.user, t.op.credential, configured);
      if t.op.credential in After(before, configured).credentials {
        var j := CounterIsLast(before, t.op.credential, configured);
        forall i, m | LastCounted(before, i, t.op.credential, m, configured)
          ensures m == After(before, configured).credentials[t.op.credential].signCount
        {
          OneLastCount(before, i, j, t.op.credential, m, After(before, configured).credentials[t.op.credential].signCount, configured);
        }
      }
    }
  }

  /** Options to verify with are given exactly to who holds a passkey; a credential is removed exactly by who holds it. */
  lemma {:induction false} HoldersExactly(run: seq<Timed>, k: nat, configured: bool)
    requires k < |run|
    ensures run[k].op.AuthenticationOptions? ==>
              (Granted(run, k, configured) <==> exists id, i :: Holds(run[..k], i, run[k].op.user, id, configured))
    ensures run[k].op.DeleteCredential? ==>
              (Granted(run, k, configured) <==> exists i :: Holds(run[..k], i, run[k].op.user, run[k].op.credential, configured))
  {
    if run[k].op.AuthenticationOptions? {
      PasskeyExactly(run[..k], run[k].op.user, configured);
    }
    if run[k].op.DeleteCredential? {
      OwnedExactly(run[..k], run[k].op.user, run[k].op.credential, configured);
    }
  }

  // ------------------------------------------------------------ verification

  /** Operation `j` is a verification by `user` that succeeded. */
  ghost predicate VerifiedBy(run: seq<Timed>, j: int, user: User, configured: bool) {
    0 <= j < |run| && run[j].op.Verify? && run[j].op.user == user && Granted(run, j, configured)
  }

  /** No restart after `j`. */
  ghost predicate NoRestart(run: seq<Timed>, j: int) {
    forall i :: 0 <= i < |run| && j < i ==> !run[i].op.Restart?
  }

  lemma {:induction false} VerifiedStep(s: State, t: Timed, user: User, configured: bool)
    ensures var r := Step(s, t, configured);
            if t.op.Verify? && t.op.user == user && r.1 then user in r.0.verifiedAt && r.0.verifiedAt[user] == t.done
            else if t.op.Restart? then user !in r.0.verifiedAt
            else (user in r.0.verifiedAt <==> user in s.verifiedAt)
                 && (user in s.verifiedAt ==> r.0.verifiedAt[user] == s.verifiedAt[user])
  {
  }

  /** A verification that still counts at the end of the run. */
  ghost predicate Counts(run: seq<Timed>, j: int, user: User, configured: bool) {
    VerifiedBy(run, j, user, configured) && NoRestart(run, j)
  }

  /** One more operation: the verifications that counted still do, unless it is a restart. */
  lemma {:induction false} CountsSplit(run: seq<Timed>, j: int, user: User, configured: bool)
    requires 0 <= j < |run| - 1
    ensures Counts(run, j, user, configured)
            <==> Counts(run[..|run| - 1], j, user, configured) && !run[|run| - 1].op.Restart?
  {
    var init := run[..|run| - 1];
    Prefix(run, j, |run| - 1);
    assert forall i :: 0 <= i < |init| ==> init[i] == run[i];
  }

  /** The recorded time is that of the last verification that counts. */
  lemma {:induction false} VerifiedAtIsHistory(run: seq<Timed>, user: User, configured: bool) returns (j: int)
    ensures user in After(run, configured).verifiedAt ==>
              Counts(run, j, user, configured) && After(run, configured).verifiedAt[user] == run[j].done
    ensures forall k :: Counts(run, k, user, configured) ==> user in After(run, configured).verifiedAt && k <= j
  {
    if run == [] {
      j := 0;
    } else {
      var n := |run| - 1;
      VerifiedStep(After(run[..n], configured), run[n], user, configured);
      j := VerifiedAtIsHistory(run[..n], user, configured);
      if user in After(run[..n], configured).verifiedAt {
        CountsSplit(run, j, user, configured);
      }
      if VerifiedBy(run, n, user, configured) {
        j := n;
      }
      forall k | Counts(run, k, user, configured) ensures user in After(run, configured).verifiedAt && k <= j {
        if k < n {
          CountsSplit(run, k, user, configured);
        }
      }
    }
  }

  /**
  With passkeys configured an unlock is granted exactly when the user holds a
  passkey and, since the last restart, completed a verification at most 90 seconds
  before.  Nothing else counts: neither other unlocks nor anyone else's
  verification.  Without them configured it always is.
  */
  lemma {:induction false} UnlockExactly(run: seq<Timed>, k: nat, user: User, configured: bool)
    requires k < |run| && run[k].op == Unlock(user) && ClockForward(run)
    ensures Granted(run, k, configured)
            <==> !configured
                 || ((exists id, i :: Holds(run[..k], i, user, id, configured))
                     && exists j :: Counts(run[..k], j, user, configured) && run[k].begun - run[j].done <= 90.0)
  {
    var before := run[..k];
    PasskeyExactly(before, user, configured);
    var j := VerifiedAtIsHistory(before, user, configured);
    forall i | Counts(before, i, user, configured) && run[k].begun - run[i].done <= 90.0
      ensures RecentlyVerified(After(before, configured), user, run[k].begun)
    {
      assert i <= j;
      assert run[i].done <= run[j].done by {
        if i < j { assert run[i].done <= run[j].begun <= run[j].done; }
      }
    }
  }

  /** Its challenge was issued to the same user for authentication, at most 180 seconds before it was checked. */
  lemma {:induction false} VerifiedByIssued(run: seq<Timed>, j: int, user: User) returns (i: int)
    requires VerifiedBy(run, j, user, true) && FreshChallenges(run)
    ensures 0 <= i < j && run[i].op == AuthenticationOptions(user, run[j].op.challenge)
    ensures run[j].begun <= run[i].done + CHALLENGE_TTL_SECONDS
    ensures forall l :: 0 <= l < j ==> !Presents(run[l], run[j].op.challenge)
  {
    var before := run[..j];
    FreshPrefix(run, j);
    i := TableIsHistory(before, run[j].op.challenge, true);
    assert run[i] == before[i];
    forall l | 0 <= l < j ensures !Presents(run[l], run[j].op.challenge) {
      assert run[l] == before[l];
    }
  }

  /** A challenge once presented, by anyone, for anything, rightly or wrongly, is never accepted again. */
  lemma {:induction false} PresentedOnce(run: seq<Timed>, i: nat, j: nat, user: User)
    requires i < j && VerifiedBy(run, j, user, true) && FreshChallenges(run)
    ensures !Presents(run[i], run[j].op.challenge)
  {
    var issued := VerifiedByIssued(run, j, user);
  }

  /**
  With passkeys configured, behind every unlock that is granted stands a
  verification by that very user, completed no more than 90 seconds before, whose
  challenge had been issued to them for authentication no more than 180 seconds
  before it was checked, and that is accepted nowhere else in the run.
  */
  lemma {:induction false} UnlockNeedsFreshVerification(run: seq<Timed>, k: nat, user: User) returns (j: int, i: int)
    requires k < |run| && run[k].op == Unlock(user) && Granted(run, k, true)
    requires ClockForward(run) && FreshChallenges(run)
    ensures 0 <= i < j < k && VerifiedBy(run, j, user, true)
    ensures run[k].begun - 90.0 <= run[j].done <= run[k].begun
    ensures run[i].op == AuthenticationOptions(user, run[j].op.challenge)
    ensures run[j].begun - 180.0 <= run[i].done <= run[j].begun
    ensures forall other, someone :: VerifiedBy(run, other, someone, true) && run[other].op.challenge == run[j].op.challenge ==> other == j
  {
    var before := run[..k];
    UnlockExactly(run, k, user, true);
    j :| Counts(before, j, user, true) && run[k].begun - run[j].done <= VERIFICATION_WINDOW_SECONDS;
    Prefix(run, j, k);
    assert before[j] == run[j];
    i := VerifiedByIssued(run, j, user);
    forall other, someone | VerifiedBy(run, other, someone, true) && run[other].op.challenge == run[j].op.challenge
      ensures other == j
    {
      if j < other {
        PresentedOnce(run, j, other, someone);
      }
    }
  }

  // ------------------------------------------- unlocks do not extend the window

  predicate IsUnlock(t: Timed) {
    t.op.Unlock?
  }

  function WithoutUnlocks(run: seq<Timed>): seq<Timed> {
    if run == [] then []
    else WithoutUnlocks(run[..|run| - 1]) + if IsUnlock(run[|run| - 1]) then [] else [run[|run| - 1]]
  }

  /** However many doors are opened in between, what is granted next is what would be without them. */
  lemma {:induction false} UnlocksExtendNothing(run: seq<Timed>, configured: bool)
    ensures After(WithoutUnlocks(run), configured) == After(run, configured)
  {
    if run != [] {
      var init, last := run[..|run| - 1], run[|run| - 1];
      UnlocksExtendNothing(init, configured);
      if !IsUnlock(last) {
        AfterOneMore(WithoutUnlocks(init), last, configured);
      } else {
        assert WithoutUnlocks(run) == WithoutUnlocks(init);
      }
    }
  }

  // -------------------------------------------------------- signature counters

  /** Does not register or remove `id`. */
  predicate Keeps(t: Timed, id: string) {
    match t.op
    case Register(_, _, attestation) => attestation.None? || attestation.value.0 != id
    case DeleteCredential(_, credential) => credential != id
    case _ => true
  }

  ghost predicate AllKeep(run: seq<Timed>, id: string) {
    forall i :: 0 <= i < |run| ==> Keeps(run[i], id)
  }

  /** The stored counter is at least `n`. */
  ghost predicate CountedTo(s: State, id: string, n: nat) {
    id in s.credentials && s.credentials[id].signCount >= n
  }

  lemma {:induction false} CounterStep(s: State, t: Timed, id: string, n: nat, configured: bool)
    requires CountedTo(s, id, n) && Keeps(t, id)
    ensures CountedTo(Step(s, t, configured).0, id, n)
  {
  }

  /** A stored counter never goes down while the credential stays. */
  lemma {:induction false} CounterRises(run: seq<Timed>, more: seq<Timed>, id: string, n: nat, configured: bool)
    requires AllKeep(more, id) && CountedTo(After(run, configured), id, n)
    ensures CountedTo(After(run + more, configured), id, n)
  {
    if more == [] {
      assert run + more == run;
    } else {
      var init, last := more[..|more| - 1], more[|more| - 1];
      CounterRises(run, init, id, n, configured);
      assert run + more == (run + init) + [last];
      AfterOneMore(run + init, last, configured);
      CounterStep(After(run + init, configured), last, id, n, configured);
    }
  }

  /**
  A copied authenticator shows: after an assertion with a counter other than
  zero, no assertion of the same credential with the same counter or a lower one
  is accepted.
  */
  lemma {:induction false} CopyShows(run: seq<Timed>, j: nat, k: nat, user: User, someone: User)
    requires j < k && VerifiedBy(run, j, user, true) && VerifiedBy(run, k, someone, true)
    requires run[j].op.credential == run[k].op.credential && AllKeep(run[j + 1..k], run[j].op.credential)
    requires run[j].op.assertion.Some? && run[j].op.assertion.value > 0
    ensures run[k].op.assertion.Some? && run[k].op.assertion.value > run[j].op.assertion.value
  {
    Prefix(run, j, j + 1);
    assert run[..j + 1] + run[j + 1..k] == run[..k];
    assert run[..j + 1][..j] == run[..j] && run[..j + 1][j] == run[j];
    CounterRises(run[..j + 1], run[j + 1..k], run[j].op.credential, run[j].op.assertion.value, true);
  }
}
