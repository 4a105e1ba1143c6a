/** Signing in: a text-message code or a password first, and for users with a second-factor key
    an app code or a paper recovery code after it.  Many browsers sign in at once, over one
    table of text-message codes, one of used recovery codes and one of accepted time steps. */
module SignIns {
  import opened Options
  import opened TtlStores
  import Mfa

  const OTP_TTL_MS := 2 * 60 * 1000
  const MAX_ATTEMPTS := 5
  const MAX_MFA_ATTEMPTS := 5
  const MFA_PENDING_TTL_MS := 5 * 60 * 1000

  /** A user is named by his phone number, which is unique. */
  type User = string

  /** The configuration read when the process starts: who has a second-factor key, and the
      hashes of each user's recovery codes. */
  datatype Config = Config(keyed: User -> bool, papers: User -> set<string>)

  datatype OtpRow = OtpRow(codeHash: string, expiresAt: int, attempts: nat)

  datatype Pending = Pending(user: User, at: int, tried: nat)

  /** `req.session`. */
  datatype Session = Session(user: Option<User>, mfaAt: Option<int>, pending: Option<Pending>)

  const NOBODY := Session(None, None, None)

  datatype State = State(
    otp: map<User, OtpRow>, sessions: map<nat, Session>,
    usedPapers: set<(User, string)>, usedSteps: Rows<nat>)

  /** What is typed for the second factor: an app code, with the step the window search finds
      for it, or a recovery code. */
  datatype Entry = App(step: Option<nat>) | Paper(hash: string)

  datatype Event =
    | Request(phone: User, codeHash: string, now: nat)
    | Otp(browser: nat, phone: User, codeHash: string, now: nat)
    | Password(browser: nat, phone: User, now: nat)
    | Second(browser: nat, entry: Entry, now: nat)
    | Logout(browser: nat)

  function SessionOf(s: State, b: nat): Session {
    if b in s.sessions then s.sessions[b] else NOBODY
  }

  /** The session after a right first factor. */
  function Established(c: Config, u: User, now: nat): Session {
    if c.keyed(u) then Session(None, None, Some(Pending(u, now, 0))) else Session(Some(u), None, None)
  }

  /** The code is compared with the stored one: it exists, is alive and has attempts left. */
  predicate Compares(s: State, e: Event) {
    e.Otp? && e.phone in s.otp && e.now <= s.otp[e.phone].expiresAt && s.otp[e.phone].attempts < MAX_ATTEMPTS
  }

  predicate RightOtp(s: State, e: Event) {
    Compares(s, e) && e.codeHash == s.otp[e.phone].codeHash
  }

  /** Some first factor succeeds in the browser. */
  predicate Establishes(s: State, e: Event, b: nat) {
    (RightOtp(s, e) || e.Password?) && e.browser == b
  }

  /** A second factor is checked: one is pending, not too old, and attempts are left. */
  predicate Checks(s: State, e: Event, b: nat) {
    && e.Second? && e.browser == b
    && var p := SessionOf(s, b).pending;
       p.Some? && e.now - p.value.at <= MFA_PENDING_TTL_MS && p.value.tried < MAX_MFA_ATTEMPTS
  }

  predicate Accepts(c: Config, s: State, u: User, entry: Entry, now: nat) {
    match entry
    case App(step) =>
      step.Some? && !(Lookup(s.usedSteps, u, now).Some? && step.value <= Lookup(s.usedSteps, u, now).value)
    case Paper(hash) => hash in c.papers(u) && (u, hash) !in s.usedPapers
  }

  /** The stores after a check, whatever its outcome. */
  function Recorded(c: Config, s: State, u: User, entry: Entry, now: nat): State {
    match entry
    case App(step) =>
      if step.None? then s
      else s.(usedSteps := s.usedSteps[u := Mfa.Recorded(Lookup(s.usedSteps, u, now), step.value, now)])
    case Paper(hash) =>
      if hash in c.papers(u) then s.(usedPapers := s.usedPapers + {(u, hash)}) else s
  }

  function Next(c: Config, s: State, e: Event): State {
    match e
    case Request(phone, codeHash, now) => s.(otp := s.otp[phone := OtpRow(codeHash, now + OTP_TTL_MS, 0)])
    case Otp(b, phone, codeHash, now) =>
      if phone !in s.otp then s
      else if !Compares(s, e) then s.(otp := s.otp - {phone})
      else if !RightOtp(s, e) then
        s.(otp := s.otp[phone := s.otp[phone].(attempts := s.otp[phone].attempts + 1)])
      else s.(otp := s.otp - {phone}, sessions := s.sessions[b := Established(c, phone, now)])
    case Password(b, phone, now) => s.(sessions := s.sessions[b := Established(c, phone, now)])
    case Second(b, entry, now) =>
      var p := SessionOf(s, b).pending;
      if p.None? then s
      else if !Checks(s, e, b) then s.(sessions := s.sessions - {b})
      else
        var u := p.value.user;
        Recorded(c, s, u, entry, now).(
          sessions := s.sessions[b :=
            if Accepts(c, s, u, entry, now) then Session(Some(u), Some(now), None)
            else SessionOf(s, b).(pending := Some(p.value.(tried := p.value.tried + 1)))])
    case Logout(b) => s.(sessions := s.sessions - {b})
  }

  const START := State(map[], map[], {}, map[])

  function After(c: Config, es: seq<Event>): State {
    if es == [] then START else Next(c, After(c, es[..|es|-1]), es[|es|-1])
  }

  /** One event more.  The proofs below hide `After` and use this. */
  lemma AfterOneMore(c: Config, es: seq<Event>)
    requires es != []
    ensures After(c, es) == Next(c, After(c, es[..|es|-1]), es[|es|-1])
  {
  }

  // ---------------------------------------------------------------- the handlers

  datatype OtpReply = NoCode | CodeExpired | CodeBurned | WrongCode(remaining: nat) | SignedIn | NeedsSecond

  datatype SecondReply = NotPending | TooLate | TooMany | Refused(remaining: nat) | Done

  class Auth {
    const keyed: User -> bool
    const papers: User -> set<string>
    var otp: map<User, OtpRow>
    var sessions: map<nat, Session>
    var usedPapers: set<(User, string)>
    var usedSteps: Rows<nat>

    constructor (keyed: User -> bool, papers: User -> set<string>)
      ensures this.keyed == keyed && this.papers == papers && View() == START
    {
      this.keyed, this.papers := keyed, papers;
      otp, sessions, usedPapers, usedSteps := map[], map[], {}, map[];
    }

    function Setup(): Config { Config(keyed, papers) }

    function View(): State
      reads this
    {
      State(otp, sessions, usedPapers, usedSteps)
    }

    method RequestCode(phone: User, codeHash: string, now: nat)
      modifies this`otp
      ensures View() == Next(Setup(), old(View()), Request(phone, codeHash, now))
    {
      otp := otp[phone := OtpRow(codeHash, now + OTP_TTL_MS, 0)];
    }

    method EstablishSession(b: nat, phone: User, now: nat) returns (mfaRequired: bool)
      modifies this`sessions
      ensures sessions == old(sessions)[b :=
                if mfaRequired then Session(None, None, Some(Pending(phone, now, 0)))
                else Session(Some(phone), None, None)]
      ensures mfaRequired == keyed(phone)
    {
      var session := NOBODY;
      if keyed(phone) {
        session := session.(pending := Some(Pending(phone, now, 0)));
        sessions := sessions[b := session];
        return true;
      }
      session := session.(user := Some(phone));
      sessions := sessions[b := session];
      return false;
    }

    /** POST /otp/verify */
    method VerifyOtp(b: nat, phone: User, codeHash: string, now: nat) returns (r: OtpReply)
      modifies this`otp, this`sessions
      ensures View() == Next(Setup(), old(View()), Otp(b, phone, codeHash, now))
      ensures r.SignedIn? || r.NeedsSecond? <==> RightOtp(old(View()), Otp(b, phone, codeHash, now))
      ensures r.SignedIn? || r.NeedsSecond? <==>
                && phone in old(otp) && now <= old(otp)[phone].expiresAt && old(otp)[phone].attempts < MAX_ATTEMPTS
                && codeHash == old(otp)[phone].codeHash
      ensures r.SignedIn? ==> !keyed(phone) && sessions == old(sessions)[b := Session(Some(phone), None, None)]
      ensures r.NeedsSecond? ==>
                keyed(phone) && sessions == old(sessions)[b := Session(None, None, Some(Pending(phone, now, 0)))]
      ensures r.NoCode? <==> phone !in old(otp)
      ensures r.CodeExpired? <==> phone in old(otp) && now > old(otp)[phone].expiresAt
      ensures r.CodeBurned? <==>
                && phone in old(otp) && now <= old(otp)[phone].expiresAt
                && old(otp)[phone].attempts >= MAX_ATTEMPTS
      ensures !r.SignedIn? && !r.NeedsSecond? ==> sessions == old(sessions)
      ensures r.WrongCode? ==> phone in otp && r.remaining + otp[phone].attempts == MAX_ATTEMPTS
    {
      if phone !in otp { return NoCode; }
      var record := otp[phone];
      if now > record.expiresAt {
        otp := otp - {phone};
        return CodeExpired;
      }
      otp := otp[phone := record.(attempts := record.attempts + 1)];
      var attemptsUsed := record.attempts + 1;
      if attemptsUsed > MAX_ATTEMPTS {
        otp := otp - {phone};
        return CodeBurned;
      }
      if codeHash != record.codeHash {
        return WrongCode(MAX_ATTEMPTS - attemptsUsed);
      }
      otp := otp - {phone};
      assert otp == old(otp) - {phone};
      var mfaRequired := EstablishSession(b, phone, now);
      return if mfaRequired then NeedsSecond else SignedIn;
    }

    /** POST /password/login, once the password has been found right. */
    method PasswordLogin(b: nat, phone: User, now: nat) returns (mfaRequired: bool)
      modifies this`sessions
      ensures View() == Next(Setup(), old(View()), Password(b, phone, now))
      ensures mfaRequired == keyed(phone)
      ensures sessions == old(sessions)[b :=
                if mfaRequired then Session(None, None, Some(Pending(phone, now, 0)))
                else Session(Some(phone), None, None)]
    {
      mfaRequired := EstablishSession(b, phone, now);
    }

    /** `consumeRecovery` or `verifyCode`: is this second factor good, and now used up? */
    method Consume(u: User, entry: Entry, now: nat) returns (ok: bool)
      modifies this`usedPapers, this`usedSteps
      ensures View() == Recorded(Setup(), old(View()), u, entry, now)
      ensures ok <==> Accepts(Setup(), old(View()), u, entry, now)
      ensures entry.Paper? ==> (ok <==> entry.hash in papers(u) && (u, entry.hash) !in old(usedPapers))
      ensures entry.App? ==>
                (ok <==>
                   && entry.step.Some?
                   && (u in old(usedSteps) && old(usedSteps)[u].expiresAt > now ==>
                         entry.step.value > old(usedSteps)[u].value))
    {
      match entry
      case Paper(hash) =>
        if hash !in papers(u) { return false; }
        ok := (u, hash) !in usedPapers;
        usedPapers := usedPapers + {(u, hash)};
      case App(step) =>
        if step.None? { return false; }
        var cur := Lookup(usedSteps, u, now);
        ok := !(cur.Some? && step.value <= cur.value);
        usedSteps := usedSteps[u := Mfa.Recorded(cur, step.value, now)];
    }

    /** POST /totp/verify */
    method VerifySecond(b: nat, entry: Entry, now: nat) returns (r: SecondReply)
      modifies this
      ensures View() == Next(Setup(), old(View()), Second(b, entry, now))
      ensures r.Done? || r.Refused? <==> Checks(old(View()), Second(b, entry, now), b)
      ensures r.NotPending? <==> b !in old(sessions) || old(sessions)[b].pending.None?
      ensures r.TooLate? <==>
                b in old(sessions) && old(sessions)[b].pending.Some?
                && now - old(sessions)[b].pending.value.at > MFA_PENDING_TTL_MS
      ensures r.Done? || r.Refused? ==>
                old(sessions)[b].pending.value.tried < MAX_MFA_ATTEMPTS
                && (r.Done? <==> Accepts(Setup(), old(View()), old(sessions)[b].pending.value.user, entry, now))
      ensures r.TooLate? || r.TooMany? ==> sessions == old(sessions) - {b}
      ensures r.Done? ==> sessions[b] == Session(Some(old(sessions)[b].pending.value.user), Some(now), None)
      ensures r.Refused? ==>
                sessions[b].pending.Some? && r.remaining + sessions[b].pending.value.tried == MAX_MFA_ATTEMPTS
    {
      if b !in sessions || sessions[b].pending.None? { return NotPending; }
      var pending := sessions[b].pending.value;
      if now - pending.at > MFA_PENDING_TTL_MS {
        sessions := sessions - {b};
        return TooLate;
      }
      var mfaTry := pending.tried + 1;
      if mfaTry > MAX_MFA_ATTEMPTS {
        sessions := sessions - {b};
        return TooMany;
      }
      var ok := Consume(pending.user, entry, now);
      if !ok {
        sessions := sessions[b := sessions[b].(pending := Some(pending.(tried := mfaTry)))];
        return Refused(MAX_MFA_ATTEMPTS - mfaTry);
      }
      sessions := sessions[b := Session(Some(pending.user), Some(now), None)];
      return Done;
    }

    method LogOut(b: nat)
      modifies this`sessions
      ensures View() == Next(Setup(), old(View()), Logout(b))
    {
      sessions := sessions - {b};
    }
  }

  // ---------------------------------------------------------------- who is signed in

  /** The last first factor that succeeded in the browser: whose, and when. */
  function FirstFactor(c: Config, es: seq<Event>, b: nat): Option<(User, int)> {
    if es == [] then None
    else
      var n := |es| - 1;
      if Establishes(After(c, es[..n]), es[n], b) then Some((es[n].phone, es[n].now))
      else FirstFactor(c, es[..n], b)
  }

  /** The last second factor accepted in the browser since then. */
  function SecondFactor(c: Config, es: seq<Event>, b: nat): Option<(User, int)> {
    if es == [] then None
    else
      var n := |es| - 1;
      var s, e := After(c, es[..n]), es[n];
      if Establishes(s, e, b) then None
      else if Checks(s, e, b) && Accepts(c, s, SessionOf(s, b).pending.value.user, e.entry, e.now)
      then Some((SessionOf(s, b).pending.value.user, e.now))
      else SecondFactor(c, es[..n], b)
  }

  /** What a browser's session says agrees with the factors really given in it. */
  ghost predicate Earned(c: Config, session: Session, first: Option<(User, int)>, second: Option<(User, int)>) {
    && (session.pending.Some? ==>
          session.user.None? && first == Some((session.pending.value.user, session.pending.value.at)))
    && (session.user.Some? ==>
          && first.Some? && first.value.0 == session.user.value
          && (c.keyed(session.user.value) ==>
                && session.mfaAt.Some? && second == Some((session.user.value, session.mfaAt.value))
                && session.mfaAt.value - first.value.1 <= MFA_PENDING_TTL_MS))
  }

  /** What one event does to a browser's session.  Only a right first factor, a second factor
      tried while one is pending, or a logout in that browser changes it. */
  lemma KeptSession(c: Config, s: State, e: Event, b: nat)
    ensures var was, now := SessionOf(s, b), SessionOf(Next(c, s, e), b);
            if Establishes(s, e, b) then
              now == if c.keyed(e.phone) then Session(None, None, Some(Pending(e.phone, e.now, 0)))
                     else Session(Some(e.phone), None, None)
            else if Checks(s, e, b) then
              var p := was.pending.value;
              now == if Accepts(c, s, p.user, e.entry, e.now) then Session(Some(p.user), Some(e.now), None)
                     else was.(pending := Some(p.(tried := p.tried + 1)))
            else if e == Logout(b) || (e.Second? && e.browser == b && was.pending.Some?) then now == NOBODY
            else now == was
  {
    hide Recorded, Accepts;
  }

  /** Over every run: whoever a session is signed in as has given a first factor in that browser
      and, with a second-factor key, a second one at most five minutes after it. */
  lemma {:induction false} SignedInIsEarned(c: Config, es: seq<Event>, b: nat)
    ensures Earned(c, SessionOf(After(c, es), b), FirstFactor(c, es, b), SecondFactor(c, es, b))
  {
    if es != [] {
      var n := |es| - 1;
      SignedInIsEarned(c, es[..n], b);
      AfterOneMore(c, es);
      hide After, Recorded, Accepts, RightOtp, Compares;
      KeptSession(c, After(c, es[..n]), es[n], b);
    }
  }

  // ---------------------------------------------------------------- which code is good

  /** The position of the last code sent to the phone. */
  function LastSent(es: seq<Event>, u: User): (k: Option<nat>)
    ensures k.Some? ==> k.value < |es| && es[k.value].Request? && es[k.value].phone == u
  {
    if es == [] then None
    else
      var n := |es| - 1;
      if es[n].Request? && es[n].phone == u then Some(n) else LastSent(es[..n], u)
  }

  /** How often a code has been typed for the phone since then. */
  function TypedSince(es: seq<Event>, u: User): nat {
    if es == [] then 0
    else
      var n := |es| - 1;
      if es[n].Request? && es[n].phone == u then 0
      else TypedSince(es[..n], u) + if es[n].Otp? && es[n].phone == u then 1 else 0
  }

  /** The event, if it types a code for the phone, types a wrong one, within two minutes. */
  predicate HarmlessTo(sent: Event, e: Event, u: User)
    requires sent.Request?
  {
    e.Otp? && e.phone == u ==> e.codeHash != sent.codeHash && e.now <= sent.now + 2 * 60 * 1000
  }

  /** What has been typed since the code was sent at `k` has not used it up. */
  ghost predicate Unspent(es: seq<Event>, k: nat, u: User)
    requires k < |es| && es[k].Request?
  {
    forall j | k < j < |es| :: HarmlessTo(es[k], es[j], u)
  }

  lemma UnspentStep(es: seq<Event>, k: nat, u: User)
    requires k < |es| - 1 && es[k].Request?
    ensures Unspent(es, k, u) <==> Unspent(es[..|es|-1], k, u) && HarmlessTo(es[k], es[|es|-1], u)
  {
    hide HarmlessTo;
    var n := |es| - 1;
    assert es[..n][k] == es[k] && forall j | k < j < n :: es[..n][j] == es[j];
  }

  /** What one event does to the phone's row, told by what is typed. */
  lemma RowStep(c: Config, s: State, e: Event, u: User)
    ensures var now := Next(c, s, e).otp;
            if e.Request? && e.phone == u then u in now && now[u] == OtpRow(e.codeHash, e.now + 2 * 60 * 1000, 0)
            else if e.Otp? && e.phone == u && u in s.otp then
              var row := s.otp[u];
              if e.now <= row.expiresAt && row.attempts < 5 && e.codeHash != row.codeHash
              then u in now && now[u] == row.(attempts := row.attempts + 1) else u !in now
            else (u in now <==> u in s.otp) && (u in now ==> now[u] == s.otp[u])
  {
    hide Accepts, Established, SessionOf, Checks;
  }

  /** The row, from what was sent and typed alone. */
  lemma {:induction false} RowIsHistory(c: Config, es: seq<Event>, u: User)
    ensures var k, otp := LastSent(es, u), After(c, es).otp;
            && (u in otp <==> k.Some? && Unspent(es, k.value, u) && TypedSince(es, u) <= 5)
            && (u in otp ==>
                  otp[u] == OtpRow(es[k.value].codeHash, es[k.value].now + 2 * 60 * 1000, TypedSince(es, u)))
  {
    if es != [] {
      var n := |es| - 1;
      var s, e := After(c, es[..n]), es[n];
      RowIsHistory(c, es[..n], u);
      AfterOneMore(c, es);
      hide After, Next;
      RowStep(c, s, e, u);
      if !(e.Request? && e.phone == u) {
        var k := LastSent(es[..n], u);
        assert LastSent(es, u) == k;
        if k.Some? {
          UnspentStep(es, k.value, u);
          hide Unspent;
        }
      }
    }
  }

  /** Typing this code now is right: it is the last one sent, at most two minutes ago, and so far
      fewer than five codes were typed, all wrong and in time. */
  ghost predicate GoodCode(es: seq<Event>, e: Event)
    requires e.Otp?
  {
    var k := LastSent(es, e.phone);
    && k.Some? && Unspent(es, k.value, e.phone) && TypedSince(es, e.phone) < 5
    && e.codeHash == es[k.value].codeHash && e.now <= es[k.value].now + 2 * 60 * 1000
  }

  /** Over every run a text-message code is accepted exactly when it is right in that sense. */
  lemma CodeAcceptedExactlyWhen(c: Config, es: seq<Event>, e: Event)
    requires e.Otp?
    ensures RightOtp(After(c, es), e) <==> GoodCode(es, e)
  {
    RowIsHistory(c, es, e.phone);
    hide After;
  }

  /** From the message to the session: whoever types the code that was sent him in time, without
      five wrong ones before, is signed in; or, with a second-factor key, is asked for that. */
  lemma RightCodeSignsIn(c: Config, es: seq<Event>, e: Event)
    requires e.Otp? && GoodCode(es, e)
    ensures SessionOf(After(c, es + [e]), e.browser) ==
            if c.keyed(e.phone) then Session(None, None, Some(Pending(e.phone, e.now, 0)))
            else Session(Some(e.phone), None, None)
  {
    CodeAcceptedExactlyWhen(c, es, e);
    assert (es + [e])[..|es|] == es;
    AfterOneMore(c, es + [e]);
    hide After, Next, RightOtp;
    KeptSession(c, After(c, es), e, e.browser);
  }

  // ---------------------------------------------------------------- which second factor is good

  /** The event leaves the sign-in of `u` that waits in browser `b` since `at` waiting: it is not
      in that browser, or it is a wrong second factor, in time. */
  predicate LeavesWaiting(c: Config, s: State, e: Event, b: nat, u: User, at: int) {
    || e.Request?
    || e.browser != b
    || (e.Otp? && !RightOtp(s, e))
    || (e.Second? && e.now - at <= 5 * 60 * 1000 && !Accepts(c, s, u, e.entry, e.now))
  }

  function SecondsIn(es: seq<Event>, b: nat): nat {
    if es == [] then 0
    else SecondsIn(es[..|es|-1], b) + if es[|es|-1].Second? && es[|es|-1].browser == b then 1 else 0
  }

  /** All events of `more`, after `es`, leave it waiting. */
  ghost predicate KeepsWaiting(c: Config, es: seq<Event>, more: seq<Event>, b: nat, u: User, at: int) {
    forall j | 0 <= j < |more| :: LeavesWaiting(c, After(c, es + more[..j]), more[j], b, u, at)
  }

  /** After a right first factor of a user with a key, and at most five wrong second factors in
      time, the sign-in still waits, with those counted. */
  lemma {:induction false} StillWaiting(c: Config, es: seq<Event>, more: seq<Event>, b: nat, u: User, at: int)
    requires SessionOf(After(c, es), b) == Session(None, None, Some(Pending(u, at, 0)))
    requires KeepsWaiting(c, es, more, b, u, at) && SecondsIn(more, b) <= 5
    ensures SessionOf(After(c, es + more), b) == Session(None, None, Some(Pending(u, at, SecondsIn(more, b))))
  {
    hide After, KeepsWaiting, LeavesWaiting;
    if more == [] {
      assert es + more == es;
    } else {
      var n := |more| - 1;
      FirstKeepWaiting(c, es, more, b, u, at);
      StillWaiting(c, es, more[..n], b, u, at);
      assert (es + more)[..|es + more| - 1] == es + more[..n];
      AfterOneMore(c, es + more);
      StepWaits(c, After(c, es + more[..n]), more[n], b, u, at, SecondsIn(more[..n], b));
    }
  }

  lemma FirstKeepWaiting(c: Config, es: seq<Event>, more: seq<Event>, b: nat, u: User, at: int)
    requires more != [] && KeepsWaiting(c, es, more, b, u, at)
    ensures var n := |more| - 1;
            && KeepsWaiting(c, es, more[..n], b, u, at)
            && LeavesWaiting(c, After(c, es + more[..n]), more[n], b, u, at)
  {
    hide After, LeavesWaiting;
    var n := |more| - 1;
    forall j | 0 <= j < n ensures LeavesWaiting(c, After(c, es + more[..n][..j]), more[..n][j], b, u, at) {
      assert more[..n][..j] == more[..j];
    }
  }

  lemma StepWaits(c: Config, s: State, e: Event, b: nat, u: User, at: int, tried: nat)
    requires SessionOf(s, b) == Session(None, None, Some(Pending(u, at, tried)))
    requires LeavesWaiting(c, s, e, b, u, at) && (e.Second? && e.browser == b ==> tried < 5)
    ensures SessionOf(Next(c, s, e), b) ==
            Session(None, None, Some(Pending(u, at, tried + if e.Second? && e.browser == b then 1 else 0)))
  {
    hide Next, Accepts;
    KeptSession(c, s, e, b);
  }

  /** From the first factor to the session: with at most four wrong second factors between, a good
      one within five minutes signs in, and exactly as the user of the first. */
  lemma RightSecondSignsIn(c: Config, es: seq<Event>, more: seq<Event>, b: nat, u: User, at: int, e: Event)
    requires SessionOf(After(c, es), b) == Session(None, None, Some(Pending(u, at, 0)))
    requires KeepsWaiting(c, es, more, b, u, at) && SecondsIn(more, b) <= 4
    requires e.Second? && e.browser == b && e.now - at <= 5 * 60 * 1000
    ensures var session := SessionOf(After(c, es + more + [e]), b);
            if Accepts(c, After(c, es + more), u, e.entry, e.now) then session == Session(Some(u), Some(e.now), None)
            else session == Session(None, None, Some(Pending(u, at, SecondsIn(more, b) + 1)))
  {
    StillWaiting(c, es, more, b, u, at);
    var run := es + more;
    assert (run + [e])[..|run|] == run;
    AfterOneMore(c, run + [e]);
    hide After, Next, Accepts;
    KeptSession(c, After(c, run), e, b);
  }

  // ---------------------------------------------------------------- how often one may guess

  /** Second factors checked in the browser since its last first factor. */
  function ChecksSince(c: Config, es: seq<Event>, b: nat): nat {
    if es == [] then 0
    else
      var n := |es| - 1;
      var s, e := After(c, es[..n]), es[n];
      if Establishes(s, e, b) then 0 else ChecksSince(c, es[..n], b) + if Checks(s, e, b) then 1 else 0
  }

  /** Over every run at most five second factors are checked after one first factor. */
  lemma {:induction false} AtMostFiveChecks(c: Config, es: seq<Event>, b: nat)
    ensures ChecksSince(c, es, b) <= MAX_MFA_ATTEMPTS
    ensures var p := SessionOf(After(c, es), b).pending; p.Some? ==> ChecksSince(c, es, b) == p.value.tried
  {
    if es != [] {
      var n := |es| - 1;
      AtMostFiveChecks(c, es[..n], b);
      AfterOneMore(c, es);
      hide After, Recorded, Accepts, RightOtp, Compares;
      KeptSession(c, After(c, es[..n]), es[n], b);
    }
  }

  /** Comparisons with a phone's text-message code, and sign-ins by it, since it was sent. */
  function ComparesSince(c: Config, es: seq<Event>, u: User): nat {
    if es == [] then 0
    else
      var n := |es| - 1;
      var s, e := After(c, es[..n]), es[n];
      if e.Request? && e.phone == u then 0
      else ComparesSince(c, es[..n], u) + if Compares(s, e) && e.phone == u then 1 else 0
  }

  function OtpSignInsSince(c: Config, es: seq<Event>, u: User): nat {
    if es == [] then 0
    else
      var n := |es| - 1;
      var s, e := After(c, es[..n]), es[n];
      if e.Request? && e.phone == u then 0
      else OtpSignInsSince(c, es[..n], u) + if RightOtp(s, e) && e.phone == u then 1 else 0
  }

  /** What one event does to a phone's row. */
  lemma KeptOtp(c: Config, s: State, e: Event, u: User)
    ensures RightOtp(s, e) ==> Compares(s, e)
    ensures Compares(s, e) && e.phone == u ==> u in s.otp && s.otp[u].attempts < MAX_ATTEMPTS
    ensures var now := Next(c, s, e).otp;
            if e.Request? && e.phone == u then u in now && now[u].attempts == 0
            else if RightOtp(s, e) && e.phone == u then u !in now
            else if Compares(s, e) && e.phone == u then u in now && now[u].attempts == s.otp[u].attempts + 1
            else u in now ==> u in s.otp && now[u] == s.otp[u]
  {
    hide Accepts, Established, SessionOf, Checks;
  }

  /** Over every run a text-message code is compared at most five times, in all browsers
      together, and signs in at most one of them. */
  lemma {:induction false} OtpIsBounded(c: Config, es: seq<Event>, u: User)
    ensures ComparesSince(c, es, u) <= MAX_ATTEMPTS && OtpSignInsSince(c, es, u) <= 1
    ensures u in After(c, es).otp ==>
              ComparesSince(c, es, u) == After(c, es).otp[u].attempts && OtpSignInsSince(c, es, u) == 0
  {
    if es != [] {
      var n := |es| - 1;
      OtpIsBounded(c, es[..n], u);
      AfterOneMore(c, es);
      hide After, Next, Compares, RightOtp;
      KeptOtp(c, After(c, es[..n]), es[n], u);
    }
  }

  // ---------------------------------------------------------------- codes good once

  /** How often the recovery code has been accepted from the user, in any browser. */
  function PaperAccepted(c: Config, es: seq<Event>, u: User, hash: string): nat {
    if es == [] then 0
    else
      var n := |es| - 1;
      PaperAccepted(c, es[..n], u, hash) + if AcceptsPaper(c, After(c, es[..n]), es[n], u, hash) then 1 else 0
  }

  predicate AcceptsPaper(c: Config, s: State, e: Event, u: User, hash: string) {
    && e.Second? && Checks(s, e, e.browser) && SessionOf(s, e.browser).pending.value.user == u
    && e.entry == Paper(hash) && Accepts(c, s, u, e.entry, e.now)
  }

  /** Over every run a recovery code is good once, for ever. */
  lemma {:induction false} PaperGoodOnce(c: Config, es: seq<Event>, u: User, hash: string)
    ensures PaperAccepted(c, es, u, hash) == if (u, hash) in After(c, es).usedPapers then 1 else 0
  {
    if es != [] {
      PaperGoodOnce(c, es[..|es|-1], u, hash);
    }
  }

  /** Over every run a recovery code is good exactly when it is one of the user's and has not been
      accepted before. */
  lemma PaperGoodExactlyWhen(c: Config, es: seq<Event>, u: User, hash: string, now: nat)
    ensures Accepts(c, After(c, es), u, Paper(hash), now) <==>
              hash in c.papers(u) && PaperAccepted(c, es, u, hash) == 0
  {
    PaperGoodOnce(c, es, u, hash);
  }

  /** The attempts with a right app code for the user, across all browsers. */
  function AppAttempts(c: Config, es: seq<Event>, u: User): seq<Mfa.Attempt> {
    if es == [] then []
    else
      var n := |es| - 1;
      var s, e := After(c, es[..n]), es[n];
      AppAttempts(c, es[..n], u)
      + if TriesApp(s, e, u) then [Mfa.Attempt(e.now, e.now, e.entry.step.value)] else []
  }

  predicate TriesApp(s: State, e: Event, u: User) {
    && e.Second? && Checks(s, e, e.browser) && SessionOf(s, e.browser).pending.value.user == u
    && e.entry.App? && e.entry.step.Some?
  }

  /** The steps of the app codes accepted from the user, in any browser. */
  function AppAccepted(c: Config, es: seq<Event>, u: User): seq<nat> {
    if es == [] then []
    else
      var n := |es| - 1;
      var s, e := After(c, es[..n]), es[n];
      AppAccepted(c, es[..n], u)
      + if TriesApp(s, e, u) && Accepts(c, s, u, e.entry, e.now) then [e.entry.step.value] else []
  }

  function RowOf(s: State, u: User): Option<Stamped<nat>> {
    if u in s.usedSteps then Some(s.usedSteps[u]) else None
  }

  lemma KeptRow(c: Config, s: State, e: Event, u: User)
    ensures RowOf(Next(c, s, e), u) ==
            if TriesApp(s, e, u) then Some(Mfa.Recorded(Mfa.Current(RowOf(s, u), e.now), e.entry.step.value, e.now))
            else RowOf(s, u)
  {
    hide Accepts, RightOtp, Compares, Established;
  }

  lemma OneAttemptMore(before: seq<Mfa.Attempt>, a: Mfa.Attempt)
    ensures Mfa.RowAfter(before + [a]) == Some(Mfa.Recorded(Mfa.Current(Mfa.RowAfter(before), a.now), a.step, a.now))
    ensures Mfa.AcceptedSteps(before + [a])
            == Mfa.AcceptedSteps(before) + if Mfa.Accepts(Mfa.RowAfter(before), a) then [a.step] else []
  {
    assert (before + [a])[..|before|] == before;
  }

  /** The shared table's row for the user is the row his own attempts make of it. */
  lemma {:induction false} OneRowPerUser(c: Config, es: seq<Event>, u: User)
    ensures RowOf(After(c, es), u) == Mfa.RowAfter(AppAttempts(c, es, u))
    ensures AppAccepted(c, es, u) == Mfa.AcceptedSteps(AppAttempts(c, es, u))
  {
    if es != [] {
      var n := |es| - 1;
      OneRowPerUser(c, es[..n], u);
      var before, s, e := AppAttempts(c, es[..n], u), After(c, es[..n]), es[n];
      AfterOneMore(c, es);
      KeptRow(c, s, e, u);
      hide After, Next;
      if TriesApp(s, e, u) {
        var a := Mfa.Attempt(e.now, e.now, e.entry.step.value);
        assert AppAttempts(c, es, u) == before + [a];
        OneAttemptMore(before, a);
        assert Accepts(c, s, u, e.entry, e.now) == Mfa.Accepts(RowOf(s, u), a);
      } else {
        assert AppAttempts(c, es, u) == before;
      }
    }
  }

  /** Over every run in which the clock does not run back and each code is within the window,
      the steps accepted from a user strictly increase: no app code signs in twice, in
      whichever browsers it is tried. */
  lemma AppCodesGoodOnce(c: Config, es: seq<Event>, u: User)
    requires Mfa.Timely(AppAttempts(c, es, u), 0)
    ensures var steps := AppAccepted(c, es, u); forall i, j | 0 <= i < j < |steps| :: steps[i] < steps[j]
  {
    OneRowPerUser(c, es, u);
    Mfa.AcceptedStepsIncrease(AppAttempts(c, es, u));
  }

  /** In such a run an app code is good exactly when its step is beyond all those accepted. */
  lemma AppGoodExactlyWhen(c: Config, es: seq<Event>, e: Event, u: User)
    requires TriesApp(After(c, es), e, u) && Mfa.Timely(AppAttempts(c, es + [e], u), 0)
    ensures Accepts(c, After(c, es), u, e.entry, e.now) <==>
              forall step | step in AppAccepted(c, es, u) :: step < e.entry.step.value
  {
    OneMoreApp(c, es, e, u);
    var before, all := AppAttempts(c, es, u), AppAttempts(c, es + [e], u);
    TimelyBefore(before, all);
    AppCodesGoodOnce(c, es + [e], u);
    LastIsRemembered(c, es, u);
    hide After, AppAttempts, AppAccepted, Accepts, TriesApp, Mfa.Timely, RowOf;
    var steps, now := AppAccepted(c, es, u), AppAccepted(c, es + [e], u);
    if |now| > |steps| {
      assert forall i | 0 <= i < |steps| :: now[i] == steps[i] && now[i] < now[|steps|];
    } else {
      assert steps[|steps|-1] in steps;
    }
  }

  lemma LastIsRemembered(c: Config, es: seq<Event>, u: User)
    requires Mfa.Timely(AppAttempts(c, es, u), Mfa.MAX_LAG)
    ensures var steps, row := AppAccepted(c, es, u), RowOf(After(c, es), u);
            row.Some? ==> steps != [] && row.value.value == steps[|steps|-1]
  {
    OneRowPerUser(c, es, u);
    Mfa.AcceptedStepsIncrease(AppAttempts(c, es, u));
    hide After, AppAttempts, AppAccepted, Mfa.Timely, Mfa.AcceptedSteps;
  }

  lemma TimelyBefore(before: seq<Mfa.Attempt>, all: seq<Mfa.Attempt>)
    requires before <= all && Mfa.Timely(all, 0)
    ensures Mfa.Timely(before, 0) && Mfa.Timely(before, Mfa.MAX_LAG)
  {
    assert forall i | 0 <= i < |before| :: before[i] == all[i];
  }

  lemma OneMoreApp(c: Config, es: seq<Event>, e: Event, u: User)
    requires TriesApp(After(c, es), e, u)
    ensures AppAttempts(c, es + [e], u) == AppAttempts(c, es, u) + [Mfa.Attempt(e.now, e.now, e.entry.step.value)]
    ensures var steps, row, now := AppAccepted(c, es, u), RowOf(After(c, es), u), AppAccepted(c, es + [e], u);
            && now == steps + (if Accepts(c, After(c, es), u, e.entry, e.now) then [e.entry.step.value] else [])
            && (!Accepts(c, After(c, es), u, e.entry, e.now) ==> row.Some? && e.entry.step.value <= row.value.value)
  {
    var all := es + [e];
    assert all[..|es|] == es;
    assert AppAccepted(c, es, u) + [] == AppAccepted(c, es, u);
  }
}
