/**
 Sign-in sessions. A refresh token names its session and the session's generation when it was issued;
 spending it moves the session on a generation, and an older one ends the session, for somebody kept a
 copy. Tokens cannot be forged here: what is presented was once issued. Times are in seconds.
 */
module Sessions {
  import opened Results

  const ROTATE_GRACE := 30
  const DAY := 86400

  datatype Session = Session(user: int, generation: nat, createdAt: int, lastUsedAt: int, revokedAt: Option<int>)

  /** A refresh token; one from before sessions existed names none. */
  datatype Token = Token(sub: int, sid: Option<int>, gen: int, exp: int)

  datatype Config = Config(refreshDays: int, maxDays: int, legacyUntil: int)

  /** `issued` is history: every token ever given out. */
  datatype State = State(
    users: set<int>, sessions: map<int, Session>, nextId: nat, validAfter: map<int, int>, issued: set<Token>)

  datatype Outcome = Granted(sid: int) | SignedOut | Taken

  function SessionEnds(cfg: Config, s: Session): int {
    s.createdAt + DAY * cfg.maxDays
  }

  function RefreshToken(cfg: Config, sid: int, s: Session, now: int): Token {
    var window, ends := now + DAY * cfg.refreshDays, SessionEnds(cfg, s);
    Token(s.user, Some(sid), s.generation, if window < ends then window else ends)
  }

  function StartSession(st: State, user: int, now: int): State {
    st.(sessions := st.sessions[st.nextId := Session(user, 0, now, now, None)], nextId := st.nextId + 1)
  }

  function Issue(st: State, cfg: Config, sid: int, now: int): State
    requires sid in st.sessions
  {
    st.(issued := st.issued + {RefreshToken(cfg, sid, st.sessions[sid], now)})
  }

  /** Whether the session a token names still stands: not revoked, not past its own end, and its own user's. */
  predicate IsLive(st: State, cfg: Config, t: Token, now: int) {
    && t.sid.Some? && t.sid.value in st.sessions
    && st.sessions[t.sid.value].revokedAt.None? && st.sessions[t.sid.value].user == t.sub
    && now < SessionEnds(cfg, st.sessions[t.sid.value])
  }

  function AdoptLegacy(st: State, cfg: Config, t: Token, now: int): (State, Outcome) {
    var issued := t.exp - DAY * cfg.refreshDays;
    if now / DAY > cfg.legacyUntil || t.sub !in st.users then (st, SignedOut)
    else if t.sub in st.validAfter && issued < st.validAfter[t.sub] then (st, SignedOut)
    else (StartSession(st, t.sub, now).(validAfter := st.validAfter[t.sub := now]), Granted(st.nextId))
  }

  function Rotate(st: State, cfg: Config, t: Token, now: int): (State, Outcome) {
    if t.sid.None? then AdoptLegacy(st, cfg, t, now)
    else if !IsLive(st, cfg, t, now) then (st, SignedOut)
    else
      var sid, s := t.sid.value, st.sessions[t.sid.value];
      if t.gen == s.generation - 1 && now - s.lastUsedAt < ROTATE_GRACE then (st, Granted(sid))
      else if t.gen != s.generation then (st.(sessions := st.sessions[sid := s.(revokedAt := Some(now))]), Taken)
      else (st.(sessions := st.sessions[sid := s.(generation := s.generation + 1, lastUsedAt := now)]), Granted(sid))
  }

  /** The refresh endpoint: read the token, spend it, and give a new one for the session it names. */
  function Refresh(st: State, cfg: Config, t: Token, now: int): (State, Outcome) {
    if now >= t.exp then (st, SignedOut)
    else
      var (after, outcome) := Rotate(st, cfg, t, now);
      if outcome.Granted? && outcome.sid in after.sessions then (Issue(after, cfg, outcome.sid, now), outcome)
      else (after, outcome)
  }

  function EndSession(st: State, sid: int, now: int): State {
    if sid in st.sessions && st.sessions[sid].revokedAt.None? then
      st.(sessions := st.sessions[sid := st.sessions[sid].(revokedAt := Some(now))])
    else st
  }

  function EndToken(st: State, t: Token, now: int): State {
    if t.sid.Some? then EndSession(st, t.sid.value, now)
    else if t.sub in st.users then st.(validAfter := st.validAfter[t.sub := now])
    else st
  }

  function EndedUnless(sid: int, s: Session, user: int, keep: Option<int>, now: int): Session {
    if s.user == user && s.revokedAt.None? && Some(sid) != keep then s.(revokedAt := Some(now)) else s
  }

  function EndAll(st: State, user: int, keep: Option<int>, now: int): State {
    st.(sessions := map sid | sid in st.sessions :: EndedUnless(sid, st.sessions[sid], user, keep, now),
        validAfter := st.validAfter[user := now])
  }

  datatype Op =
    | SignIn(user: int, now: int)
    | Present(token: Token, now: int)
    | SignOut(token: Token, now: int)
    | Everywhere(user: int, keep: Option<int>, now: int)

  /** Only what was issued can be presented. */
  predicate Enabled(st: State, op: Op) {
    match op
    case SignIn(user, _) => user in st.users
    case Present(t, _) => t in st.issued
    case SignOut(t, _) => t in st.issued
    case Everywhere(user, _, _) => user in st.users
  }

  function Apply(st: State, cfg: Config, op: Op): State {
    match op
    case SignIn(user, now) => Issue(StartSession(st, user, now), cfg, st.nextId, now)
    case Present(t, now) => Refresh(st, cfg, t, now).0
    case SignOut(t, now) => EndToken(st, t, now)
    case Everywhere(user, keep, now) => EndAll(st, user, keep, now)
  }

  predicate Runs(st: State, cfg: Config, ops: seq<Op>, end: State)
    decreases |ops|
  {
    if ops == [] then end == st else Enabled(st, ops[0]) && Runs(Apply(st, cfg, ops[0]), cfg, ops[1..], end)
  }

  // --- Every run ---

  /** An issued token is of its own session's user, never ahead of its session, and never outlasts it. */
  ghost predicate TokenSound(st: State, cfg: Config, t: Token) {
    t.sid.Some? ==>
      && t.sid.value in st.sessions
      && 0 <= t.gen <= st.sessions[t.sid.value].generation
      && t.sub == st.sessions[t.sid.value].user
      && t.exp <= SessionEnds(cfg, st.sessions[t.sid.value])
  }

  ghost predicate Sound(st: State, cfg: Config) {
    && (forall t :: t in st.issued ==> TokenSound(st, cfg, t))
    && (forall sid :: sid in st.sessions ==> 0 <= sid < st.nextId)
  }

  /** What time does to sessions: generations never go back, and a revoked one stays exactly as it ended. */
  ghost predicate OnlyForward(st: State, after: State) {
    forall sid :: sid in st.sessions ==>
      && sid in after.sessions
      && after.sessions[sid].generation >= st.sessions[sid].generation
      && after.sessions[sid].user == st.sessions[sid].user && after.sessions[sid].createdAt == st.sessions[sid].createdAt
      && (st.sessions[sid].revokedAt.Some? ==> after.sessions[sid] == st.sessions[sid])
  }

  lemma PresentIsSound(st: State, cfg: Config, t: Token, now: int)
    requires Sound(st, cfg) && t in st.issued
    ensures Sound(Refresh(st, cfg, t, now).0, cfg) && OnlyForward(st, Refresh(st, cfg, t, now).0)
  {
    assert TokenSound(st, cfg, t);
    var after := Refresh(st, cfg, t, now).0;
    forall u | u in after.issued
      ensures TokenSound(after, cfg, u)
    {
      if u in st.issued {
        assert TokenSound(st, cfg, u);
      }
    }
  }

  lemma StepIsSound(st: State, cfg: Config, op: Op)
    requires Sound(st, cfg) && Enabled(st, op)
    ensures Sound(Apply(st, cfg, op), cfg) && OnlyForward(st, Apply(st, cfg, op))
  {
    hide Refresh;
    if op.Present? {
      PresentIsSound(st, cfg, op.token, op.now);
    } else {
      var after := Apply(st, cfg, op);
      forall t | t in after.issued
        ensures TokenSound(after, cfg, t)
      {
        if t in st.issued {
          assert TokenSound(st, cfg, t);
        }
      }
    }
  }

  /** In every run: generations never go back, no token is ahead of its session, and nothing revoked comes back. */
  lemma {:induction false} EveryRunOnlyForward(st: State, cfg: Config, ops: seq<Op>, end: State)
    requires Sound(st, cfg) && Runs(st, cfg, ops, end)
    ensures Sound(end, cfg) && OnlyForward(st, end)
    decreases |ops|
  {
    if ops != [] {
      hide Apply, Enabled, Sound;
      StepIsSound(st, cfg, ops[0]);
      EveryRunOnlyForward(Apply(st, cfg, ops[0]), cfg, ops[1..], end);
    }
  }

  /** A token repeated within the grace changes nothing and is given the current generation again. */
  lemma RepeatedWithinGrace(st: State, cfg: Config, t: Token, now: int)
    requires Sound(st, cfg) && t in st.issued && t.sid.Some? && now < t.exp
    requires IsLive(st, cfg, t, now)
    requires t.gen == st.sessions[t.sid.value].generation - 1 && now - st.sessions[t.sid.value].lastUsedAt < ROTATE_GRACE
    ensures var (after, outcome) := Refresh(st, cfg, t, now);
            && outcome == Granted(t.sid.value) && after.(issued := st.issued) == st
            && after.issued == st.issued + {RefreshToken(cfg, t.sid.value, st.sessions[t.sid.value], now)}
  {
  }

  /** An older token ends its session, and in no run after that is any token of it live. */
  lemma OlderTokenEndsIt(st: State, cfg: Config, t: Token, now: int, ops: seq<Op>, end: State, u: Token, later: int)
    requires Sound(st, cfg) && t in st.issued && IsLive(st, cfg, t, now) && now < t.exp
    requires t.gen < st.sessions[t.sid.value].generation
    requires !(t.gen == st.sessions[t.sid.value].generation - 1 && now - st.sessions[t.sid.value].lastUsedAt < ROTATE_GRACE)
    requires Runs(Refresh(st, cfg, t, now).0, cfg, ops, end) && u.sid == t.sid
    ensures Refresh(st, cfg, t, now).1 == Taken && !IsLive(end, cfg, u, later)
  {
    hide Runs, Sound;
    StepIsSound(st, cfg, Present(t, now));
    EveryRunOnlyForward(Refresh(st, cfg, t, now).0, cfg, ops, end);
  }

  // --- What spending a token comes to ---

  /** The session still stands: neither revoked nor at its own end, and the token's own user's. */
  predicate Stands(s: Session, user: int, maxDays: int, now: int) {
    s.revokedAt.None? && s.user == user && now < s.createdAt + 86400 * maxDays
  }

  /** A new token: the session's, of this generation, for the sliding window but never past the session's end. */
  predicate NewToken(u: Token, sid: int, s: Session, gen: int, cfg: Config, now: int) {
    && u.sub == s.user && u.sid == Some(sid) && u.gen == gen
    && (u.exp == now + 86400 * cfg.refreshDays || u.exp == s.createdAt + 86400 * cfg.maxDays)
    && u.exp <= now + 86400 * cfg.refreshDays && u.exp <= s.createdAt + 86400 * cfg.maxDays
  }

  /** Nothing but this session has changed, and one token was given out. */
  ghost predicate OnlyThisSession(st: State, after: State, sid: int, u: Token) {
    && sid in st.sessions && after.sessions.Keys == st.sessions.Keys
    && (forall k :: k in st.sessions && k != sid ==> after.sessions[k] == st.sessions[k])
    && after.(sessions := st.sessions, issued := st.issued) == st && after.issued == st.issued + {u}
  }

  /** The newest token of a standing session moves it on one generation, and the new token is of that one. */
  lemma SpendingMovesOn(st: State, cfg: Config, t: Token, now: int) returns (u: Token)
    requires t.sid.Some? && t.sid.value in st.sessions && now < t.exp
    requires Stands(st.sessions[t.sid.value], t.sub, cfg.maxDays, now)
    requires t.gen == st.sessions[t.sid.value].generation
    ensures var sid, s, (after, outcome) := t.sid.value, st.sessions[t.sid.value], Refresh(st, cfg, t, now);
            && outcome == Granted(sid) && OnlyThisSession(st, after, sid, u) && NewToken(u, sid, s, s.generation + 1, cfg, now)
            && after.sessions[sid].generation == s.generation + 1 && after.sessions[sid].lastUsedAt == now
            && after.sessions[sid].revokedAt.None? && after.sessions[sid].createdAt == s.createdAt
            && after.sessions[sid].user == s.user
  {
    var after := Rotate(st, cfg, t, now).0;
    u := RefreshToken(cfg, t.sid.value, after.sessions[t.sid.value], now);
  }

  /** A session that does not stand, and a token past its own end, get nothing and change nothing. */
  lemma EndedIsRefused(st: State, cfg: Config, t: Token, now: int)
    requires t.sid.Some?
    requires now < t.exp && t.sid.value in st.sessions ==> !Stands(st.sessions[t.sid.value], t.sub, cfg.maxDays, now)
    ensures Refresh(st, cfg, t, now) == (st, SignedOut)
  {
  }

  /**
   A session token buys something once. Spent, and presented again in any later state 30 seconds or more after its
   session was last used, it ends the session, if that still stands; and no token of it is ever granted again.
   */
  lemma SpentTokenEndsIt(st: State, cfg: Config, t: Token, now: int, ops: seq<Op>, mid: State, again: int,
                         more: seq<Op>, end: State, u: Token, later: int)
    requires Sound(st, cfg) && t in st.issued && t.sid.Some? && Refresh(st, cfg, t, now).1 == Granted(t.sid.value)
    requires Runs(Refresh(st, cfg, t, now).0, cfg, ops, mid)
    requires again < t.exp && t.sid.value in mid.sessions && Stands(mid.sessions[t.sid.value], t.sub, cfg.maxDays, again)
    requires again - mid.sessions[t.sid.value].lastUsedAt >= 30
    requires Runs(Refresh(mid, cfg, t, again).0, cfg, more, end) && u.sid == t.sid
    ensures Refresh(mid, cfg, t, again).1 == Taken
    ensures Refresh(end, cfg, u, later) == (end, SignedOut)
  {
    hide Runs, Sound;
    var sid := t.sid.value;
    GrantedMovesPast(st, cfg, t, now);
    StepIsSound(st, cfg, Present(t, now));
    EveryRunOnlyForward(Refresh(st, cfg, t, now).0, cfg, ops, mid);
    assert mid.sessions[sid].generation > t.gen;
    StillIssued(st, cfg, Present(t, now), t);
    IssuedStays(Refresh(st, cfg, t, now).0, cfg, ops, mid, t);
    StepIsSound(mid, cfg, Present(t, again));
    EveryRunOnlyForward(Refresh(mid, cfg, t, again).0, cfg, more, end);
  }

  /** Whatever was granted for, the session is past the token's generation afterwards. */
  lemma GrantedMovesPast(st: State, cfg: Config, t: Token, now: int)
    requires t.sid.Some? && Refresh(st, cfg, t, now).1 == Granted(t.sid.value)
    ensures var after := Refresh(st, cfg, t, now).0;
            t.sid.value in after.sessions && after.sessions[t.sid.value].generation == t.gen + 1
  {
  }

  lemma {:induction false} IssuedStays(st: State, cfg: Config, ops: seq<Op>, end: State, t: Token)
    requires Runs(st, cfg, ops, end) && t in st.issued
    ensures t in end.issued
    decreases |ops|
  {
    if ops != [] {
      hide Apply, Enabled;
      StillIssued(st, cfg, ops[0], t);
      IssuedStays(Apply(st, cfg, ops[0]), cfg, ops[1..], end, t);
    }
  }

  /** Signing in opens a session of its own, with its first token, and touches no other. */
  lemma SigningIn(st: State, cfg: Config, user: int, now: int) returns (u: Token)
    requires Sound(st, cfg)
    ensures var after := Apply(st, cfg, SignIn(user, now));
            && st.nextId !in st.sessions && st.nextId in after.sessions
            && Stands(after.sessions[st.nextId], user, cfg.maxDays, now) == (0 < 86400 * cfg.maxDays)
            && after.sessions[st.nextId].createdAt == now && NewToken(u, st.nextId, after.sessions[st.nextId], 0, cfg, now)
            && after.sessions[st.nextId].generation == 0 && after.issued == st.issued + {u}
            && (forall k :: k in st.sessions ==> k in after.sessions && after.sessions[k] == st.sessions[k])
  {
    u := RefreshToken(cfg, st.nextId, Session(user, 0, now, now, None), now);
  }

  /** Signing out with any token of a session ends it for good. */
  lemma SignedOutForGood(st: State, cfg: Config, t: Token, now: int, ops: seq<Op>, end: State, u: Token, later: int)
    requires Sound(st, cfg) && t in st.issued && t.sid.Some?
    requires Runs(EndToken(st, t, now), cfg, ops, end) && u.sid == t.sid
    ensures Refresh(end, cfg, u, later) == (end, SignedOut)
    ensures forall k :: k in st.sessions && k != t.sid.value ==>
              k in EndToken(st, t, now).sessions && EndToken(st, t, now).sessions[k] == st.sessions[k]
  {
    hide Runs;
    assert TokenSound(st, cfg, t);
    StepIsSound(st, cfg, SignOut(t, now));
    assert Apply(st, cfg, SignOut(t, now)) == EndToken(st, t, now);
    EveryRunOnlyForward(EndToken(st, t, now), cfg, ops, end);
  }

  /** Signing out everywhere ends the user's other sessions for good, and leaves the one kept and everyone else's alone. */
  lemma EverywhereElseForGood(st: State, cfg: Config, user: int, keep: Option<int>, now: int, ops: seq<Op>, end: State,
                              sid: int, u: Token, later: int)
    requires Sound(st, cfg) && user in st.users && sid in st.sessions
    requires Runs(EndAll(st, user, keep, now), cfg, ops, end) && u.sid == Some(sid)
    ensures st.sessions[sid].user == user && keep != Some(sid) ==> Refresh(end, cfg, u, later) == (end, SignedOut)
    ensures st.sessions[sid].user != user || keep == Some(sid) ==> EndAll(st, user, keep, now).sessions[sid] == st.sessions[sid]
  {
    hide Runs;
    StepIsSound(st, cfg, Everywhere(user, keep, now));
    assert Apply(st, cfg, Everywhere(user, keep, now)) == EndAll(st, user, keep, now);
    EveryRunOnlyForward(EndAll(st, user, keep, now), cfg, ops, end);
  }

  // --- Tokens from before sessions ---

  /** When a token from before sessions was issued: it was made for exactly the refresh window. */
  predicate StillGood(st: State, cfg: Config, t: Token, now: int) {
    && now < t.exp && now / 86400 <= cfg.legacyUntil && t.sub in st.users
    && (t.sub in st.validAfter ==> t.exp - 86400 * cfg.refreshDays >= st.validAfter[t.sub])
  }

  /** Such a token is moved into a session of its own exactly while it is good, and otherwise changes nothing. */
  lemma AdoptedExactly(st: State, cfg: Config, t: Token, now: int)
    requires Sound(st, cfg) && t.sid.None?
    ensures var (after, outcome) := Refresh(st, cfg, t, now);
            && (StillGood(st, cfg, t, now) <==> outcome == Granted(st.nextId))
            && (!StillGood(st, cfg, t, now) ==> (after, outcome) == (st, SignedOut))
            && (StillGood(st, cfg, t, now) ==>
                 && after.sessions == st.sessions[st.nextId := Session(t.sub, 0, now, now, None)]
                 && after.validAfter == st.validAfter[t.sub := now] && after.users == st.users
                 && exists u :: after.issued == st.issued + {u} && NewToken(u, st.nextId, after.sessions[st.nextId], 0, cfg, now))
  {
    var (after, outcome) := Refresh(st, cfg, t, now);
    if StillGood(st, cfg, t, now) {
      var u := RefreshToken(cfg, st.nextId, Session(t.sub, 0, now, now, None), now);
      assert after.issued == st.issued + {u};
    }
  }

  /** Signing out everywhere, or with such a token, refuses every one of that user's issued before then, for good. */
  lemma OldTokensRefused(st: State, cfg: Config, op: Op, user: int, ops: seq<Op>, end: State, u: Token, later: int)
    requires (op.Everywhere? && op.user == user) || (op.SignOut? && op.token.sid.None? && op.token.sub == user && user in st.users)
    requires Runs(Apply(st, cfg, op), cfg, ops, end) && Ordered(ops, op.now)
    requires u.sid.None? && u.sub == user && u.exp - 86400 * cfg.refreshDays < op.now
    ensures Refresh(end, cfg, u, later) == (end, SignedOut)
  {
    hide Runs;
    RefusedStays(Apply(st, cfg, op), cfg, ops, end, user, op.now);
  }

  ghost predicate Refused(st: State, user: int, since: int) {
    user in st.validAfter && st.validAfter[user] >= since
  }

  /** Times in a run never go back. */
  predicate Ordered(ops: seq<Op>, since: int) {
    forall i :: 0 <= i < |ops| ==> ops[i].now >= since
  }

  lemma {:induction false} RefusedStays(st: State, cfg: Config, ops: seq<Op>, end: State, user: int, since: int)
    requires Runs(st, cfg, ops, end) && Refused(st, user, since) && Ordered(ops, since)
    ensures Refused(end, user, since) && end.users == st.users
    decreases |ops|
  {
    if ops != [] {
      assert ops[0].now >= since;
      assert forall i :: 0 <= i < |ops[1..]| ==> ops[1..][i] == ops[i + 1];
      RefusedStays(Apply(st, cfg, ops[0]), cfg, ops[1..], end, user, since);
    }
  }

  /** Once one old token is moved into a session, every old token of that user issued before then is refused for good. */
  lemma OldTokensWorkOnce(st: State, cfg: Config, t: Token, now: int, ops: seq<Op>, end: State, u: Token, later: int)
    requires t.sid.None? && Refresh(st, cfg, t, now).1.Granted?
    requires Runs(Refresh(st, cfg, t, now).0, cfg, ops, end) && Ordered(ops, now)
    requires u.sid.None? && u.sub == t.sub && u.exp - DAY * cfg.refreshDays < now
    ensures Refresh(end, cfg, u, later) == (end, SignedOut)
  {
    hide Runs;
    RefusedStays(Refresh(st, cfg, t, now).0, cfg, ops, end, t.sub, now);
  }

  // --- The honest client ---

  /** One thing that happens: the client sends its newest token and the answer arrives or is lost, or others act elsewhere. */
  datatype Event = Sends(now: int, arrives: bool) | Elsewhere(op: Op)

  /** A step that is not about this session. */
  predicate Leaves(st: State, op: Op, sid: int)
    requires sid in st.sessions
  {
    match op
    case SignIn(_, _) => true
    case Present(t, _) => t.sid != Some(sid)
    case SignOut(t, _) => t.sid != Some(sid)
    case Everywhere(user, keep, _) => user != st.sessions[sid].user || keep == Some(sid)
  }

  /** After a lost answer the client retries the same token, and only within the grace of the first try. */
  predicate Patient(unanswered: Option<int>, events: seq<Event>)
    decreases |events|
  {
    if events == [] then true
    else
      match events[0]
      case Elsewhere(_) => Patient(unanswered, events[1..])
      case Sends(now, arrives) =>
        && (unanswered.Some? ==> 0 <= now - unanswered.value < ROTATE_GRACE)
        && Patient(if arrives then None else if unanswered.Some? then unanswered else Some(now), events[1..])
  }

  /** The token the client holds after an answer: the one the server just gave for the session. */
  function HeldAfter(st: State, cfg: Config, sid: int, held: Token, now: int, arrives: bool): Token {
    var (after, outcome) := Refresh(st, cfg, held, now);
    if arrives && outcome == Granted(sid) && sid in after.sessions then RefreshToken(cfg, sid, after.sessions[sid], now) else held
  }

  /** No refresh of the client's ends its session. Told that it is signed out, the client sends no more. */
  predicate NeverEnded(st: State, cfg: Config, sid: int, held: Token, events: seq<Event>)
    decreases |events|
  {
    if events == [] then true
    else
      match events[0]
      case Elsewhere(op) => NeverEnded(Apply(st, cfg, op), cfg, sid, held, events[1..])
      case Sends(now, arrives) =>
        var (after, outcome) := Refresh(st, cfg, held, now);
        && outcome != Taken
        && ((outcome == SignedOut && arrives) || NeverEnded(after, cfg, sid, HeldAfter(st, cfg, sid, held, now, arrives), events[1..]))
  }

  /** Others only act elsewhere. */
  predicate Undisturbed(st: State, cfg: Config, sid: int, held: Token, events: seq<Event>)
    decreases |events|
  {
    if events == [] then true
    else
      match events[0]
      case Elsewhere(op) =>
        sid in st.sessions && Leaves(st, op, sid) && Enabled(st, op) && Undisturbed(Apply(st, cfg, op), cfg, sid, held, events[1..])
      case Sends(now, arrives) =>
        (Refresh(st, cfg, held, now).1 == SignedOut && arrives) ||
        Undisturbed(Refresh(st, cfg, held, now).0, cfg, sid, HeldAfter(st, cfg, sid, held, now, arrives), events[1..])
  }

  /** Where an honest client stands: its token is the newest, or the one before with the rotation's answer outstanding. */
  ghost predicate UpToDate(st: State, sid: int, held: Token, unanswered: Option<int>) {
    && sid in st.sessions && held.sid == Some(sid)
    && (held.gen == st.sessions[sid].generation
        || (unanswered.Some? && held.gen == st.sessions[sid].generation - 1 && st.sessions[sid].lastUsedAt >= unanswered.value))
  }

  lemma LeftAlone(st: State, cfg: Config, op: Op, sid: int)
    requires sid in st.sessions && Leaves(st, op, sid) && Sound(st, cfg) && Enabled(st, op)
    ensures sid in Apply(st, cfg, op).sessions && Apply(st, cfg, op).sessions[sid] == st.sessions[sid]
  {
  }

  /**
   A client that uses its newest token, and retries a lost answer within 30 seconds of that rotation, is
   never ended by a refresh of its own, whatever others do with other sessions in between.
   */
  lemma {:induction false} HonestClientNeverEnded(
      st: State, cfg: Config, sid: int, held: Token, unanswered: Option<int>, events: seq<Event>)
    requires Sound(st, cfg) && held in st.issued && UpToDate(st, sid, held, unanswered)
    requires Patient(unanswered, events) && Undisturbed(st, cfg, sid, held, events)
    ensures NeverEnded(st, cfg, sid, held, events)
    decreases |events|
  {
    if events != [] {
      hide Sound;
      match events[0]
      case Elsewhere(op) =>
        LeftAlone(st, cfg, op, sid);
        StepIsSound(st, cfg, op);
        StillIssued(st, cfg, op, held);
        HonestClientNeverEnded(Apply(st, cfg, op), cfg, sid, held, unanswered, events[1..]);
      case Sends(now, arrives) =>
        StepIsSound(st, cfg, Present(held, now));
        StillIssued(st, cfg, Present(held, now), held);
        var waiting := if arrives then None else if unanswered.Some? then unanswered else Some(now);
        Sent(st, cfg, sid, held, unanswered, now, arrives);
        if !(Refresh(st, cfg, held, now).1 == SignedOut && arrives) {
          HonestClientNeverEnded(Refresh(st, cfg, held, now).0, cfg, sid, HeldAfter(st, cfg, sid, held, now, arrives), waiting, events[1..]);
        }
    }
  }

  lemma StillIssued(st: State, cfg: Config, op: Op, t: Token)
    requires t in st.issued
    ensures t in Apply(st, cfg, op).issued
  {
  }

  /** One send of an up-to-date client leaves it up to date. */
  lemma Sent(st: State, cfg: Config, sid: int, held: Token, unanswered: Option<int>, now: int, arrives: bool)
    requires UpToDate(st, sid, held, unanswered) && held in st.issued
    requires unanswered.Some? ==> 0 <= now - unanswered.value < ROTATE_GRACE
    ensures var (after, outcome) := Refresh(st, cfg, held, now);
            var waiting := if arrives then None else if unanswered.Some? then unanswered else Some(now);
            && outcome != Taken
            && HeldAfter(st, cfg, sid, held, now, arrives) in after.issued
            && ((outcome == SignedOut && arrives) ||
                UpToDate(after, sid, HeldAfter(st, cfg, sid, held, now, arrives), waiting))
  {
  }

  // --- The tables, changed in place ---

  /** The sessions of a user still standing, other than `keep`. */
  function Standing(st: State, user: int, keep: Option<int>): set<int> {
    set sid | sid in st.sessions && st.sessions[sid].user == user && st.sessions[sid].revokedAt.None? && Some(sid) != keep
  }

  class Accounts {
    var users: set<int>
    var sessions: map<int, Session>
    var nextId: nat
    var validAfter: map<int, int>
    ghost var issued: set<Token>

    ghost function St(): State
      reads this
    {
      State(users, sessions, nextId, validAfter, issued)
    }

    constructor ()
      ensures St() == State({}, map[], 0, map[], {})
    {
      users, sessions, nextId, validAfter, issued := {}, map[], 0, map[], {};
    }

    /** Spend a refresh token. */
    method RotateToken(cfg: Config, t: Token, now: int) returns (outcome: Outcome)
      modifies this
      ensures (St(), outcome) == Rotate(old(St()), cfg, t, now)
    {
      if t.sid.None? {
        outcome := Adopt(cfg, t, now);
        return;
      }
      var sid := t.sid.value;
      if sid !in sessions || sessions[sid].revokedAt.Some? || sessions[sid].user != t.sub || now >= SessionEnds(cfg, sessions[sid]) {
        return SignedOut;
      }
      var s := sessions[sid];
      if t.gen == s.generation - 1 && now - s.lastUsedAt < ROTATE_GRACE {
        return Granted(sid);
      }
      if t.gen != s.generation {
        sessions := sessions[sid := s.(revokedAt := Some(now))];
        return Taken;
      }
      sessions := sessions[sid := s.(generation := s.generation + 1, lastUsedAt := now)];
      return Granted(sid);
    }

    method Adopt(cfg: Config, t: Token, now: int) returns (outcome: Outcome)
      modifies this
      ensures (St(), outcome) == AdoptLegacy(old(St()), cfg, t, now)
    {
      if now / DAY > cfg.legacyUntil || t.sub !in users {
        return SignedOut;
      }
      if t.sub in validAfter && t.exp - DAY * cfg.refreshDays < validAfter[t.sub] {
        return SignedOut;
      }
      sessions := sessions[nextId := Session(t.sub, 0, now, now, None)];
      nextId := nextId + 1;
      validAfter := validAfter[t.sub := now];
      return Granted(nextId - 1);
    }

    /** End every session of a user but `keep`, and refuse every token from before sessions. */
    method EndAllSessions(cfg: Config, user: int, keep: Option<int>, now: int) returns (ended: nat)
      requires Sound(St(), cfg)
      modifies this
      ensures St() == EndAll(old(St()), user, keep, now)
      ensures ended == |Standing(old(St()), user, keep)|
    {
      hide Sound, Standing, StandingBelow, EndedBelow;
      ghost var was := St();
      ended := 0;
      var sid := 0;
      NoneStanding(was, cfg, user, keep, now);
      while sid < nextId
        invariant 0 <= sid && nextId == was.nextId && users == was.users && validAfter == was.validAfter && issued == was.issued
        invariant sessions == EndedBelow(was, user, keep, now, sid)
        invariant ended == |StandingBelow(was, user, keep, sid)|
      {
        OneMoreStanding(was, user, keep, now, sid);
        if sid in sessions && sessions[sid].user == user && sessions[sid].revokedAt.None? && Some(sid) != keep {
          sessions := sessions[sid := sessions[sid].(revokedAt := Some(now))];
          ended := ended + 1;
        }
        sid := sid + 1;
      }
      AllStanding(was, cfg, user, keep, now, sid);
      validAfter := validAfter[user := now];
    }
  }

  ghost function StandingBelow(st: State, user: int, keep: Option<int>, below: int): set<int> {
    set sid | sid in Standing(st, user, keep) && sid < below
  }

  ghost function EndedBelow(st: State, user: int, keep: Option<int>, now: int, below: int): map<int, Session> {
    map sid | sid in st.sessions :: if sid < below then EndedUnless(sid, st.sessions[sid], user, keep, now) else st.sessions[sid]
  }

  lemma NoneStanding(st: State, cfg: Config, user: int, keep: Option<int>, now: int)
    requires Sound(st, cfg)
    ensures StandingBelow(st, user, keep, 0) == {}
    ensures EndedBelow(st, user, keep, now, 0) == st.sessions
  {
  }

  lemma OneMoreStanding(st: State, user: int, keep: Option<int>, now: int, sid: int)
    ensures StandingBelow(st, user, keep, sid + 1) ==
            StandingBelow(st, user, keep, sid) + if sid in Standing(st, user, keep) then {sid} else {}
    ensures sid !in StandingBelow(st, user, keep, sid)
    ensures var sessions := EndedBelow(st, user, keep, now, sid);
            && (sid in Standing(st, user, keep) <==>
                 sid in sessions && sessions[sid].user == user && sessions[sid].revokedAt.None? && Some(sid) != keep)
            && EndedBelow(st, user, keep, now, sid + 1) ==
                 if sid in Standing(st, user, keep) then sessions[sid := sessions[sid].(revokedAt := Some(now))] else sessions
  {
  }

  lemma AllStanding(st: State, cfg: Config, user: int, keep: Option<int>, now: int, below: int)
    requires Sound(st, cfg) && below >= st.nextId
    ensures StandingBelow(st, user, keep, below) == Standing(st, user, keep)
    ensures EndedBelow(st, user, keep, now, below) == EndAll(st, user, keep, now).sessions
  {
  }
}
