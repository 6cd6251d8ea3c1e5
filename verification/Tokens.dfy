/** Revoking access tokens with markers that expire (specivo/core/security.py), and the
    sessions they belong to (specivo/services/auth_service.py). */
module Tokens {
  import opened Wrappers
  import opened Clock

  /** An access token; `exp` is in whole seconds. */
  datatype Token = Token(jti: string, sid: string, exp: int)

  /** A Redis key: `jwt_blocklist:` or `revoked_session:`. */
  datatype Key = Blocked(jti: string) | RevokedSession(sid: string)

  /** The keys and when each is gone. */
  type Markers = map<Key, int>

  predicate Exists(markers: Markers, key: Key, at: int) {
    key in markers && at < markers[key]
  }

  /** PyJWT's rule, and that of `access_token_session`. */
  predicate Expired(token: Token, at: int) { Seconds(token.exp) <= at }

  /** `_make_access_token`'s expiry: truncated to whole seconds. */
  function ExpiryOf(now: int, minutes: nat): int { Truncated(now + Seconds(60 * minutes)) }

  /** `blocklist_access_token`'s time to live for a token, computed at `now`. */
  function RemainingTtl(token: Token, now: int): int { Truncated(Seconds(token.exp) - now) + 1 }

  /** `blocklist_token`; a time to live that is not positive writes nothing. */
  function WithBlocked(markers: Markers, jti: string, ttl: int, at: int): Markers {
    if ttl <= 0 then markers else markers[Blocked(jti) := at + Seconds(ttl)]
  }

  function WithRevoked(markers: Markers, sids: set<string>, minutes: nat, at: int): Markers {
    markers + map sid | sid in sids :: RevokedSession(sid) := at + Seconds(minutes * 60 + 1)
  }

  function SetOf(sids: seq<string>): set<string> { set sid | sid in sids }

  lemma OneMoreMark(markers: Markers, sids: seq<string>, i: nat, minutes: nat, at: int)
    requires i < |sids|
    ensures WithRevoked(markers, SetOf(sids[..i + 1]), minutes, at)
         == WithRevoked(markers, SetOf(sids[..i]), minutes, at)
            [RevokedSession(sids[i]) := at + Seconds(minutes * 60 + 1)]
  {
    assert sids[..i + 1] == sids[..i] + [sids[i]];
    assert SetOf(sids[..i + 1]) == SetOf(sids[..i]) + {sids[i]};
  }

  /** `is_access_token_revoked`: either key is there. */
  predicate IsRevoked(markers: Markers, jti: Option<string>, sid: Option<string>, at: int) {
    || (jti.Some? && jti.value != "" && Exists(markers, Blocked(jti.value), at))
    || (sid.Some? && sid.value != "" && Exists(markers, RevokedSession(sid.value), at))
  }

  class Blocklist {
    const minutes: nat   // access_token_expire_minutes
    var markers: Markers

    constructor (minutes: nat)
      ensures this.minutes == minutes && markers == map[]
    {
      this.minutes := minutes;
      markers := map[];
    }

    method BlocklistToken(jti: string, ttlSeconds: int, at: int)
      modifies this
      ensures markers == WithBlocked(old(markers), jti, ttlSeconds, at)
    {
      if ttlSeconds <= 0 { return; }
      markers := markers[Blocked(jti) := at + Seconds(ttlSeconds)];
    }

    /** The signature is checked at `decoded`, the time to live computed at `now`, the key
        written at `at`. */
    method BlocklistAccessToken(token: Token, decoded: int, now: int, at: int)
      modifies this
      ensures markers == if Expired(token, decoded) || token.jti == "" then old(markers)
                         else WithBlocked(old(markers), token.jti, RemainingTtl(token, now), at)
    {
      if Expired(token, decoded) { return; }
      if token.jti == "" { return; }
      BlocklistToken(token.jti, Truncated(Seconds(token.exp) - now) + 1, at);
    }

    method MarkSessionsRevoked(sessionIds: seq<string>, at: int)
      modifies this
      ensures markers == WithRevoked(old(markers), SetOf(sessionIds), minutes, at)
    {
      var ttl := minutes * 60 + 1;
      for i := 0 to |sessionIds|
        invariant markers == WithRevoked(old(markers), SetOf(sessionIds[..i]), minutes, at)
      {
        OneMoreMark(old(markers), sessionIds, i, minutes, at);
        markers := markers[RevokedSession(sessionIds[i]) := at + Seconds(ttl)];
      }
      assert sessionIds[..|sessionIds|] == sessionIds;
    }

    method IsAccessTokenRevoked(jti: Option<string>, sid: Option<string>, at: int) returns (revoked: bool)
      ensures revoked <==> IsRevoked(markers, jti, sid, at)
    {
      var keys: seq<Key> := [];
      if jti.Some? && jti.value != "" { keys := keys + [Blocked(jti.value)]; }
      if sid.Some? && sid.value != "" { keys := keys + [RevokedSession(sid.value)]; }
      revoked := false;
      for i := 0 to |keys|
        invariant revoked <==> exists j :: 0 <= j < i && Exists(markers, keys[j], at)
      {
        if Exists(markers, keys[i], at) { revoked := true; }
      }
      assert |keys| > 0 ==> Exists(markers, keys[0], at) || !Exists(markers, keys[0], at);
      assert |keys| > 1 ==> Exists(markers, keys[1], at) || !Exists(markers, keys[1], at);
    }
  }

  // -------------------------------------------------------------------------
  // Logins, renewals, revocations and logouts in any order
  // -------------------------------------------------------------------------

  /** `rows` are the sessions with a refresh row, `ended` when each other one lost it. */
  datatype State = State(now: int, tokens: set<Token>, rows: set<string>, ended: map<string, int>, markers: Markers)

  /** `lands` is false when the write of a marker is lost. A revocation deletes the rows
      first and marks later. */
  datatype Step =
    | Login(sid: string, jti: string)
    | Refresh(sid: string, jti: string)
    | Revoke(sid: string)
    | Mark(sids: set<string>, lands: bool)
    | Logout(token: Token, decoded: int, read: int, lands: bool)
    | Tick(elapsed: nat)

  predicate FreshJti(s: State, jti: string) { jti != "" && forall t :: t in s.tokens ==> t.jti != jti }

  predicate Enabled(s: State, step: Step) {
    match step
    case Login(sid, jti) => sid != "" && sid !in s.rows && sid !in s.ended && FreshJti(s, jti)
    case Refresh(sid, jti) => FreshJti(s, jti)
    case Revoke(sid) => sid in s.rows
    case Mark(sids, lands) => forall sid :: sid in sids ==> sid in s.ended
    case Logout(token, decoded, read, lands) => token in s.tokens && decoded <= read <= s.now
    case Tick(elapsed) => true
  }

  function Minted(minutes: nat, s: State, sid: string, jti: string): Token { Token(jti, sid, ExpiryOf(s.now, minutes)) }

  function Do(minutes: nat, s: State, step: Step): State {
    match step
    case Login(sid, jti) => s.(rows := s.rows + {sid}, tokens := s.tokens + {Minted(minutes, s, sid, jti)})
    case Refresh(sid, jti) =>
      if sid !in s.rows || IsRevoked(s.markers, None, Some(sid), s.now) then s
      else s.(tokens := s.tokens + {Minted(minutes, s, sid, jti)})
    case Revoke(sid) => s.(rows := s.rows - {sid}, ended := s.ended[sid := s.now])
    case Mark(sids, lands) => if lands then s.(markers := WithRevoked(s.markers, sids, minutes, s.now)) else s
    case Logout(token, decoded, read, lands) =>
      if lands && !Expired(token, decoded)
      then s.(markers := WithBlocked(s.markers, token.jti, RemainingTtl(token, read), s.now)) else s
    case Tick(elapsed) => s.(now := s.now + elapsed)
  }

  const Init := State(0, {}, {}, map[], map[])

  ghost predicate StepAt(minutes: nat, states: seq<State>, steps: seq<Step>, i: nat)
    requires |states| == |steps| + 1 && i < |steps|
  {
    Enabled(states[i], steps[i]) && states[i + 1] == Do(minutes, states[i], steps[i])
  }

  ghost predicate IsRun(minutes: nat, states: seq<State>, steps: seq<Step>) {
    && |states| == |steps| + 1
    && states[0] == Init
    && forall i :: 0 <= i < |steps| ==> StepAt(minutes, states, steps, i)
  }

  /** A bearer is let in: unexpired, and neither key is there. */
  predicate Accepted(s: State, token: Token) {
    token in s.tokens && !Expired(token, s.now) && !IsRevoked(s.markers, Some(token.jti), Some(token.sid), s.now)
  }

  /** A marker for `sid` was written by one of the first `i` steps. */
  ghost predicate MarkedBefore(steps: seq<Step>, i: nat, sid: string) {
    exists j :: 0 <= j < i && j < |steps| && steps[j].Mark? && steps[j].lands && sid in steps[j].sids
  }

  /** The token was blocklisted by one of the first `i` steps. */
  ghost predicate LoggedOutBefore(steps: seq<Step>, i: nat, token: Token) {
    exists j :: 0 <= j < i && j < |steps| && steps[j].Logout? && steps[j].lands && steps[j].token == token
             && !Expired(token, steps[j].decoded)
  }

  ghost predicate Inv(minutes: nat, s: State) {
    && s.now >= 0
    && (forall t :: t in s.tokens ==> t.jti != "" && t.sid != "" && (t.sid in s.rows || t.sid in s.ended))
    && (forall t, u :: t in s.tokens && u in s.tokens && t.jti == u.jti ==> t == u)
    && s.rows !! s.ended.Keys && "" !in s.rows
    && (forall t :: t in s.tokens ==>
          Seconds(t.exp) <= (if t.sid in s.ended then s.ended[t.sid] else s.now) + Seconds(60 * minutes))
    && (forall sid :: sid in s.ended ==> s.ended[sid] <= s.now)
    && (forall sid :: RevokedSession(sid) in s.markers ==> sid in s.ended)
    && (forall jti :: Blocked(jti) in s.markers ==> exists t :: t in s.tokens && t.jti == jti)
  }

  lemma MintedInTime(minutes: nat, now: int)
    requires now >= 0
    ensures Seconds(ExpiryOf(now, minutes)) <= now + Seconds(60 * minutes)
  {
  }

  lemma StepKeepsInv(minutes: nat, s: State, step: Step)
    requires Inv(minutes, s) && Enabled(s, step)
    ensures Inv(minutes, Do(minutes, s, step))
  {
    MintedInTime(minutes, s.now);
  }

  lemma {:induction false} InvHolds(minutes: nat, states: seq<State>, steps: seq<Step>, i: nat)
    requires IsRun(minutes, states, steps) && i <= |steps|
    ensures Inv(minutes, states[i])
  {
    if i > 0 {
      InvHolds(minutes, states, steps, i - 1);
      assert StepAt(minutes, states, steps, i - 1);
      StepKeepsInv(minutes, states[i - 1], steps[i - 1]);
    }
  }

  /** The marker, once written, outlives the token it covers. */
  ghost predicate Covered(s: State, t: Token, key: Key) {
    Seconds(t.exp) <= s.now || (key in s.markers && Seconds(t.exp) <= s.markers[key])
  }

  lemma MarkCovers(minutes: nat, s: State, sids: set<string>, t: Token)
    requires Inv(minutes, s) && Enabled(s, Mark(sids, true)) && t in s.tokens && t.sid in sids
    ensures Covered(Do(minutes, s, Mark(sids, true)), t, RevokedSession(t.sid))
  {
  }

  lemma LogoutCovers(minutes: nat, s: State, token: Token, decoded: int, read: int)
    requires Enabled(s, Logout(token, decoded, read, true)) && !Expired(token, decoded)
    ensures Covered(Do(minutes, s, Logout(token, decoded, read, true)), token, Blocked(token.jti))
  {
    var left := Seconds(token.exp) - read;
    if left >= 0 {
      assert Seconds(Truncated(left) + 1) >= left;
    }
  }

  lemma StepKeepsCover(minutes: nat, s: State, step: Step, t: Token, key: Key)
    requires Inv(minutes, s) && Enabled(s, step) && t in s.tokens && Covered(s, t, key)
    requires key == RevokedSession(t.sid) || key == Blocked(t.jti)
    ensures Covered(Do(minutes, s, step), t, key)
  {
    if step.Mark? && step.lands && t.sid in step.sids { MarkCovers(minutes, s, step.sids, t); }
    if step.Logout? && step.lands && !Expired(step.token, step.decoded) {
      LogoutCovers(minutes, s, step.token, step.decoded, step.read);
    }
  }

  /** A token just minted: its session is open, its jti new. */
  lemma NewTokenIsClean(minutes: nat, s: State, step: Step, t: Token)
    requires Inv(minutes, s) && Enabled(s, step) && t in Do(minutes, s, step).tokens && t !in s.tokens
    ensures t.sid !in s.ended && Do(minutes, s, step).markers == s.markers
    ensures RevokedSession(t.sid) !in s.markers && Blocked(t.jti) !in s.markers
    ensures step.Login? || step.Refresh?
  {
  }

  predicate Marks(step: Step, sid: string) { step.Mark? && step.lands && sid in step.sids }

  predicate LogsOut(step: Step, t: Token) { step.Logout? && step.lands && step.token == t && !Expired(t, step.decoded) }

  lemma OneMoreStep(steps: seq<Step>, i: nat, t: Token)
    requires i < |steps|
    ensures MarkedBefore(steps, i + 1, t.sid) <==> MarkedBefore(steps, i, t.sid) || Marks(steps[i], t.sid)
    ensures LoggedOutBefore(steps, i + 1, t) <==> LoggedOutBefore(steps, i, t) || LogsOut(steps[i], t)
  {
    if Marks(steps[i], t.sid) { assert steps[i].Mark?; }
    if LogsOut(steps[i], t) { assert steps[i].Logout?; }
  }

  /** Marks only hit ended sessions, and only tokens there are get blocklisted. */
  lemma {:induction false} RevokedThingsExist(minutes: nat, states: seq<State>, steps: seq<Step>, i: nat, t: Token)
    requires IsRun(minutes, states, steps) && i <= |steps|
    ensures MarkedBefore(steps, i, t.sid) ==> t.sid in states[i].ended
    ensures LoggedOutBefore(steps, i, t) ==> t in states[i].tokens
  {
    if i > 0 {
      RevokedThingsExist(minutes, states, steps, i - 1, t);
      OneMoreStep(steps, i - 1, t);
      assert StepAt(minutes, states, steps, i - 1);
    }
  }

  /** What has been revoked is covered, and nothing else has a marker. */
  ghost predicate Matches(s: State, steps: seq<Step>, i: nat, t: Token) {
    && (MarkedBefore(steps, i, t.sid) ==> Covered(s, t, RevokedSession(t.sid)))
    && (LoggedOutBefore(steps, i, t) ==> Covered(s, t, Blocked(t.jti)))
    && (RevokedSession(t.sid) in s.markers ==> MarkedBefore(steps, i, t.sid))
    && (Blocked(t.jti) in s.markers ==> LoggedOutBefore(steps, i, t))
  }

  /** In every run, at every moment, a token is accepted exactly when it is unexpired and
      neither its session was marked nor it was blocklisted: no marker ends before the
      tokens it covers, and none hits another token. */
  lemma AcceptedExactly(minutes: nat, states: seq<State>, steps: seq<Step>, i: nat, t: Token)
    requires IsRun(minutes, states, steps) && i <= |steps| && t in states[i].tokens
    ensures Accepted(states[i], t)
        <==> !Expired(t, states[i].now) && !MarkedBefore(steps, i, t.sid) && !LoggedOutBefore(steps, i, t)
  {
    InvHolds(minutes, states, steps, i);
    MarkersMatch(minutes, states, steps, i, t);
  }

  lemma MatchStep(minutes: nat, s: State, step: Step, steps: seq<Step>, i: nat, t: Token)
    requires Inv(minutes, s) && Enabled(s, step) && t in s.tokens && Matches(s, steps, i, t)
    requires i < |steps| && steps[i] == step
    ensures Matches(Do(minutes, s, step), steps, i + 1, t)
  {
    OneMoreStep(steps, i, t);
    if MarkedBefore(steps, i, t.sid) { StepKeepsCover(minutes, s, step, t, RevokedSession(t.sid)); }
    if LoggedOutBefore(steps, i, t) { StepKeepsCover(minutes, s, step, t, Blocked(t.jti)); }
    if Marks(step, t.sid) { MarkCovers(minutes, s, step.sids, t); }
    if LogsOut(step, t) { LogoutCovers(minutes, s, t, step.decoded, step.read); }
  }

  lemma {:induction false} MarkersMatch(minutes: nat, states: seq<State>, steps: seq<Step>, i: nat, t: Token)
    requires IsRun(minutes, states, steps) && i <= |steps| && t in states[i].tokens
    ensures Matches(states[i], steps, i, t)
  {
    if i > 0 {
      assert StepAt(minutes, states, steps, i - 1);
      InvHolds(minutes, states, steps, i - 1);
      var s, step := states[i - 1], steps[i - 1];
      if t in s.tokens {
        MarkersMatch(minutes, states, steps, i - 1, t);
        MatchStep(minutes, s, step, steps, i - 1, t);
      } else {
        NewTokenIsClean(minutes, s, step, t);
        RevokedThingsExist(minutes, states, steps, i - 1, t);
        OneMoreStep(steps, i - 1, t);
      }
    }
  }

  /** Each of the two keys alone is exact for an unexpired token, and without keys nothing
      is revoked. */
  lemma KeysAreExact(minutes: nat, states: seq<State>, steps: seq<Step>, i: nat, t: Token)
    requires IsRun(minutes, states, steps) && i <= |steps| && t in states[i].tokens && !Expired(t, states[i].now)
    ensures IsRevoked(states[i].markers, Some(t.jti), None, states[i].now) <==> LoggedOutBefore(steps, i, t)
    ensures IsRevoked(states[i].markers, None, Some(t.sid), states[i].now) <==> MarkedBefore(steps, i, t.sid)
    ensures !IsRevoked(states[i].markers, None, None, states[i].now)
  {
    InvHolds(minutes, states, steps, i);
    MarkersMatch(minutes, states, steps, i, t);
  }

  /** A token lasts its minutes, but for the fraction of a second cut off. */
  lemma LifetimeOf(minutes: nat, now: int)
    requires now >= 0
    ensures now + Seconds(60 * minutes) - Seconds(1) < Seconds(ExpiryOf(now, minutes)) <= now + Seconds(60 * minutes)
  {
    TruncatesTowardZero(now + Seconds(60 * minutes));
  }

  /** A login is let in with the token it gets, and so is every renewal of an open session:
      no marker left over from anything before refuses either. */
  lemma NewTokenIsAccepted(minutes: nat, states: seq<State>, steps: seq<Step>, i: nat, t: Token)
    requires IsRun(minutes, states, steps) && i < |steps| && minutes >= 1
    requires steps[i].Login? || (steps[i].Refresh? && steps[i].sid in states[i].rows)
    requires t == Token(steps[i].jti, steps[i].sid, ExpiryOf(states[i].now, minutes))
    ensures t !in states[i].tokens && Accepted(states[i + 1], t)
  {
    assert StepAt(minutes, states, steps, i);
    InvHolds(minutes, states, steps, i);
    InvHolds(minutes, states, steps, i + 1);
    LifetimeOf(minutes, states[i].now);
    NewTokenIsClean(minutes, states[i], steps[i], t);
  }

  /** A revocation ends within one token lifetime even when its marker is lost. */
  lemma LostMarkerEndsInTime(minutes: nat, states: seq<State>, steps: seq<Step>, i: nat, t: Token)
    requires IsRun(minutes, states, steps) && i <= |steps| && t in states[i].tokens && t.sid in states[i].ended
    requires states[i].now >= states[i].ended[t.sid] + Seconds(60 * minutes)
    ensures !Accepted(states[i], t)
  {
    InvHolds(minutes, states, steps, i);
  }

  /** A marker lasts for one token lifetime and a second, and no longer. */
  lemma MarkLasts(minutes: nat, s: State, sids: set<string>, sid: string, elapsed: nat)
    requires sid in sids && sid != ""
    ensures var later := Do(minutes, Do(minutes, s, Mark(sids, true)), Tick(elapsed));
      IsRevoked(later.markers, None, Some(sid), later.now) <==> elapsed < Seconds(60 * minutes + 1)
  {
  }

  /** A blocklist key lasts to the end of its token, and ends within a second of it and the
      time its writing took. */
  lemma LogoutLasts(minutes: nat, s: State, token: Token, decoded: int, read: int, elapsed: nat)
    requires Enabled(s, Logout(token, decoded, read, true)) && !Expired(token, decoded) && token.jti != ""
    ensures var later := Do(minutes, Do(minutes, s, Logout(token, decoded, read, true)), Tick(elapsed));
      && (later.now < Seconds(token.exp) ==> IsRevoked(later.markers, Some(token.jti), None, later.now))
      && (read < Seconds(token.exp) && later.now >= Seconds(token.exp) + (s.now - read) + Seconds(1) ==>
            !IsRevoked(later.markers, Some(token.jti), None, later.now))
  {
    LogoutCovers(minutes, s, token, decoded, read);
    TruncatesTowardZero(Seconds(token.exp) - read);
  }

  /** A token without an id and without a session, or with empty ones, is never found revoked. */
  lemma NothingToLookUp(markers: Markers, jti: Option<string>, sid: Option<string>, at: int)
    requires jti.GetOr("") == "" && sid.GetOr("") == ""
    ensures !IsRevoked(markers, jti, sid, at)
  {
  }

  /** Without the extra second a blocklisted token would come back. */
  lemma TruncationNeedsTheSecond(token: Token, now: int)
    requires now < Seconds(token.exp) && Seconds(token.exp) - now != Seconds(Truncated(Seconds(token.exp) - now))
    ensures now + Seconds(RemainingTtl(token, now) - 1) < Seconds(token.exp) < now + Seconds(RemainingTtl(token, now))
  {
  }
}
