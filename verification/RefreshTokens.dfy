/** Refresh-token rotation: tokens are single-use through a blacklist whose own entries expire. */
module RefreshTokens {
  import opened Wrappers

  const ACCESS_SECONDS := 15 * 60
  const REFRESH_SECONDS := 7 * 24 * 3600

  datatype Kind = Access | Refresh

  datatype Token = Token(jti: string, user: string, kind: Kind, iat: int, exp: int)

  /** Times are whole seconds inside a token; the lifetime runs from the exact instant of issue. */
  function MakeToken(jti: string, user: string, kind: Kind, now: real): (t: Token)
    ensures t.iat as real <= now < t.iat as real + 1.0
    ensures now + (if kind == Access then ACCESS_SECONDS else REFRESH_SECONDS) as real - 1.0 < t.exp as real
    ensures t.exp as real <= now + (if kind == Access then ACCESS_SECONDS else REFRESH_SECONDS) as real
  {
    var lifetime := if kind == Access then ACCESS_SECONDS else REFRESH_SECONDS;
    Token(jti, user, kind, now.Floor, (now + lifetime as real).Floor)
  }

  /** Tokens ever issued, and the expiry of each blacklist entry. */
  datatype State = State(issued: map<string, Token>, blacklist: map<string, real>)

  /** Decoding accepts a token before its expiry, or up to a grace period behind it. */
  predicate Decodes(t: Token, now: real, grace: real) {
    now < t.exp as real + grace
  }

  /** A decoder that compares whole seconds and refuses only exp < now grants one second of grace. */
  lemma WholeSecondCheckIsGrace(t: Token, now: real)
    ensures !(t.exp < now.Floor) <==> Decodes(t, now, 1.0)
  {
  }

  predicate Blacklisted(blacklist: map<string, real>, jti: string, now: real) {
    jti in blacklist && now < blacklist[jti]
  }

  /** An entry lives for the token's remaining whole seconds, at least one. */
  function EntryExpiry(exp: int, now: real): (expiry: real)
    ensures now < exp as real ==> exp as real <= expiry < exp as real + 1.0
    ensures now >= exp as real ==> expiry == now + 1.0
  {
    var remaining := exp - now.Floor;
    now + (if remaining > 1 then remaining else 1) as real
  }

  datatype Event =
    | Login(now: real, user: string, access: string, refresh: string)
    | Rotate(now: real, presented: string, active: bool, access: string, refresh: string)

  function Issue(s: State, user: string, access: string, refresh: string, now: real): State {
    s.(issued := s.issued[access := MakeToken(access, user, Access, now)][refresh := MakeToken(refresh, user, Refresh, now)])
  }

  /** The presented token passes the checks of a rotation and is spent by it. */
  predicate Accepts(s: State, jti: string, now: real, grace: real) {
    jti in s.issued && Decodes(s.issued[jti], now, grace) && s.issued[jti].kind == Refresh
    && !Blacklisted(s.blacklist, jti, now)
  }

  function Spend(s: State, jti: string, now: real): State
    requires jti in s.issued
  {
    s.(blacklist := s.blacklist[jti := EntryExpiry(s.issued[jti].exp, now)])
  }

  /** A spent token of an inactive user yields no new pair. */
  function Apply(s: State, e: Event, grace: real): State {
    match e
    case Login(now, user, access, refresh) => Issue(s, user, access, refresh, now)
    case Rotate(now, presented, active, access, refresh) =>
      if !Accepts(s, presented, now, grace) then s
      else
        var spent := Spend(s, presented, now);
        if active then Issue(spent, s.issued[presented].user, access, refresh, now) else spent
  }

  function Run(events: seq<Event>, grace: real): State {
    if events == [] then State(map[], map[])
    else Apply(Run(events[..|events| - 1], grace), events[|events| - 1], grace)
  }

  /** Every issued identifier is new. */
  ghost predicate Fresh(events: seq<Event>, grace: real) {
    events != [] ==>
      var before, e := Run(events[..|events| - 1], grace), events[|events| - 1];
      && Fresh(events[..|events| - 1], grace)
      && e.access !in before.issued && e.refresh !in before.issued && e.access != e.refresh
  }

  /** The event at this position exchanged the token. */
  ghost predicate Exchanges(events: seq<Event>, i: nat, jti: string, grace: real)
    requires i < |events|
  {
    events[i].Rotate? && events[i].presented == jti && Accepts(Run(events[..i], grace), jti, events[i].now, grace)
  }

  ghost predicate SingleUse(events: seq<Event>, grace: real) {
    forall i, j, jti :: 0 <= i < j < |events| && Exchanges(events, i, jti, grace) ==> !Exchanges(events, j, jti, grace)
  }

  /** A blacklist entry outlives the token it blocks. */
  ghost predicate Blocked(s: State, jti: string) {
    jti in s.issued && jti in s.blacklist && s.issued[jti].exp as real <= s.blacklist[jti]
  }

  lemma {:induction false} ExchangedStaysBlocked(events: seq<Event>, i: nat, jti: string, grace: real)
    requires grace <= 0.0 && i < |events| && Fresh(events, grace) && Exchanges(events, i, jti, grace)
    ensures Blocked(Run(events, grace), jti)
  {
    var init := events[..|events| - 1];
    assert i < |init| ==> init[..i] == events[..i];
    if i < |init| {
      ExchangedStaysBlocked(init, i, jti, grace);
    }
  }

  lemma {:induction false} FreshPrefix(events: seq<Event>, n: nat, grace: real)
    requires Fresh(events, grace) && n <= |events|
    ensures Fresh(events[..n], grace)
  {
    if n < |events| {
      var init := events[..|events| - 1];
      FreshPrefix(init, n, grace);
      assert init[..n] == events[..n];
    } else {
      assert events[..n] == events;
    }
  }

  /** When decoding allows no grace, no refresh token is ever exchanged twice, although its blacklist entry expires. */
  lemma NoGraceIsSingleUse(events: seq<Event>, grace: real)
    requires grace <= 0.0 && Fresh(events, grace)
    ensures SingleUse(events, grace)
  {
    forall i, j, jti | 0 <= i < j < |events| && Exchanges(events, i, jti, grace)
      ensures !Exchanges(events, j, jti, grace)
    {
      FreshPrefix(events, j, grace);
      assert events[..j][..i] == events[..i];
      ExchangedStaysBlocked(events[..j], i, jti, grace);
    }
  }

  /** Used one second before its expiry, a token is blocked until its expiry only; any grace accepts it again then. */
  function Replay(): seq<Event> {
    [Login(0.0, "u", "a0", "r0"),
     Rotate((REFRESH_SECONDS - 1) as real, "r0", true, "a1", "r1"),
     Rotate(REFRESH_SECONDS as real, "r0", true, "a2", "r2")]
  }

  lemma GraceAllowsReplay(grace: real)
    requires grace > 0.0
    ensures Fresh(Replay(), grace) && !SingleUse(Replay(), grace)
  {
    var events := Replay();
    assert events[..0] == [] && events[..1][..0] == [] && events[..2][..1] == events[..1] && events[..3] == events;
    var s0, s1, s2 := Run(events[..0], grace), Run(events[..1], grace), Run(events[..2], grace);
    assert s1 == Apply(s0, events[0], grace);
    assert s1.issued["r0"].exp == REFRESH_SECONDS;
    assert Exchanges(events, 1, "r0", grace);
    assert s2 == Apply(s1, events[1], grace);
    assert s2.blacklist["r0"] == REFRESH_SECONDS as real;
    assert Exchanges(events, 2, "r0", grace);
    assert s1.issued.Keys == {"a0", "r0"} && s2.issued.Keys == {"a0", "r0", "a1", "r1"};
    assert Fresh(events[..0], grace) && Fresh(events[..1], grace) && Fresh(events[..2], grace);
  }

  /** Refresh tokens are single-use in every run if and only if decoding rejects them from their expiry on. */
  lemma SingleUseIffNoGrace(grace: real)
    ensures (forall events :: Fresh(events, grace) ==> SingleUse(events, grace)) <==> grace <= 0.0
  {
    if grace <= 0.0 {
      forall events | Fresh(events, grace) ensures SingleUse(events, grace) {
        NoGraceIsSingleUse(events, grace);
      }
    } else {
      GraceAllowsReplay(grace);
    }
  }

  // ---- Whose tokens ----

  /**
   * The user a token was issued for: the one who logged in, followed back from the token through the rotations that it
   * descends from.
   */
  function Subject(events: seq<Event>, jti: string, grace: real): Option<string> {
    if events == [] then None
    else
      var init, e := events[..|events| - 1], events[|events| - 1];
      if jti != e.access && jti != e.refresh then Subject(init, jti, grace)
      else match e
        case Login(_, user, _, _) => Some(user)
        case Rotate(now, presented, active, _, _) =>
          if active && Accepts(Run(init, grace), presented, now, grace) then Subject(init, presented, grace)
          else Subject(init, jti, grace)
  }

  /** The event that issued a token, if any. */
  ghost predicate IssuedBy(events: seq<Event>, i: nat, jti: string, kind: Kind, grace: real)
    requires i < |events|
  {
    && jti == (if kind == Access then events[i].access else events[i].refresh)
    && (events[i].Rotate? ==> events[i].active && Accepts(Run(events[..i], grace), events[i].presented, events[i].now, grace))
  }

  lemma IssuedTokens(user: string, access: string, refresh: string, now: real, s: State)
    requires access != refresh
    ensures var next := Issue(s, user, access, refresh, now);
      && next.issued.Keys == s.issued.Keys + {access, refresh} && next.blacklist == s.blacklist
      && (forall jti :: jti in s.issued && jti != access && jti != refresh ==> next.issued[jti] == s.issued[jti])
      && next.issued[access] == Token(access, user, Access, now.Floor, (now + 900.0).Floor)
      && next.issued[refresh] == Token(refresh, user, Refresh, now.Floor, (now + 604800.0).Floor)
  {
  }

  /** In every run each token carries its own identifier, and the user whose login its rotations descend from. */
  lemma {:induction false} TokensKeepTheirSubject(events: seq<Event>, grace: real, jti: string)
    requires Fresh(events, grace)
    ensures jti in Run(events, grace).issued <==> Subject(events, jti, grace).Some?
    ensures jti in Run(events, grace).issued ==>
      var t := Run(events, grace).issued[jti];
      t.jti == jti && Subject(events, jti, grace) == Some(t.user)
  {
    if events != [] {
      var init, e := events[..|events| - 1], events[|events| - 1];
      TokensKeepTheirSubject(init, grace, jti);
      if e.Rotate? && e.active && Accepts(Run(init, grace), e.presented, e.now, grace) {
        TokensKeepTheirSubject(init, grace, e.presented);
        IssuedTokens(Run(init, grace).issued[e.presented].user, e.access, e.refresh, e.now, Spend(Run(init, grace), e.presented, e.now));
      } else if e.Login? {
        IssuedTokens(e.user, e.access, e.refresh, e.now, Run(init, grace));
      }
    }
  }

  /**
   * In every run each token is an access or refresh token as its event issued it, in whole seconds from the instant of
   * that event, for 15 minutes or 7 days.
   */
  lemma {:induction false} TokensKeepTheirTerm(events: seq<Event>, grace: real, i: nat, jti: string, kind: Kind)
    requires Fresh(events, grace) && i < |events| && IssuedBy(events, i, jti, kind, grace)
    ensures jti in Run(events, grace).issued
    ensures var t, at := Run(events, grace).issued[jti], events[i].now;
      t.kind == kind && t.iat == at.Floor && t.exp == (at + if kind == Access then 900.0 else 604800.0).Floor
  {
    var init, e := events[..|events| - 1], events[|events| - 1];
    if i < |init| {
      assert init[..i] == events[..i];
      TokensKeepTheirTerm(init, grace, i, jti, kind);
    }
    if e.Rotate? && e.active && Accepts(Run(init, grace), e.presented, e.now, grace) {
      IssuedTokens(Run(init, grace).issued[e.presented].user, e.access, e.refresh, e.now, Spend(Run(init, grace), e.presented, e.now));
    } else if e.Login? {
      IssuedTokens(e.user, e.access, e.refresh, e.now, Run(init, grace));
    }
  }

  // ---- How many refresh tokens are usable ----

  function Usable(s: State, now: real): set<string> {
    set jti | jti in s.issued && Accepts(s, jti, now, 0.0)
  }

  lemma SpendRemoves(s: State, jti: string, now: real)
    requires Accepts(s, jti, now, 0.0)
    ensures Usable(Spend(s, jti, now), now) == Usable(s, now) - {jti}
    ensures Blocked(Spend(s, jti, now), jti)
  {
  }

  lemma IssueAdds(s: State, user: string, access: string, refresh: string, now: real)
    requires access !in s.issued && refresh !in s.issued && access != refresh
    ensures Usable(Issue(s, user, access, refresh, now), now) <= Usable(s, now) + {refresh}
    ensures !Blacklisted(s.blacklist, refresh, now) ==>
      Usable(Issue(s, user, access, refresh, now), now) == Usable(s, now) + {refresh}
  {
  }

  /** Spent tokens stay blocked until they expire, so passing time only takes tokens away. */
  ghost predicate Lasting(s: State) {
    forall jti :: jti in s.blacklist ==> Blocked(s, jti)
  }

  /** A rotation trades the presented token for one new one, or loses it when the user is inactive. */
  lemma RotationNeverAdds(s: State, e: Event)
    requires Lasting(s)
    requires e.Rotate? && e.access !in s.issued && e.refresh !in s.issued && e.access != e.refresh
    ensures |Usable(Apply(s, e, 0.0), e.now)| <= |Usable(s, e.now)|
    ensures !Accepts(s, e.presented, e.now, 0.0) ==> Usable(Apply(s, e, 0.0), e.now) == Usable(s, e.now)
    ensures Accepts(s, e.presented, e.now, 0.0) ==>
      Usable(Apply(s, e, 0.0), e.now) == Usable(s, e.now) - {e.presented} + (if e.active then {e.refresh} else {})
  {
    if Accepts(s, e.presented, e.now, 0.0) {
      var before := Usable(s, e.now);
      var spent := Spend(s, e.presented, e.now);
      SpendRemoves(s, e.presented, e.now);
      assert e.presented in before;
      if e.active {
        assert e.refresh in s.blacklist ==> Blocked(s, e.refresh);
        IssueAdds(spent, s.issued[e.presented].user, e.access, e.refresh, e.now);
        assert |before - {e.presented}| == |before| - 1;
      }
    }
  }

  lemma {:induction false} SubsetSize<T>(a: set<T>, b: set<T>)
    requires a <= b
    ensures |a| <= |b|
  {
    assert b == a + (b - a);
  }

  lemma TimeOnlyRemoves(s: State, now: real, later: real)
    requires Lasting(s) && now <= later
    ensures Usable(s, later) <= Usable(s, now)
  {
  }

  ghost predicate Ordered(events: seq<Event>) {
    forall i, j :: 0 <= i < j < |events| ==> events[i].now <= events[j].now
  }

  function Logins(events: seq<Event>): nat {
    if events == [] then 0
    else Logins(events[..|events| - 1]) + if events[|events| - 1].Login? then 1 else 0
  }

  lemma {:induction false} RunIsLasting(events: seq<Event>)
    requires Fresh(events, 0.0)
    ensures Lasting(Run(events, 0.0))
  {
    if events != [] {
      var init, e := events[..|events| - 1], events[|events| - 1];
      RunIsLasting(init);
      var s, next := Run(init, 0.0), Run(events, 0.0);
      forall jti | jti in next.blacklist ensures Blocked(next, jti) {
        assert jti in s.blacklist ==> Blocked(s, jti);
        if e.Rotate? && jti == e.presented && Accepts(s, jti, e.now, 0.0) {
          SpendRemoves(s, jti, e.now);
        }
      }
    }
  }

  /** In every run, at any later instant, there are no more usable refresh tokens than there have been logins. */
  lemma {:induction false} UsableAtMostLogins(events: seq<Event>, now: real)
    requires Fresh(events, 0.0) && Ordered(events)
    requires events != [] ==> events[|events| - 1].now <= now
    ensures |Usable(Run(events, 0.0), now)| <= Logins(events)
  {
    if events != [] {
      var init, e := events[..|events| - 1], events[|events| - 1];
      var s, next := Run(init, 0.0), Run(events, 0.0);
      UsableAtMostLogins(init, e.now);
      if e.Login? {
        IssueAdds(s, e.user, e.access, e.refresh, e.now);
        SubsetSize(Usable(next, e.now), Usable(s, e.now) + {e.refresh});
      } else {
        RunIsLasting(init);
        RotationNeverAdds(s, e);
      }
      RunIsLasting(events);
      TimeOnlyRemoves(next, e.now, now);
      SubsetSize(Usable(next, now), Usable(next, e.now));
    }
  }

  // ---- The service ----

  class TokenService {
    var blacklist: map<string, real>
    const grace: real

    /** Tokens live with their holders; only a token issued here carries a valid signature. */
    ghost var issued: map<string, Token>

    constructor (grace: real)
      ensures StateNow() == State(map[], map[]) && this.grace == grace
    {
      blacklist, issued := map[], map[];
      this.grace := grace;
    }

    ghost function StateNow(): State
      reads this
    {
      State(issued, blacklist)
    }

    method BlacklistToken(jti: string, exp: int, now: real)
      modifies this`blacklist
      ensures blacklist == old(blacklist)[jti := EntryExpiry(exp, now)]
    {
      var remaining := exp - now.Floor;
      if remaining < 1 {
        remaining := 1;
      }
      blacklist := blacklist[jti := now + remaining as real];
    }

    method IssuePair(user: string, access: string, refresh: string, now: real) returns (pair: (Token, Token))
      modifies this`issued
      ensures StateNow() == Issue(old(StateNow()), user, access, refresh, now)
      ensures pair == (MakeToken(access, user, Access, now), MakeToken(refresh, user, Refresh, now))
    {
      pair := (MakeToken(access, user, Access, now), MakeToken(refresh, user, Refresh, now));
      issued := issued[access := pair.0][refresh := pair.1];
    }

    method RotateRefreshToken(token: Token, signed: bool, active: bool, access: string, refresh: string, now: real)
      returns (pair: Option<(Token, Token)>)
      requires signed <==> token.jti in issued && issued[token.jti] == token
      modifies this
      ensures !signed ==> pair == None && StateNow() == old(StateNow())
      ensures signed ==> StateNow() == Apply(old(StateNow()), Rotate(now, token.jti, active, access, refresh), grace)
      ensures pair == if signed && active && Accepts(old(StateNow()), token.jti, now, grace)
        then Some((MakeToken(access, token.user, Access, now), MakeToken(refresh, token.user, Refresh, now)))
        else None
      ensures pair.Some? ==>
        && pair.value.0 == Token(access, token.user, Access, now.Floor, (now + 900.0).Floor)
        && pair.value.1 == Token(refresh, token.user, Refresh, now.Floor, (now + 604800.0).Floor)
    {
      if !signed || !Decodes(token, now, grace) || token.kind != Refresh {
        return None;
      }
      if Blacklisted(blacklist, token.jti, now) {
        return None;
      }
      BlacklistToken(token.jti, token.exp, now);
      if !active {
        return None;
      }
      var tokens := IssuePair(token.user, access, refresh, now);
      return Some(tokens);
    }
  }
}
