/** The App JWT that signedAppJWT signs and reuses. Times are nanoseconds since the Unix epoch. */
module AppToken {
  import opened Durations
  import opened Wrappers

  /** Registered claims of RFC 7519: iat (section 4.1.6) and exp (section 4.1.4), in whole seconds. */
  datatype Claims = Claims(issuer: string, issuedAt: int, expiresAt: int)

  function ClaimsAt(issuer: string, now: int): Claims {
    Claims(issuer, (now - 60 * SECOND) / SECOND, (now + 9 * MINUTE) / SECOND)
  }

  /** What the claims of a token signed at `now` must say: the App issues them, a minute before its clock
      in case GitHub's runs behind, and they expire nine minutes after it; all to the whole second. */
  ghost predicate MadeFor(claims: Claims, issuer: string, now: int) {
    && claims.issuer == issuer
    && claims.issuedAt * 1_000_000_000 <= now - 60_000_000_000 < (claims.issuedAt + 1) * 1_000_000_000
    && claims.expiresAt * 1_000_000_000 <= now + 540_000_000_000 < (claims.expiresAt + 1) * 1_000_000_000
  }

  lemma ClaimsMadeFor(claims: Claims, issuer: string, now: int)
    ensures MadeFor(claims, issuer, now) <==> claims == ClaimsAt(issuer, now)
  {}

  /** The two fields kept between calls; no token yet is the empty string. */
  datatype Kept = Kept(jwt: string, expires: int)

  predicate Reusable(s: Kept, now: int) {
    s.jwt != "" && now + MINUTE < s.expires
  }

  /** One call: when it was made, and what signing would give then (None on a signing error). */
  datatype Call = Call(now: int, signed: Option<string>)

  function After(s: Kept, call: Call): Kept {
    if !Reusable(s, call.now) && call.signed.Some? then Kept(call.signed.value, call.now + 9 * MINUTE) else s
  }

  function Returned(s: Kept, call: Call): Option<string> {
    if Reusable(s, call.now) then Some(s.jwt) else call.signed
  }

  class Signer {
    const issuer: string
    var appJWT: string
    var jwtExpires: int

    ghost function State(): Kept
      reads this
    {
      Kept(appJWT, jwtExpires)
    }

    constructor (issuer: string)
      ensures State().jwt == "" && this.issuer == issuer
    {
      this.issuer := issuer;
      appJWT := "";
      jwtExpires := 0;
    }

    /** signedAppJWT. What it signs says what it must, and a token that is kept from now on expires, by its
        claims and by the record, nine minutes from now. */
    method SignedAppJWT(now: int, sign: Claims -> Option<string>) returns (token: Option<string>)
      modifies this
      ensures forall claims :: MadeFor(claims, issuer, now) ==>
                var call := Call(now, sign(claims));
                && token == Returned(old(State()), call) && State() == After(old(State()), call)
                && (State() != old(State()) ==> State() == Kept(sign(claims).value, now + 540_000_000_000))
      ensures exists claims :: MadeFor(claims, issuer, now)
    {
      forall claims: Claims
        ensures MadeFor(claims, issuer, now) <==> claims == ClaimsAt(issuer, now)
      {
        ClaimsMadeFor(claims, issuer, now);
      }
      assert MadeFor(ClaimsAt(issuer, now), issuer, now);
      if appJWT != "" && now + MINUTE < jwtExpires {
        return Some(appJWT);
      }
      var expires := now + 9 * MINUTE;
      token := sign(Claims(issuer, (now - 60 * SECOND) / SECOND, expires / SECOND));
      if token == None {
        return None;
      }
      appJWT, jwtExpires := token.value, expires;
    }
  }

  // ----- any sequence of calls

  datatype Signing = Signing(at: int, jwt: string)

  function Run(s: Kept, calls: seq<Call>): Kept {
    if calls == [] then s else After(Run(s, calls[..|calls| - 1]), calls[|calls| - 1])
  }

  /** The successful signings of a sequence of calls, oldest first. */
  function Signings(s: Kept, calls: seq<Call>): seq<Signing> {
    if calls == [] then []
    else
      var earlier, call := calls[..|calls| - 1], calls[|calls| - 1];
      var before := Run(s, earlier);
      Signings(s, earlier)
      + if !Reusable(before, call.now) && call.signed.Some? then [Signing(call.now, call.signed.value)] else []
  }

  const NO_TOKEN := Kept("", 0)

  /** A compact JWS is never empty. */
  ghost predicate NeverEmpty(calls: seq<Call>) {
    forall call <- calls :: call.signed.Some? ==> call.signed.value != ""
  }

  /** The kept token is the one signed last, due nine minutes after its signing. */
  lemma {:induction false} KeptIsLastSigned(calls: seq<Call>)
    ensures var signings := Signings(NO_TOKEN, calls);
            Run(NO_TOKEN, calls) ==
              if signings == [] then NO_TOKEN
              else Kept(signings[|signings| - 1].jwt, signings[|signings| - 1].at + 9 * MINUTE)
  {
    if calls != [] {
      KeptIsLastSigned(calls[..|calls| - 1]);
    }
  }

  /** A returned token is the one signed last, and claims made for it are exactly ten minutes from iat to
      exp; its recorded expiry is more than one minute ahead, and so, up to its rounding to whole seconds,
      is its exp claim. */
  lemma ReturnedIsCurrent(issuer: string, calls: seq<Call>, call: Call, claims: Claims)
    requires NeverEmpty(calls + [call]) && Returned(Run(NO_TOKEN, calls), call).Some?
    ensures var signings := Signings(NO_TOKEN, calls + [call]);
            && signings != []
            && var last := signings[|signings| - 1];
               && Returned(Run(NO_TOKEN, calls), call) == Some(last.jwt)
               && last.at + 540_000_000_000 > call.now + 60_000_000_000
               && (MadeFor(claims, issuer, last.at) ==>
                     && claims.expiresAt - claims.issuedAt == 600
                     && claims.expiresAt * 1_000_000_000 > call.now + 59_000_000_000)
  {
    var all := calls + [call];
    assert all[..|all| - 1] == calls;
    KeptIsLastSigned(calls);
  }

  ghost predicate Spaced(signings: seq<Signing>) {
    forall i :: 0 < i < |signings| ==> signings[i].at - signings[i - 1].at >= 8 * MINUTE
  }

  /** Two successive signings are at least eight minutes apart, whatever the clock does. */
  lemma {:induction false} SigningsSpaced(calls: seq<Call>)
    requires NeverEmpty(calls)
    ensures Spaced(Signings(NO_TOKEN, calls))
    ensures forall signing <- Signings(NO_TOKEN, calls) :: signing.jwt != ""
  {
    if calls != [] {
      var earlier := calls[..|calls| - 1];
      forall c | c in earlier ensures c in calls {}
      SigningsSpaced(earlier);
      KeptIsLastSigned(earlier);
      assert calls[|calls| - 1] in calls;
    }
  }

  /** The signings made at times from `from` to `to`, whatever was signed before or after. */
  function During(signings: seq<Signing>, from: int, to: int): seq<Signing> {
    if signings == [] then []
    else
      var last := signings[|signings| - 1];
      During(signings[..|signings| - 1], from, to) + if from <= last.at <= to then [last] else []
  }

  lemma {:induction false} DuringInside(signings: seq<Signing>, from: int, to: int)
    ensures forall s <- During(signings, from, to) :: s in signings && from <= s.at <= to
  {
    if signings != [] {
      DuringInside(signings[..|signings| - 1], from, to);
    }
  }

  /** Every earlier signing is eight minutes or more before the last one. */
  lemma {:induction false} LastIsLatest(signings: seq<Signing>)
    requires signings != [] && Spaced(signings)
    ensures forall s <- signings[..|signings| - 1] :: signings[|signings| - 1].at - s.at >= 8 * MINUTE
  {
    var n := |signings| - 1;
    if n > 0 {
      var front := signings[..n];
      LastIsLatest(front);
      assert front[..n - 1] + [front[n - 1]] == front;
    }
  }

  lemma {:induction false} DuringSpaced(signings: seq<Signing>, from: int, to: int)
    requires Spaced(signings)
    ensures Spaced(During(signings, from, to))
  {
    if signings != [] {
      var n := |signings| - 1;
      DuringSpaced(signings[..n], from, to);
      DuringInside(signings[..n], from, to);
      LastIsLatest(signings);
      var earlier := During(signings[..n], from, to);
      assert earlier != [] ==> earlier[|earlier| - 1] in earlier;
    }
  }

  lemma {:induction false} SpacedSpan(signings: seq<Signing>)
    requires signings != [] && Spaced(signings)
    ensures signings[|signings| - 1].at - signings[0].at >= 8 * MINUTE * (|signings| - 1)
  {
    if |signings| > 1 {
      SpacedSpan(signings[..|signings| - 1]);
    }
  }

  lemma WholeSpans(n: nat, span: nat)
    requires 8 * MINUTE * n <= span
    ensures n <= span / (8 * MINUTE)
  {
    assert 8 * MINUTE == 480_000_000_000;
  }

  lemma {:induction false} DuringCounts(signings: seq<Signing>, from: int, to: int)
    ensures |During(signings, from, to)| == |set i: nat | i < |signings| && from <= signings[i].at <= to|
  {
    if signings != [] {
      var n := |signings| - 1;
      DuringCounts(signings[..n], from, to);
      var earlier := set i: nat | i < n && from <= signings[..n][i].at <= to;
      assert (set i: nat | i < |signings| && from <= signings[i].at <= to)
          == earlier + if from <= signings[n].at <= to then {n} else {};
    }
  }

  /** Of any calls, however many and however the clock runs, at most floor(T / 8 min) + 1 sign within a
      span of T. */
  lemma FewSignings(calls: seq<Call>, from: int, span: nat)
    requires NeverEmpty(calls)
    ensures var all := Signings(NO_TOKEN, calls);
            |set i: nat | i < |all| && from <= all[i].at <= from + span| <= span / 480_000_000_000 + 1
  {
    DuringCounts(Signings(NO_TOKEN, calls), from, from + span);
    hide Signings, During, Spaced;
    var signings := Signings(NO_TOKEN, calls);
    var during := During(signings, from, from + span);
    if during != [] {
      SigningsSpaced(calls);
      DuringSpaced(signings, from, from + span);
      DuringInside(signings, from, from + span);
      SpacedSpan(during);
      assert during[0] in during && during[|during| - 1] in during;
      WholeSpans(|during| - 1, span);
    }
  }
}
