/** Session tokens and the epoch that revokes them (internal/api/admin.go,
    internal/api/config.go, internal/cli/cli.go). */
module Session {
  import opened Text
  import opened Tables

  const MAX_INT64 := 0x7FFF_FFFF_FFFF_FFFF

  predicate InInt64(n: int) { -MAX_INT64 - 1 <= n <= MAX_INT64 }

  // ---- strconv ----

  predicate Digit(c: char) { '0' <= c <= '9' }

  function Digits(n: nat): string {
    if n < 10 then ['0' + n as char] else Digits(n / 10) + ['0' + (n % 10) as char]
  }

  function FormatInt(n: int): string {
    if n < 0 then "-" + Digits(-n) else Digits(n)
  }

  predicate AllDigits(s: string) {
    forall i | 0 <= i < |s| :: Digit(s[i])
  }

  function Value(s: string): nat
    requires AllDigits(s)
  {
    if s == "" then 0 else 10 * Value(s[..|s| - 1]) + (s[|s| - 1] as nat - '0' as nat)
  }

  /** strconv.ParseInt(s, 10, 64): one optional sign, digits only, in range. */
  function ParseInt(s: string): Option<int> {
    var signed := s != "" && (s[0] == '-' || s[0] == '+');
    var body := if signed then s[1..] else s;
    if body == "" || !AllDigits(body) then None
    else
      var n: int := if signed && s[0] == '-' then 0 - (Value(body) as int) else Value(body) as int;
      if InInt64(n) then Some(n) else None
  }

  lemma {:induction false} DigitsValue(n: nat)
    ensures Digits(n) != "" && AllDigits(Digits(n)) && Value(Digits(n)) == n
  {
    if n >= 10 {
      DigitsValue(n / 10);
      var s := Digits(n);
      assert s[..|s| - 1] == Digits(n / 10);
    } else {
      assert Digits(n)[..0] == "";
    }
  }

  lemma ParseFormat(n: int)
    requires InInt64(n)
    ensures ParseInt(FormatInt(n)) == Some(n)
    ensures '.' !in FormatInt(n)
  {
    hide Digits;
    var m: nat := if n < 0 then -n else n;
    DigitsValue(m);
    var s := FormatInt(n);
    if n < 0 {
      assert s[0] == '-' && s[1..] == Digits(m);
    } else {
      assert Digit(s[0]);
    }
    assert forall i | 0 <= i < |s| :: Digit(s[i]) || s[i] == '-';
  }

  /** A sign or leading zeros make no difference to the number read; anything that is
      not an optional sign and digits is not a number. */
  lemma ParseIntReads(zeros: string, n: int)
    requires 0 <= n <= MAX_INT64 && forall i | 0 <= i < |zeros| :: zeros[i] == '0'
    ensures var body := zeros + Digits(n);
      ParseInt(body) == ParseInt("+" + body) == Some(n) && ParseInt("-" + body) == Some(0 - n)
  {
    hide Digits, ParseInt;
    DigitsValue(n);
    ZerosValue(zeros, Digits(n));
    SignedBody(zeros + Digits(n));
  }

  lemma SignedBody(body: string)
    requires body != "" && AllDigits(body) && Value(body) <= MAX_INT64
    ensures var n: int := Value(body);
      ParseInt(body) == ParseInt("+" + body) == Some(n) && ParseInt("-" + body) == Some(0 - n)
  {
    assert Digit(body[0]);
    hide AllDigits, Value;
    assert ("+" + body)[0] == '+' && ("+" + body)[1..] == body;
    assert ("-" + body)[0] == '-' && ("-" + body)[1..] == body;
  }

  lemma {:induction false} ZerosValue(zeros: string, s: string)
    requires AllDigits(s) && forall i | 0 <= i < |zeros| :: zeros[i] == '0'
    ensures AllDigits(zeros + s) && Value(zeros + s) == Value(s)
    decreases |zeros| + |s|
  {
    var all := zeros + s;
    if s != "" {
      var n := |s| - 1;
      assert all[..|all| - 1] == zeros + s[..n] && all[|all| - 1] == s[n];
      ZerosValue(zeros, s[..n]);
    } else if zeros != "" {
      var n := |zeros| - 1;
      assert all == zeros && all[..n] == zeros[..n] + "";
      ZerosValue(zeros[..n], "");
    }
  }

  lemma NotANumber(s: string)
    requires s == "" || exists i | 0 <= i < |s| :: !Digit(s[i]) && (i > 0 || (s[0] != '-' && s[0] != '+') || |s| == 1)
    ensures ParseInt(s) == None
  {
    if s != "" {
      var i :| 0 <= i < |s| && !Digit(s[i]) && (i > 0 || (s[0] != '-' && s[0] != '+') || |s| == 1);
      if s[0] == '-' || s[0] == '+' {
        assert |s| > 1 ==> s[1..][i - 1] == s[i];
      }
    }
  }

  // ---- tokens ----

  /** HMAC and base64url as they come: functions of which only this much is used. */
  datatype Signer = Signer(mac: string -> string, encode: string -> string, decode: string -> Option<string>)

  ghost predicate Faithful(k: Signer) {
    forall x :: k.decode(k.encode(x)) == Some(x) && '.' !in k.encode(x)
  }

  function Expiry(issuedAt: int, ttl: int): int {
    if ttl > 0 then issuedAt + ttl else 0
  }

  function Payload(exp: string, epoch: string, nonce: string): string {
    exp + "." + epoch + "." + nonce
  }

  function IssueToken(k: Signer, issuedAt: int, ttl: int, epoch: int, nonce: string): string {
    var payload := Payload(FormatInt(Expiry(issuedAt, ttl)), FormatInt(epoch), k.encode(nonce));
    payload + "." + k.encode(k.mac(payload))
  }

  function VerifyToken(k: Signer, token: string, now: int, epoch: int): bool {
    var parts := Split(token, '.');
    && |parts| == 4
    && ParseInt(parts[0]).Some?
    && (ParseInt(parts[0]).value == 0 || ParseInt(parts[0]).value >= now)
    && ParseInt(parts[1]) == Some(epoch)
    && k.decode(parts[3]) == Some(k.mac(Payload(parts[0], parts[1], parts[2])))
  }

  lemma FourParts(a: string, b: string, c: string, d: string)
    requires '.' !in a && '.' !in b && '.' !in c && '.' !in d
    ensures Split(Payload(a, b, c) + "." + d, '.') == [a, b, c, d]
  {
    var parts := [a, b, c, d];
    assert parts[1..] == [b, c, d] && parts[1..][1..] == [c, d] && parts[1..][1..][1..] == [d];
    assert Join([d], '.') == d;
    assert Join([c, d], '.') == c + ['.'] + Join([c, d][1..], '.') && [c, d][1..] == [d];
    assert Join([b, c, d], '.') == b + ['.'] + Join([b, c, d][1..], '.') && [b, c, d][1..] == [c, d];
    assert Join(parts, '.') == a + ['.'] + Join(parts[1..], '.');
    assert Payload(a, b, c) + "." + d == Join(parts, '.');
    SplitJoin(parts, '.');
  }

  /** A token verifies exactly under its own epoch and up to its expiry; without a
      lifetime it never expires. (A lifetime that ends in the very second 0 of the
      Unix clock reads as none.) */
  lemma VerifiesIff(k: Signer, issuedAt: int, ttl: int, tokenEpoch: int, nonce: string, now: int, epoch: int)
    requires Faithful(k) && InInt64(Expiry(issuedAt, ttl)) && InInt64(tokenEpoch)
    ensures VerifyToken(k, IssueToken(k, issuedAt, ttl, tokenEpoch, nonce), now, epoch)
       <==> epoch == tokenEpoch && (ttl <= 0 || issuedAt + ttl == 0 || now <= issuedAt + ttl)
  {
    hide FormatInt, ParseInt, Split, Payload;
    var exp := Expiry(issuedAt, ttl);
    ParseFormat(exp);
    ParseFormat(tokenEpoch);
    var payload := Payload(FormatInt(exp), FormatInt(tokenEpoch), k.encode(nonce));
    FourParts(FormatInt(exp), FormatInt(tokenEpoch), k.encode(nonce), k.encode(k.mac(payload)));
  }

  /** A token put together from any parts, under the signature of any payload: it
      verifies if and only if it has the right epoch, is not over, and the two payloads
      have the same mac. So altering an expiry, an epoch or a nonce under an old
      signature is noticed unless the mac cannot tell the difference. */
  lemma AlteredVerifiesIff(k: Signer, exp: string, epochText: string, nonce: string, signed: string, now: int, epoch: int)
    requires Faithful(k) && '.' !in exp && '.' !in epochText && '.' !in nonce
    ensures var payload := Payload(exp, epochText, nonce);
      VerifyToken(k, payload + "." + k.encode(k.mac(signed)), now, epoch)
      <==> && ParseInt(exp).Some? && (ParseInt(exp).value == 0 || now <= ParseInt(exp).value)
           && ParseInt(epochText) == Some(epoch) && k.mac(payload) == k.mac(signed)
  {
    hide ParseInt, Split, Payload;
    FourParts(exp, epochText, nonce, k.encode(k.mac(signed)));
  }

  // ---- runs ----

  /** The part of the configuration that sessions depend on. */
  datatype Config = Config(hasPassword: bool, epoch: int, ttlMinutes: int)

  /** What the server starts from without a configuration file: sessions of seven days. */
  const DEFAULTS := Config(false, 0, 10080)

  /** `saved` says whether the new configuration validated and was written. */
  datatype Act =
    | Setup(saved: bool)
    | Login
    | Migrate(saved: bool)
    | ChangePassword(verified: bool, saved: bool)
    | ResetSessions(saved: bool)
    | ResetPassword(saved: bool)
    | ResetConfig(saved: bool)
    | PutConfig(ttlMinutes: int, saved: bool)

  /** sessionEnabled: a password is configured, or the legacy variable holds one
      (`legacy`), which stands in at once when the configuration has none. */
  predicate Enabled(legacy: bool, c: Config) {
    c.hasPassword || legacy
  }

  function Act1(legacy: bool, c: Config, a: Act): Config {
    match a
    case Setup(saved) => if !Enabled(legacy, c) && saved then c.(hasPassword := true) else c
    case Login => c
    case Migrate(saved) => if legacy && saved then c.(hasPassword := true) else c
    case ChangePassword(verified, saved) =>
      if Enabled(legacy, c) && verified && saved then c.(hasPassword := true, epoch := c.epoch + 1) else c
    case ResetSessions(saved) => if saved then c.(epoch := c.epoch + 1) else c
    case ResetPassword(saved) => if saved then c.(hasPassword := false) else c
    case ResetConfig(saved) => if saved then DEFAULTS else c
    case PutConfig(ttl, saved) =>
      if saved && (ttl == 0 || ttl >= 5) then Config(c.hasPassword, c.epoch, ttl) else c
  }

  function Run(legacy: bool, c: Config, acts: seq<Act>): Config
    decreases |acts|
  {
    if acts == [] then c else Run(legacy, Act1(legacy, c, acts[0]), acts[1..])
  }

  /** No run leaves a lifetime that the settings do not allow. */
  lemma {:induction false} LifetimeStaysValid(legacy: bool, c: Config, acts: seq<Act>)
    requires c.ttlMinutes == 0 || c.ttlMinutes >= 5
    ensures var r := Run(legacy, c, acts); r.ttlMinutes == 0 || r.ttlMinutes >= 5
    decreases |acts|
  {
    if acts != [] {
      LifetimeStaysValid(legacy, Act1(legacy, c, acts[0]), acts[1..]);
    }
  }

  /** A saved setting of the lifetime is in force from then on, and moves nothing else;
      a refused one moves nothing. */
  lemma PutConfigSets(legacy: bool, c: Config, ttl: int, saved: bool)
    ensures Act1(legacy, c, PutConfig(ttl, saved))
         == if saved && (ttl == 0 || ttl >= 5) then c.(ttlMinutes := ttl) else c
  {
  }

  /** A password, once set, goes away only with a reset of it or of the configuration. */
  lemma {:induction false} PasswordStays(legacy: bool, c: Config, acts: seq<Act>)
    requires c.hasPassword && forall i | 0 <= i < |acts| :: acts[i] != ResetPassword(true) && acts[i] != ResetConfig(true)
    ensures Run(legacy, c, acts).hasPassword
    decreases |acts|
  {
    if acts != [] {
      PasswordStays(legacy, Act1(legacy, c, acts[0]), acts[1..]);
    }
  }

  /** Setup is the way in only where there is no password of either kind; then it
      works, and revokes nothing. */
  lemma SetupOnlyOnce(legacy: bool, c: Config)
    ensures Act1(legacy, c, Setup(true)) == if Enabled(legacy, c) then c else c.(hasPassword := true)
    ensures Enabled(legacy, Act1(legacy, c, Setup(true)))
  {
  }

  /** Successful password changes and session resets in a run. */
  function Bumps(legacy: bool, c: Config, acts: seq<Act>): nat
    decreases |acts|
  {
    if acts == [] then 0 else
      (if acts[0].ChangePassword? && Enabled(legacy, c) && acts[0].verified && acts[0].saved then 1
       else if acts[0].ResetSessions? && acts[0].saved then 1 else 0) + Bumps(legacy, Act1(legacy, c, acts[0]), acts[1..])
  }

  /** The configuration file is deleted somewhere in the run. */
  predicate StartsOver(acts: seq<Act>) {
    acts != [] && (acts[0] == ResetConfig(true) || StartsOver(acts[1..]))
  }

  /** The acts after the last time that happens. */
  function SinceThen(acts: seq<Act>): seq<Act> {
    if acts == [] then []
    else if StartsOver(acts[1..]) then SinceThen(acts[1..])
    else if acts[0] == ResetConfig(true) then acts[1..]
    else acts
  }

  /** As long as the file stays, the epoch counts the revocations. */
  lemma {:induction false} EpochCountsBumps(legacy: bool, c: Config, acts: seq<Act>)
    requires !StartsOver(acts)
    ensures Run(legacy, c, acts).epoch == c.epoch + Bumps(legacy, c, acts)
    decreases |acts|
  {
    if acts != [] {
      EpochCountsBumps(legacy, Act1(legacy, c, acts[0]), acts[1..]);
    }
  }

  /** Deleting it makes a run forget everything before. */
  lemma {:induction false} RunStartsOver(legacy: bool, c: Config, acts: seq<Act>)
    requires StartsOver(acts)
    ensures Run(legacy, c, acts) == Run(legacy, DEFAULTS, SinceThen(acts)) && !StartsOver(SinceThen(acts))
    decreases |acts|
  {
    if StartsOver(acts[1..]) {
      RunStartsOver(legacy, Act1(legacy, c, acts[0]), acts[1..]);
    }
  }

  /** Nothing in the run takes the epoch away from c's: no revocation, or a fresh
      start and since then exactly as many revocations as c's epoch counts. */
  predicate EpochIsBack(legacy: bool, c: Config, acts: seq<Act>) {
    if StartsOver(acts) then Bumps(legacy, DEFAULTS, SinceThen(acts)) == c.epoch else Bumps(legacy, c, acts) == 0
  }

  lemma EpochIsBackIff(legacy: bool, c: Config, acts: seq<Act>)
    ensures Run(legacy, c, acts).epoch == c.epoch <==> EpochIsBack(legacy, c, acts)
  {
    if StartsOver(acts) {
      RunStartsOver(legacy, c, acts);
      EpochCountsBumps(legacy, DEFAULTS, SinceThen(acts));
    } else {
      EpochCountsBumps(legacy, c, acts);
    }
  }

  /** What a login hands out under the configuration it finds. */
  function LoginToken(k: Signer, c: Config, now: int, nonce: string): string {
    IssueToken(k, now, c.ttlMinutes * 60, c.epoch, nonce)
  }

  /** validSession: in setup mode no token is good. */
  predicate ValidSession(k: Signer, legacy: bool, c: Config, token: string, now: int) {
    Enabled(legacy, c) && VerifyToken(k, token, now, c.epoch)
  }

  /** A session is accepted after a run exactly if there is a password then, the epoch
      is where it was, and its lifetime, fixed at login, is not over: later settings
      of the lifetime do not reach it. */
  lemma SessionSurvivesIff(k: Signer, legacy: bool, c: Config, loginAt: int, nonce: string, acts: seq<Act>, now: int)
    requires Faithful(k) && InInt64(Expiry(loginAt, c.ttlMinutes * 60)) && InInt64(c.epoch) && loginAt > 0
    ensures ValidSession(k, legacy, Run(legacy, c, acts), LoginToken(k, c, loginAt, nonce), now)
       <==> && Enabled(legacy, Run(legacy, c, acts)) && EpochIsBack(legacy, c, acts)
            && (c.ttlMinutes <= 0 || now <= loginAt + c.ttlMinutes * 60)
  {
    hide VerifyToken, IssueToken, Faithful, Run, EpochIsBack;
    EpochIsBackIff(legacy, c, acts);
    VerifiesIff(k, loginAt, c.ttlMinutes * 60, c.epoch, nonce, now, Run(legacy, c, acts).epoch);
  }

  /** Clearing the password revokes no session. It only suspends them, and that only
      if no legacy password stands in: then none is accepted until the next setup,
      after which the old ones are, as if nothing had happened. */
  lemma PasswordResetSuspends(k: Signer, legacy: bool, c: Config, loginAt: int, nonce: string, now: int)
    requires Faithful(k) && InInt64(Expiry(loginAt, c.ttlMinutes * 60)) && InInt64(c.epoch) && loginAt > 0 && c.hasPassword
    ensures var token := LoginToken(k, c, loginAt, nonce);
      var was := ValidSession(k, legacy, c, token, now);
      && (ValidSession(k, legacy, Run(legacy, c, [ResetPassword(true)]), token, now) <==> legacy && was)
      && (ValidSession(k, legacy, Run(legacy, c, [ResetPassword(true), Setup(true)]), token, now) <==> was)
  {
    hide VerifyToken, IssueToken;
    var reset := [ResetPassword(true)];
    var both := [ResetPassword(true), Setup(true)];
    assert reset[1..] == [] && both[1..] == [Setup(true)] && both[1..][1..] == [];
    assert Run(legacy, c, both) == Run(legacy, Run(legacy, c, reset), [Setup(true)]);
  }

  lemma {:induction false} RunAppend(legacy: bool, c: Config, before: seq<Act>, after: seq<Act>)
    ensures Run(legacy, c, before + after) == Run(legacy, Run(legacy, c, before), after)
    ensures Bumps(legacy, c, before + after) == Bumps(legacy, c, before) + Bumps(legacy, Run(legacy, c, before), after)
    ensures StartsOver(before + after) <==> StartsOver(before) || StartsOver(after)
    decreases |before|
  {
    if before == [] {
      assert before + after == after;
    } else {
      assert (before + after)[0] == before[0] && (before + after)[1..] == before[1..] + after;
      RunAppend(legacy, Act1(legacy, c, before[0]), before[1..], after);
    }
  }

  /** After a revocation a token is not good again as long as the configuration file
      stays; if it is deleted afterwards, the token is good exactly when there is a
      password, its lifetime lasts, and since the last deletion as many revocations
      were made as its epoch counts. */
  lemma RevokedForGoodIff(k: Signer, legacy: bool, c: Config, loginAt: int, nonce: string, before: seq<Act>, after: seq<Act>, now: int)
    requires Faithful(k) && InInt64(Expiry(loginAt, c.ttlMinutes * 60)) && InInt64(c.epoch) && loginAt > 0
    requires Bumps(legacy, c, before) > 0 && !StartsOver(before)
    ensures ValidSession(k, legacy, Run(legacy, c, before + after), LoginToken(k, c, loginAt, nonce), now)
       <==> && StartsOver(after) && Bumps(legacy, DEFAULTS, SinceThen(after)) == c.epoch
            && Enabled(legacy, Run(legacy, c, before + after)) && (c.ttlMinutes <= 0 || now <= loginAt + c.ttlMinutes * 60)
  {
    hide VerifyToken, IssueToken, Faithful, Run, Bumps, SinceThen, StartsOver;
    RunAppend(legacy, c, before, after);
    SessionSurvivesIff(k, legacy, c, loginAt, nonce, before + after, now);
    if StartsOver(after) {
      SinceThenOfLater(before, after);
    }
  }

  lemma {:induction false} SinceThenOfLater(before: seq<Act>, after: seq<Act>)
    requires StartsOver(after)
    ensures StartsOver(before + after) && SinceThen(before + after) == SinceThen(after)
    decreases |before|
  {
    if before == [] {
      assert before + after == after;
    } else {
      assert (before + after)[0] == before[0] && (before + after)[1..] == before[1..] + after;
      SinceThenOfLater(before[1..], after);
    }
  }

  /** While the configuration file stays, revoked is revoked for good. */
  lemma RevokedForGood(k: Signer, legacy: bool, c: Config, loginAt: int, nonce: string, before: seq<Act>, after: seq<Act>, now: int)
    requires Faithful(k) && InInt64(Expiry(loginAt, c.ttlMinutes * 60)) && InInt64(c.epoch) && loginAt > 0
    requires Bumps(legacy, c, before) > 0 && !StartsOver(before + after)
    ensures !VerifyToken(k, LoginToken(k, c, loginAt, nonce), now, Run(legacy, c, before + after).epoch)
    ensures !ValidSession(k, legacy, Run(legacy, c, before + after), LoginToken(k, c, loginAt, nonce), now)
  {
    hide VerifyToken, IssueToken, Faithful, Run, Bumps;
    RunAppend(legacy, c, before, after);
    EpochCountsBumps(legacy, c, before + after);
    VerifiesIff(k, loginAt, c.ttlMinutes * 60, c.epoch, nonce, now, Run(legacy, c, before + after).epoch);
  }

  /** A run in which it is not: a session of the very first epoch is revoked, the
      configuration file is deleted, a password is set up, and it is accepted again. */
  lemma DeletedConfigRevives(k: Signer, c: Config, loginAt: int, nonce: string, now: int)
    requires Faithful(k) && InInt64(Expiry(loginAt, c.ttlMinutes * 60)) && loginAt > 0
    requires c.epoch == 0 && c.hasPassword && (c.ttlMinutes <= 0 || now <= loginAt + c.ttlMinutes * 60)
    ensures var token := LoginToken(k, c, loginAt, nonce);
      && !ValidSession(k, false, Run(false, c, [ResetSessions(true)]), token, now)
      && ValidSession(k, false, Run(false, c, [ResetSessions(true)] + [ResetConfig(true), Setup(true)]), token, now)
  {
    hide VerifyToken, IssueToken, Faithful;
    var before, after := [ResetSessions(true)], [ResetConfig(true), Setup(true)];
    assert before[1..] == [] && after[1..] == [Setup(true)] && after[1..][1..] == [];
    assert before + [] == before;
    RunAppend(false, c, before, after);
    RevokedForGoodIff(k, false, c, loginAt, nonce, before, [], now);
    RevokedForGoodIff(k, false, c, loginAt, nonce, before, after, now);
  }
}
