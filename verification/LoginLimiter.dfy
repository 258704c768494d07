/** Failed logins per client address (internal/api/ratelimit.go) and how login and
    changePassword use them (internal/api/admin.go). Times are whole seconds. */
module LoginLimiter {

  datatype Lock = NoLock | Until(end: int)

  /** One address: failures counted so far, and the end of its lock if it is locked. */
  datatype Entry = Entry(fails: nat, until: Lock)

  const FRESH := Entry(0, NoLock)

  /** The two handlers that check a password: only a login clears the entry when it is right. */
  datatype Handler = Login | ChangePassword

  /** What the client sends, and what comes of it. */
  datatype Body = Malformed | Password(correct: bool)

  datatype Answer = Refused | BadRequest | Wrong | Right

  /** locked: an expired lock clears the entry on the way. */
  function Unlock(e: Entry, now: int): (Entry, bool) {
    if e.until.NoLock? then (e, false)
    else if now > e.until.end then (FRESH, false)
    else (e, true)
  }

  function Failed(e: Entry, max: int, lock: int, now: int): Entry {
    if max <= 0 || lock <= 0 then e
    else Entry(e.fails + 1, if e.fails + 1 >= max then Until(now + lock) else e.until)
  }

  /** One attempt, seen from its address. */
  function Attempt(e: Entry, max: int, lock: int, now: int, via: Handler, body: Body): (Entry, Answer) {
    var (u, isLocked) := if max > 0 && lock > 0 then Unlock(e, now) else (e, false);
    if isLocked then (u, Refused)
    else match body
      case Malformed => (u, BadRequest)
      case Password(correct) => if correct then (if via.Login? then FRESH else u, Right) else (Failed(u, max, lock, now), Wrong)
  }

  class Limiter {
    var fails: map<string, nat>
    var until: map<string, int>

    constructor ()
      ensures forall ip :: View(ip) == FRESH
    {
      fails, until := map[], map[];
    }

    function View(ip: string): Entry
      reads this
    {
      Entry(if ip in fails then fails[ip] else 0, if ip in until then Until(until[ip]) else NoLock)
    }

    method Locked(ip: string, now: int) returns (locked: bool)
      modifies this
      ensures (View(ip), locked) == Unlock(old(View(ip)), now)
      ensures forall other | other != ip :: View(other) == old(View(other))
    {
      if ip !in until {
        return false;
      }
      if now > until[ip] {
        until := until - {ip};
        fails := fails - {ip};
        return false;
      }
      return true;
    }

    /** Returns the lock that starts with this failure, or 0. */
    method RecordFailure(ip: string, max: int, lock: int, now: int) returns (remaining: int)
      modifies this
      ensures View(ip) == Failed(old(View(ip)), max, lock, now)
      ensures remaining == if max > 0 && lock > 0 && old(View(ip)).fails + 1 >= max then lock else 0
      ensures forall other | other != ip :: View(other) == old(View(other))
    {
      if max <= 0 || lock <= 0 {
        return 0;
      }
      fails := fails[ip := (if ip in fails then fails[ip] else 0) + 1];
      if fails[ip] >= max {
        until := until[ip := now + lock];
        return lock;
      }
      return 0;
    }

    method Clear(ip: string)
      modifies this
      ensures View(ip) == FRESH
      ensures forall other | other != ip :: View(other) == old(View(other))
    {
      fails := fails - {ip};
      until := until - {ip};
    }

    /** login, up to the point where the password is right or not. */
    method Login(ip: string, max: int, lock: int, now: int, body: Body) returns (a: Answer)
      modifies this
      ensures (View(ip), a) == Attempt(old(View(ip)), max, lock, now, Handler.Login, body)
      ensures forall other | other != ip :: View(other) == old(View(other))
    {
      a := Check(ip, max, lock, now, body);
      if a.Right? {
        Clear(ip);
      }
    }

    /** changePassword, up to the same point; a right old password clears nothing. */
    method ChangePassword(ip: string, max: int, lock: int, now: int, body: Body) returns (a: Answer)
      modifies this
      ensures (View(ip), a) == Attempt(old(View(ip)), max, lock, now, Handler.ChangePassword, body)
      ensures forall other | other != ip :: View(other) == old(View(other))
    {
      a := Check(ip, max, lock, now, body);
    }

    /** What both do first, in this order: lock check, body, password, bookkeeping. */
    method Check(ip: string, max: int, lock: int, now: int, body: Body) returns (a: Answer)
      modifies this
      ensures (View(ip), a) == Attempt(old(View(ip)), max, lock, now, Handler.ChangePassword, body)
      ensures forall other | other != ip :: View(other) == old(View(other))
    {
      if max > 0 && lock > 0 {
        var isLocked := Locked(ip, now);
        if isLocked {
          return Refused;
        }
      }
      if body.Malformed? {
        return BadRequest;
      }
      if !body.correct {
        var _ := RecordFailure(ip, max, lock, now);
        return Wrong;
      }
      return Right;
    }
  }

  // ---- what an attempt is answered ----

  /** Inside its lock window an address is refused whatever it sends, even the right
      password; outside, or with the limiter off, it never is: a malformed body is
      refused as such, and otherwise the password decides. */
  lemma AnswerIs(e: Entry, max: int, lock: int, now: int, via: Handler, body: Body)
    ensures var a := Attempt(e, max, lock, now, via, body).1;
      var inWindow := max > 0 && lock > 0 && e.until.Until? && now <= e.until.end;
      && (a.Refused? <==> inWindow)
      && (a.BadRequest? <==> !inWindow && body.Malformed?)
      && (a.Wrong? <==> !inWindow && body == Password(false))
      && (a.Right? <==> !inWindow && body == Password(true))
  {
  }

  /** An attempt of one address at a time. */
  datatype Try = Try(ip: string, now: int, via: Handler, body: Body)

  /** What the attempts of one address are answered, in order, and its entry after them. */
  function Answers(e: Entry, max: int, lock: int, tries: seq<Try>): seq<Answer>
    decreases |tries|
  {
    if tries == [] then [] else
      var (e', a) := Attempt(e, max, lock, tries[0].now, tries[0].via, tries[0].body);
      [a] + Answers(e', max, lock, tries[1..])
  }

  /** As long as a lock lasts every attempt is refused, and the lock does not move. */
  lemma {:induction false} LockedRefusesAll(e: Entry, max: int, lock: int, tries: seq<Try>)
    requires max > 0 && lock > 0 && e.until.Until? && forall i | 0 <= i < |tries| :: tries[i].now <= e.until.end
    ensures |Answers(e, max, lock, tries)| == |tries|
    ensures forall i | 0 <= i < |tries| :: Answers(e, max, lock, tries)[i] == Refused
    decreases |tries|
  {
    if tries != [] {
      LockedRefusesAll(e, max, lock, tries[1..]);
    }
  }

  /** The wrong password that reaches the threshold locks the address: until lock
      seconds are over every attempt is refused, and the first one after is not. */
  lemma ThresholdLocks(e: Entry, max: int, lock: int, now: int, via: Handler, tries: seq<Try>, later: Try)
    requires max > 0 && lock > 0 && e.until.NoLock? && e.fails + 1 >= max
    requires forall i | 0 <= i < |tries| :: tries[i].now <= now + lock
    requires later.now > now + lock
    ensures var (e', a) := Attempt(e, max, lock, now, via, Password(false));
      && a.Wrong? && |Answers(e', max, lock, tries)| == |tries|
      && (forall i | 0 <= i < |tries| :: Answers(e', max, lock, tries)[i] == Refused)
      && !Attempt(e', max, lock, later.now, later.via, later.body).1.Refused?
  {
    LockedRefusesAll(Attempt(e, max, lock, now, via, Password(false)).0, max, lock, tries);
  }

  /** Below the threshold a wrong password counts one failure and locks nothing. */
  lemma BelowThreshold(e: Entry, max: int, lock: int, now: int, via: Handler)
    requires max > 0 && lock > 0 && e.until.NoLock? && e.fails + 1 < max
    ensures Attempt(e, max, lock, now, via, Password(false)) == (Entry(e.fails + 1, NoLock), Wrong)
  {
  }

  /** A right password that is not refused: by login it makes all that follows as if
      the address had never been seen, by changePassword it changes nothing but that a
      lock which is over is forgotten. */
  lemma RightPassword(e: Entry, max: int, lock: int, now: int, via: Handler, rest: seq<Try>)
    requires max > 0 && lock > 0 && !(e.until.Until? && now <= e.until.end)
    ensures var (e', a) := Attempt(e, max, lock, now, via, Password(true));
      && a.Right?
      && Answers(e', max, lock, rest) == Answers(if via.Login? || e.until.Until? then FRESH else e, max, lock, rest)
  {
  }

  /** With either setting at zero or below nobody is ever refused. */
  lemma {:induction false} SwitchedOff(e: Entry, max: int, lock: int, tries: seq<Try>)
    requires max <= 0 || lock <= 0
    ensures forall a | a in Answers(e, max, lock, tries) :: !a.Refused?
    decreases |tries|
  {
    if tries != [] {
      SwitchedOff(Attempt(e, max, lock, tries[0].now, tries[0].via, tries[0].body).0, max, lock, tries[1..]);
    }
  }

  // ---- how many passwords can be tried ----

  /** A login that succeeds. */
  predicate Success(t: Try) {
    t.via.Login? && t.body == Password(true)
  }

  /** Wrong passwords checked for ip in a run of attempts of many addresses. */
  function Checked(entries: map<string, Entry>, max: int, lock: int, tries: seq<Try>, ip: string): nat
    decreases |tries|
  {
    if tries == [] then 0 else
      var t := tries[0];
      var (e, a) := Attempt(if t.ip in entries then entries[t.ip] else FRESH, max, lock, t.now, t.via, t.body);
      (if t.ip == ip && a.Wrong? then 1 else 0) + Checked(entries[t.ip := e], max, lock, tries[1..], ip)
  }

  /** The same for the attempts of that address alone. */
  function CheckedAlone(e: Entry, max: int, lock: int, tries: seq<Try>): nat
    decreases |tries|
  {
    if tries == [] then 0 else
      var (e', a) := Attempt(e, max, lock, tries[0].now, tries[0].via, tries[0].body);
      (if a.Wrong? then 1 else 0) + CheckedAlone(e', max, lock, tries[1..])
  }

  function Of(tries: seq<Try>, ip: string): seq<Try> {
    if tries == [] then [] else (if tries[0].ip == ip then [tries[0]] else []) + Of(tries[1..], ip)
  }

  /** Other addresses neither use up nor refill anyone's attempts. */
  lemma {:induction false} OthersDoNotMatter(entries: map<string, Entry>, max: int, lock: int, tries: seq<Try>, ip: string)
    ensures Checked(entries, max, lock, tries, ip)
         == CheckedAlone(if ip in entries then entries[ip] else FRESH, max, lock, Of(tries, ip))
    decreases |tries|
  {
    if tries != [] {
      var t := tries[0];
      var e := Attempt(if t.ip in entries then entries[t.ip] else FRESH, max, lock, t.now, t.via, t.body).0;
      OthersDoNotMatter(entries[t.ip := e], max, lock, tries[1..], ip);
      if t.ip == ip {
        assert Of(tries, ip)[1..] == Of(tries[1..], ip);
      } else {
        assert Of(tries, ip) == Of(tries[1..], ip);
      }
    }
  }

  /** A clock that never goes back, from a to b, and no successful login on the way. */
  predicate Within(tries: seq<Try>, a: int, b: int) {
    tries == [] || (a <= tries[0].now <= b && !Success(tries[0]) && Within(tries[1..], tries[0].now, b))
  }

  /** max passwords for every whole round of lock + 1 seconds in x. */
  function Budget(max: int, lock: int, x: int): int
    requires lock > 0
  {
    max * (x / (lock + 1))
  }

  /** The most wrong passwords an entry still allows from a to b. */
  function Cap(e: Entry, max: int, lock: int, a: int, b: int): int
    requires max > 0 && lock > 0
  {
    match e.until
    case NoLock => (if max - e.fails > 1 then max - e.fails else 1) + Budget(max, lock, b - a)
    case Until(u) => if b <= u then 0 else max + Budget(max, lock, b - (if a > u then a else u + 1))
  }

  lemma MulMono(a: int, b: int, c: int)
    requires a >= 0 && b <= c
    ensures a * b <= a * c
  {
  }

  lemma DivUnique(n: int, m: int, q: int, r: int)
    requires m > 0 && 0 <= r < m && n == m * q + r
    ensures n / m == q
  {
    var p := n / m;
    assert n == m * p + n % m;
    if p > q {
      MulMono(m, q + 1, p);
    } else if p < q {
      MulMono(m, p + 1, q);
    }
  }

  lemma DivMono(x: int, y: int, m: int)
    requires m > 0 && x <= y
    ensures x / m <= y / m
  {
    assert x == m * (x / m) + x % m && y == m * (y / m) + y % m;
    if x / m > y / m {
      MulMono(m, y / m + 1, x / m);
    }
  }

  lemma Fewer(max: int, lock: int, x: int, y: int)
    requires max > 0 && lock > 0 && x <= y
    ensures Budget(max, lock, x) <= Budget(max, lock, y)
  {
    DivMono(x, y, lock + 1);
    MulMono(max, x / (lock + 1), y / (lock + 1));
  }

  lemma OneRoundLess(max: int, lock: int, x: int)
    requires lock > 0
    ensures Budget(max, lock, x - lock - 1) == Budget(max, lock, x) - max
  {
    var m := lock + 1;
    assert x == m * (x / m) + x % m;
    DivUnique(x - m, m, x / m - 1, x % m);
  }

  lemma NoTime(max: int, lock: int)
    requires lock > 0
    ensures Budget(max, lock, 0) == 0
  {
    DivUnique(0, lock + 1, 0, 0);
  }

  lemma StepWithinCap(e: Entry, max: int, lock: int, a: int, b: int, t: Try)
    requires max > 0 && lock > 0 && a <= t.now <= b && !Success(t)
    ensures var (e', ans) := Attempt(e, max, lock, t.now, t.via, t.body);
      (if ans.Wrong? then 1 else 0) + Cap(e', max, lock, t.now, b) <= Cap(e, max, lock, a, b)
  {
    hide Budget;
    Fewer(max, lock, b - t.now, b - a);
    OneRoundLess(max, lock, b - t.now);
    NoTime(max, lock);
    Fewer(max, lock, 0, b - t.now);
    match e.until {
      case NoLock =>
      case Until(u) =>
        if t.now > u {
          Fewer(max, lock, b - t.now, b - (if a > u then a else u + 1));
        } else if b > u {
          Fewer(max, lock, b - (if t.now > u then t.now else u + 1), b - (if a > u then a else u + 1));
        }
    }
  }

  lemma {:induction false} CheckedWithinCap(e: Entry, max: int, lock: int, tries: seq<Try>, a: int, b: int)
    requires max > 0 && lock > 0 && Within(tries, a, b) && a <= b
    ensures CheckedAlone(e, max, lock, tries) <= Cap(e, max, lock, a, b)
    decreases |tries|
  {
    if tries == [] {
      hide Budget;
      NoTime(max, lock);
      Fewer(max, lock, 0, b - a);
      if e.until.Until? && b > e.until.end {
        Fewer(max, lock, 0, b - (if a > e.until.end then a else e.until.end + 1));
      }
    } else {
      hide Attempt, Cap;
      StepWithinCap(e, max, lock, a, b, tries[0]);
      CheckedWithinCap(Attempt(e, max, lock, tries[0].now, tries[0].via, tries[0].body).0, max, lock, tries[1..], tries[0].now, b);
    }
  }

  lemma CapAtMost(e: Entry, max: int, lock: int, a: int, d: nat)
    requires max > 0 && lock > 0
    ensures Cap(e, max, lock, a, a + d) <= max * (1 + d / (lock + 1))
  {
    assert max * (1 + d / (lock + 1)) == max + Budget(max, lock, d) by {
      Distribute(max, d / (lock + 1));
    }
    hide Budget;
    NoTime(max, lock);
    Fewer(max, lock, 0, d);
    if e.until.Until? && a + d > e.until.end {
      Fewer(max, lock, a + d - (if a > e.until.end then a else e.until.end + 1), d);
    }
  }

  lemma Distribute(a: int, b: int)
    ensures a * (1 + b) == a + a * b
  {
  }

  /** The attempt bound: from any state, within d seconds and without a successful login,
      at most max * (1 + d div (lock + 1)) wrong passwords of one address are
      checked, by login and changePassword together, whatever other addresses do
      in between and however often the password is changed. */
  lemma AttemptBound(entries: map<string, Entry>, max: int, lock: int, tries: seq<Try>, ip: string, a: int, d: nat)
    requires max > 0 && lock > 0 && Within(Of(tries, ip), a, a + d)
    ensures Checked(entries, max, lock, tries, ip) <= max * (1 + d / (lock + 1))
  {
    OthersDoNotMatter(entries, max, lock, tries, ip);
    var e := if ip in entries then entries[ip] else FRESH;
    CheckedWithinCap(e, max, lock, Of(tries, ip), a, a + d);
    CapAtMost(e, max, lock, a, d);
  }

  // ---- and that many really can be ----

  function Guesses(ip: string, now: int, n: nat): seq<Try> {
    if n == 0 then [] else [Try(ip, now, Login, Password(false))] + Guesses(ip, now, n - 1)
  }

  /** All the guesses one round allows, then as soon as the lock is over the next round. */
  function Rounds(ip: string, max: nat, lock: nat, now: int, k: nat): seq<Try>
    decreases k
  {
    if k == 0 then [] else Guesses(ip, now, max) + Rounds(ip, max, lock, now + lock + 1, k - 1)
  }

  /** Nothing stands in the way of an attempt now. */
  predicate Open(e: Entry, now: int) {
    if e.until.NoLock? then e.fails == 0 else now > e.until.end
  }

  lemma {:induction false} RoundChecked(e: Entry, max: nat, lock: nat, ip: string, now: int, n: nat, rest: seq<Try>)
    requires max > 0 && lock > 0 && 0 < n <= max && e == Entry(max - n, NoLock)
    ensures CheckedAlone(e, max, lock, Guesses(ip, now, n) + rest) == n + CheckedAlone(Entry(max, Until(now + lock)), max, lock, rest)
    decreases n
  {
    var tries := Guesses(ip, now, n) + rest;
    assert tries[0] == Try(ip, now, Login, Password(false)) && tries[1..] == Guesses(ip, now, n - 1) + rest;
    if n == 1 {
      assert tries[1..] == rest;
    } else {
      RoundChecked(Entry(max - n + 1, NoLock), max, lock, ip, now, n - 1, rest);
    }
  }

  /** A lock that is over makes no difference to a fresh entry. */
  lemma OpenIsFresh(e: Entry, max: nat, lock: nat, tries: seq<Try>)
    requires max > 0 && lock > 0 && tries != [] && Open(e, tries[0].now)
    ensures CheckedAlone(e, max, lock, tries) == CheckedAlone(FRESH, max, lock, tries)
  {
  }

  lemma {:induction false} RoundsChecked(e: Entry, max: nat, lock: nat, ip: string, now: int, k: nat)
    requires max > 0 && lock > 0 && Open(e, now)
    ensures CheckedAlone(e, max, lock, Rounds(ip, max, lock, now, k)) == max * k
    decreases k
  {
    if k > 0 {
      var rest := Rounds(ip, max, lock, now + lock + 1, k - 1);
      RoundsChecked(Entry(max, Until(now + lock)), max, lock, ip, now + lock + 1, k - 1);
      OpenIsFresh(e, max, lock, Guesses(ip, now, max) + rest);
      RoundChecked(FRESH, max, lock, ip, now, max, rest);
      Distribute(max, k - 1);
    }
  }

  function Span(k: nat, lock: nat): nat {
    if k <= 1 then 0 else lock + 1 + Span(k - 1, lock)
  }

  lemma {:induction false} SpanIs(k: nat, lock: nat)
    requires k > 0
    ensures Span(k, lock) == (lock + 1) * (k - 1)
  {
    if k > 1 {
      SpanIs(k - 1, lock);
      Distribute(lock + 1, k - 2);
    }
  }

  lemma {:induction false} RoundsWithin(max: nat, lock: nat, ip: string, now: int, k: nat)
    requires max > 0
    ensures Within(Rounds(ip, max, lock, now, k), now, now + Span(k, lock))
    ensures k > 0 ==> Rounds(ip, max, lock, now, k) != [] && Rounds(ip, max, lock, now, k)[0].now == now
    decreases k
  {
    if k > 0 {
      var rest := Rounds(ip, max, lock, now + lock + 1, k - 1);
      RoundsWithin(max, lock, ip, now + lock + 1, k - 1);
      GuessesWithin(ip, now, max, rest, now + Span(k, lock));
    }
  }

  lemma {:induction false} GuessesWithin(ip: string, now: int, n: nat, rest: seq<Try>, b: int)
    requires now <= b && (rest == [] || now <= rest[0].now) && (rest == [] || Within(rest, rest[0].now, b))
    ensures Within(Guesses(ip, now, n) + rest, now, b)
    decreases n
  {
    var tries := Guesses(ip, now, n) + rest;
    if n == 0 {
      assert tries == rest;
    } else {
      assert tries[0] == Try(ip, now, Login, Password(false)) && tries[1..] == Guesses(ip, now, n - 1) + rest;
      GuessesWithin(ip, now, n - 1, rest, b);
    }
  }

  /** The bound is reached: in any d seconds, guessing as soon as each lock ends,
      exactly max * (1 + d div (lock + 1)) passwords are checked. */
  lemma BoundIsReached(max: nat, lock: nat, ip: string, a: int, d: nat)
    requires max > 0 && lock > 0
    ensures var k := 1 + d / (lock + 1);
      var tries := Rounds(ip, max, lock, a, k);
      Within(tries, a, a + d) && CheckedAlone(FRESH, max, lock, tries) == max * k
  {
    var m := lock + 1;
    var k := 1 + d / m;
    RoundsChecked(FRESH, max, lock, ip, a, k);
    RoundsWithin(max, lock, ip, a, k);
    SpanIs(k, lock);
    assert d == m * (d / m) + d % m;
    MulMono(m, 0, d / m);
    WithinLonger(Rounds(ip, max, lock, a, k), a, a + Span(k, lock), a + d);
  }

  lemma {:induction false} WithinLonger(tries: seq<Try>, a: int, b: int, c: int)
    requires Within(tries, a, b) && b <= c
    ensures Within(tries, a, c)
    decreases |tries|
  {
    if tries != [] {
      WithinLonger(tries[1..], tries[0].now, b, c);
    }
  }
}
