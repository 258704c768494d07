/** One click is one click: from the redirect (internal/api/redirect.go) through the
    two INCRs (internal/counter/counter.go) to what the tables hold over a run. */
module Clicks {
  import opened MapSum
  import opened CounterKeys
  import opened Tables
  import opened Counts
  import CS = CachedStore
  import Flusher
  import Protocol
  import ShortCode
  import TableLaws
  import World

  // ---- one click ----

  /** A click adds one to the total counter of its code and one to that of its date,
      and nothing to any other. */
  lemma ClickAddsOne(redis: map<string, int>, code: string, date: Date, k: Key)
    requires World.BufferKeys(redis) && ShortCode.ValidCode(code)
    ensures World.BufferKeys(World.ClickKeys(redis, code, date))
    ensures Get(Decode(World.ClickKeys(redis, code, date)), k)
         == Get(Decode(redis), k) + if k == Total(code) || k == Daily(code, date) then 1 else 0
  {
    hide ParseKey, Print, IsDate, ShortCode.ValidCode, Decode;
    var t, d := Total(code), Daily(code, date);
    var r1 := World.Incr(redis, Print(t));
    World.DecodePut(redis, t, Get(redis, Print(t)) + 1);
    World.DecodePut(r1, d, Get(r1, Print(d)) + 1);
  }

  /** The same in Redis's own terms, for each of the two kinds of counter. */
  lemma ClickRaisesBoth(redis: map<string, int>, code: string, date: Date, daily: bool)
    requires ShortCode.ValidCode(code)
    ensures Sum(Protocol.Part(World.ClickKeys(redis, code, date), daily)) == Sum(Protocol.Part(redis, daily)) + 1
  {
    hide ParseKey, Print, IsDate, ShortCode.ValidCode, Sum, Protocol.Part;
    var t, d := Print(Total(code)), Print(Daily(code, date));
    CleanKeysDecode(Total(code));
    CleanKeysDecode(Daily(code, date));
    var r1 := World.Incr(redis, t);
    PartPut(redis, t, Get(redis, t) + 1, daily);
    PartPut(r1, d, Get(r1, d) + 1, daily);
  }

  lemma PartPut(m: map<string, int>, k: string, v: int, daily: bool)
    ensures Sum(Protocol.Part(m[k := v], daily))
         == Sum(Protocol.Part(m, daily)) + if ParseKey(k).Daily? == daily then v - Get(m, k) else 0
  {
    hide ParseKey, Sum;
    var before, after := Protocol.Part(m, daily), Protocol.Part(m[k := v], daily);
    if ParseKey(k).Daily? == daily {
      assert after == before[k := v];
      SumPut(before, k, v);
    } else {
      assert after == before;
    }
  }

  /** A click as one step is two INCRs of the interleaved protocol. */
  lemma ClickIsTwoIncrs(s: Protocol.State, code: string, date: Date)
    requires Protocol.Inv(s) && ShortCode.ValidCode(code)
    ensures Protocol.Inv(Protocol.Step(s, Protocol.Incr(Total(code))))
    ensures Protocol.Step(Protocol.Step(s, Protocol.Incr(Total(code))), Protocol.Incr(Daily(code, date))).redis
         == World.ClickKeys(s.redis, code, date)
  {
    hide Protocol.Inv;
    Protocol.StepInv(s, Protocol.Incr(Total(code)));
    hide ParseKey, Print, IsDate, ShortCode.ValidCode;
  }

  /** How many INCRs of a key a run of the protocol has. */
  function Sent(events: seq<Protocol.Event>, k: string): nat {
    if events == [] then 0
    else (if events[0].Incr? && Clean(events[0].k) && Print(events[0].k) == k then 1 else 0) + Sent(events[1..], k)
  }

  /** The book of clicks sent is their number, key by key. */
  lemma {:induction false} IssuedIsSent(s: Protocol.State, events: seq<Protocol.Event>, k: string)
    requires Protocol.Inv(s)
    ensures Get(Protocol.Run(s, events).issued, k) == Get(s.issued, k) + Sent(events, k)
    decreases |events|
  {
    if events != [] {
      hide Protocol.Inv, Protocol.Step, Print, Clean;
      Protocol.StepInv(s, events[0]);
      OneIssued(s, events[0], k);
      IssuedIsSent(Protocol.Step(s, events[0]), events[1..], k);
    }
  }

  lemma OneIssued(s: Protocol.State, e: Protocol.Event, k: string)
    requires Protocol.Inv(s)
    ensures Get(Protocol.Step(s, e).issued, k) == Get(s.issued, k) + if e.Incr? && Clean(e.k) && Print(e.k) == k then 1 else 0
  {
    hide ParseKey, Print, Clean, Prefixed, CS.Plain, Protocol.Inv, FlushDb, Decode, Protocol.NewRowsUnclicked, Sum;
  }

  // ---- whole runs ----

  /** The store call behind an action, if there is one. */
  function CallOf(a: World.Action): CS.Op {
    match a
    case Create(l) => if World.Admissible(l) then CS.Create(World.Unclicked(l)) else CS.Invalidate
    case CreateMany(ls) => CS.CreateMany(World.Admitted(ls))
    case Edit(l) => if l.expiresAt >= 0 then CS.Update(l) else CS.Invalidate
    case Rename(o, n, at) => if ShortCode.ValidCode(n) then CS.Rename(o, n, at) else CS.Invalidate
    case Meta(code, title, description, at) => CS.Meta(code, title, description, at)
    case Delete(code, hard) => CS.Delete(code, hard)
    case DeleteMany(codes, hard) => CS.DeleteMany(codes, hard)
    case DeleteExpired(now, hard) => CS.DeleteExpired(now, hard)
    case Click(_, _, _) => CS.Invalidate
    case Flush(_) => CS.Invalidate
  }

  /** Every action but click and flush is that store call, and leaves the buffer alone. */
  lemma ActionIsCall(w: World.World, a: World.Action)
    requires World.Inv(w)
    ensures !a.Click? && !a.Flush? ==> World.Step(w, a) == World.World(CS.Plain(w.db, CallOf(a)).0, w.redis)
    ensures !CallOf(a).Counts? && Protocol.NewRowsUnclicked(CallOf(a))
  {
    hide World.Good, World.BufferKeys, World.Balanced, World.Admissible;
    if a.CreateMany? {
      World.AdmittedAll(a.links);
    }
  }

  /** And an import leaves no admissible row out: its code is in use afterwards. */
  lemma ImportCreates(w: World.World, ls: seq<Link>, i: nat)
    requires World.Inv(w) && i < |ls| && World.Admissible(ls[i])
    ensures HasLive(World.Step(w, World.CreateMany(ls)).db.links, ls[i].code)
  {
    hide World.Admissible, World.Good, World.BufferKeys, World.Balanced, HasLive;
    var rows := World.Admitted(ls);
    World.AdmittedAll(ls);
    var j := AdmittedAt(ls, i);
    GoodIsValid(w.db);
    CreatedOrTaken(w.db, rows, j);
  }

  lemma GoodIsValid(db: Db)
    requires World.Good(db)
    ensures Valid(db)
  {
  }

  lemma {:induction false} AdmittedAt(ls: seq<Link>, i: nat) returns (j: nat)
    requires i < |ls| && World.Admissible(ls[i])
    ensures j < |World.Admitted(ls)| && World.Admitted(ls)[j] == World.Unclicked(ls[i])
  {
    hide World.Admissible;
    if i == 0 {
      j := 0;
    } else {
      j := AdmittedAt(ls[1..], i - 1);
      if World.Admissible(ls[0]) { j := j + 1; }
    }
  }

  /** After an import of rows the code of each is in use, by it or by another. */
  lemma {:induction false} CreatedOrTaken(db: Db, rows: seq<Link>, j: nat)
    requires Valid(db) && j < |rows|
    ensures HasLive(CreateMany(db, rows).0.links, rows[j].code)
    decreases |rows|
  {
    hide Create, Valid, HasLive;
    var next := Create(db, rows[0]).0;
    TableLaws.OneMoreLive(db, rows[0]);
    if j > 0 {
      CreatedOrTaken(next, rows[1..], j - 1);
    } else {
      StaysLive(next, rows[1..], rows[0].code);
    }
  }

  lemma {:induction false} StaysLive(db: Db, rows: seq<Link>, code: string)
    requires Valid(db) && HasLive(db.links, code)
    ensures HasLive(CreateMany(db, rows).0.links, code)
    decreases |rows|
  {
    if rows != [] {
      hide Create, Valid, HasLive;
      TableLaws.OneMoreLive(db, rows[0]);
      StaysLive(Create(db, rows[0]).0, rows[1..], code);
    }
  }

  /** The clicks of a run that the redirect served. */
  ghost function Served(w: World.World, actions: seq<World.Action>): nat
    requires World.Inv(w)
    decreases |actions|
  {
    if actions == [] then 0 else
      World.StepKeeps(w, actions[0]);
      (if actions[0].Click? && World.Served(w.db, actions[0].code, actions[0].now) then 1 else 0)
      + Served(World.Step(w, actions[0]), actions[1..])
  }

  /** Clicks that stop being counted anywhere in one step: those a flush takes for a
      code without a live link, and, among the totals, those of rows that are
      deleted physically. */
  ghost function Leaving(w: World.World, a: World.Action, daily: bool): int
    requires World.Inv(w)
  {
    if a.Flush? then Sum(Protocol.Part(Protocol.DeadPart(w.db.links, w.redis), daily))
    else if daily then 0 else Sum(Protocol.GoneCounts(w.db.links, World.Step(w, a).db.links))
  }

  ghost function Left(w: World.World, actions: seq<World.Action>, daily: bool): int
    requires World.Inv(w)
    decreases |actions|
  {
    if actions == [] then 0 else
      World.StepKeeps(w, actions[0]);
      Leaving(w, actions[0], daily) + Left(World.Step(w, actions[0]), actions[1..], daily)
  }

  /** What the tables hold: the daily counts, or the click counts of the rows. */
  ghost function Counted(db: Db, daily: bool): int {
    if daily then ClicksTotal(db) else RowsTotal(db)
  }

  ghost function InHand(w: World.World, daily: bool): int {
    Counted(w.db, daily) + Sum(Protocol.Part(w.redis, daily))
  }

  lemma StepAccounts(w: World.World, a: World.Action, daily: bool)
    requires World.Inv(w)
    ensures InHand(World.Step(w, a), daily) + Leaving(w, a, daily)
         == InHand(w, daily) + if a.Click? && World.Served(w.db, a.code, a.now) then 1 else 0
  {
    hide World.Good, World.BufferKeys, World.Balanced, Sum, Protocol.Part, Protocol.GoneCounts, Counted;
    match a {
      case Click(code, now, date) => ClickAccounts(w, code, now, date, daily);
      case Flush(now) => FlushAccounts(w, now, daily);
      case _ => CallAccounts(w, a, daily);
    }
  }

  lemma ClickAccounts(w: World.World, code: string, now: int, date: Date, daily: bool)
    requires World.Inv(w)
    ensures var a := World.Click(code, now, date);
      InHand(World.Step(w, a), daily) + Leaving(w, a, daily)
      == InHand(w, daily) + if World.Served(w.db, code, now) then 1 else 0
  {
    hide World.BufferKeys, World.Balanced, World.ClickKeys, Sum, Protocol.Part, Protocol.GoneCounts, Counted, ShortCode.ValidCode;
    NothingGone(w.db.links);
    if World.Served(w.db, code, now) {
      var l := Find(w.db.links, code).value;
      assert World.Admissible(l);
      ClickRaisesBoth(w.redis, code, date, daily);
    }
  }

  lemma NothingGone(links: map<nat, Link>)
    ensures Sum(Protocol.GoneCounts(links, links)) == 0
  {
    assert Protocol.GoneCounts(links, links) == map[];
  }

  lemma CallAccounts(w: World.World, a: World.Action, daily: bool)
    requires World.Inv(w) && !a.Click? && !a.Flush?
    ensures InHand(World.Step(w, a), daily) + Leaving(w, a, daily) == InHand(w, daily)
  {
    hide World.Step, World.BufferKeys, World.Balanced, Sum, Protocol.Part, Protocol.GoneCounts, CS.Plain, CallOf, Protocol.NewRowsUnclicked, AllCounts, RowCounts;
    ActionIsCall(w, a);
    if daily {
      Protocol.WritesKeepCounts(w.db, CallOf(a));
    } else {
      Protocol.WritesMoveNoClicks(w.db, CallOf(a));
    }
  }

  lemma FlushAccounts(w: World.World, now: int, daily: bool)
    requires World.Inv(w)
    ensures InHand(World.Step(w, World.Flush(now)), daily) + Leaving(w, World.Flush(now), daily) == InHand(w, daily)
  {
    hide World.Good, World.Balanced, Sum, Protocol.Part, ParseKey, Decode, Totals, ApplyTotals, ApplyLedger, AllCounts, RowCounts, Clean, Prefixed, Protocol.LivePart, Protocol.DeadPart;
    BufferIsPositive(w);
    Protocol.FlushTotal(w.db.links, w.db.daily, w.redis);
    Protocol.FlushRowsTotal(w.db.links, w.redis, now);
    LiveAndDead(w.db.links, w.redis, daily);
    NothingBuffered(daily);
  }

  lemma BufferIsPositive(w: World.World)
    requires World.Inv(w)
    ensures UniqueLive(w.db.links) && Protocol.Positive(w.redis)
  {
    hide Prefixed, Clean, ParseKey;
  }

  lemma NothingBuffered(daily: bool)
    ensures Sum(Protocol.Part(map[], daily)) == 0
  {
    assert Protocol.Part(map[], daily) == map[];
  }

  lemma LiveAndDead(links: map<nat, Link>, vals: map<string, int>, daily: bool)
    ensures Sum(Protocol.Part(vals, daily))
         == Sum(Protocol.Part(Protocol.LivePart(links, vals), daily)) + Sum(Protocol.Part(Protocol.DeadPart(links, vals), daily))
  {
    hide Sum, ParseKey, HasLive, Protocol.Part;
    var live, dead := Protocol.LivePart(links, vals), Protocol.DeadPart(links, vals);
    Protocol.PartAdd(live, dead, daily);
    assert Add(live, dead) == vals;
  }

  /** Over any run, from any state: the clicks that were served are those the tables
      have gained, those the buffer has gained, and those that left by a flush without a
      live link or, among the totals, with a row deleted physically. Each is counted
      once, as a total and on one date. */
  lemma {:induction false} ServedClicksAreCounted(w: World.World, actions: seq<World.Action>, daily: bool)
    requires World.Inv(w)
    ensures InHand(World.Run(w, actions), daily) + Left(w, actions, daily) == InHand(w, daily) + Served(w, actions)
    decreases |actions|
  {
    if actions != [] {
      hide World.Inv, World.Step, InHand, Leaving, World.Served;
      World.StepKeeps(w, actions[0]);
      StepAccounts(w, actions[0], daily);
      ServedClicksAreCounted(World.Step(w, actions[0]), actions[1..], daily);
    }
  }

  /** From the empty system, and in the words of the dashboard: its click total is the
      number of clicks served, less those still buffered and those whose link was gone
      when they were flushed. */
  lemma DashboardShowsServedClicks(actions: seq<World.Action>)
    ensures World.Inv(World.START)
    ensures var w := World.Run(World.START, actions);
      ClicksTotal(w.db) == Served(World.START, actions) - Sum(Protocol.Part(w.redis, true)) - Left(World.START, actions, true)
  {
    hide World.Run, Served, Left, World.Inv;
    World.StartIsGood();
    NothingBuffered(true);
    assert AllCounts(map[]) == map[];
    ServedClicksAreCounted(World.START, actions, true);
  }
}
