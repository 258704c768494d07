/** The click pipeline as a protocol: single Redis commands, the phases of one
    flusher, crashes and table writes, interleaved in any way
    (internal/counter/counter.go, internal/counter/flush.go). */
module Protocol {
  import opened MapSum
  import opened CounterKeys
  import opened Tables
  import opened Counts
  import CS = CachedStore
  import Flusher
  import ShortCode

  /** Where the flusher is, and the values only it holds; `missed` remembers that a
      GETDEL found no value, which the client will report as the pipeline's error. */
  datatype Phase =
    | Idle
    | Taking(todo: seq<string>, vals: map<string, int>, missed: bool)
    | Restoring(vals: map<string, int>)

  /** orphans are GETDELs of a broken pipeline the server may still run. The
      other fields are the books: clicks sent, counted, dropped for want of a live
      link, and lost, by Redis key; and the click counts of the link rows that were
      physically deleted, in all. */
  datatype State = State(
    db: Db, redis: map<string, int>, phase: Phase, orphans: seq<string>,
    issued: map<string, int>, applied: map<string, int>, dropped: map<string, int>, lost: map<string, int>,
    removed: int)

  const START := State(EMPTY, map[], Idle, [], map[], map[], map[], map[], 0)

  datatype Event =
    | Incr(k: Key)
    | Scan(keys: seq<string>)
    | Take
    | Break
    | Orphan(i: nat)
    | Commit(now: int)
    | Abort
    | GiveBack(key: string, answers: bool)
    | Restored
    | Crash
    | Write(op: CS.Op)

  function InFlight(p: Phase): map<string, int> {
    match p
    case Idle => map[]
    case Taking(_, vals, _) => vals
    case Restoring(vals) => vals
  }

  function AddTo(m: map<string, int>, k: string, n: int): map<string, int> {
    m[k := Get(m, k) + n]
  }

  function LivePart(links: map<nat, Link>, vals: map<string, int>): map<string, int> {
    map k | k in vals && HasLive(links, ParseKey(k).code) :: vals[k]
  }

  function DeadPart(links: map<nat, Link>, vals: map<string, int>): map<string, int> {
    map k | k in vals && !HasLive(links, ParseKey(k).code) :: vals[k]
  }

  /** New rows come with a click count of zero, as the handlers send them. */
  predicate NewRowsUnclicked(op: CS.Op) {
    match op
    case Create(l) => l.clickCount == 0
    case CreateMany(ls) => forall i | 0 <= i < |ls| :: ls[i].clickCount == 0
    case _ => true
  }

  /** The click counts that a write takes away with the rows it deletes physically. */
  function GoneCounts(before: map<nat, Link>, after: map<nat, Link>): map<nat, int> {
    map id | id in before && id !in after :: before[id].clickCount
  }

  /** One step; an event that is not possible now changes nothing. */
  ghost function Step(s: State, e: Event): State
    requires UniqueLive(s.db.links) && forall k | k in InFlight(s.phase) :: Prefixed(k)
  {
    match e
    case Incr(k) =>
      if Clean(k) then s.(redis := AddTo(s.redis, Print(k), 1), issued := AddTo(s.issued, Print(k), 1)) else s
    case Scan(keys) =>
      if s.phase.Idle? && (forall k | k in keys :: Prefixed(k)) then s.(phase := Taking(keys, map[], false)) else s
    case Take =>
      if !s.phase.Taking? || s.phase.todo == [] then s else TakeOne(s, s.phase.todo[0], s.phase.vals)
    case Break => if s.phase.Taking? then Forget(s) else s
    case Orphan(i) =>
      if i >= |s.orphans| then s else
        var k := s.orphans[i];
        s.(orphans := s.orphans[..i] + s.orphans[i + 1..], redis := s.redis - {k}, lost := AddTo(s.lost, k, Get(s.redis, k)))
    case Commit(now) =>
      if Taken(s.phase) then
        s.(phase := Idle, db := FlushDb(s.db, Decode(s.phase.vals), now),
           applied := Add(s.applied, LivePart(s.db.links, s.phase.vals)),
           dropped := Add(s.dropped, DeadPart(s.db.links, s.phase.vals)))
      else s
    case Abort => if Taken(s.phase) then s.(phase := Restoring(s.phase.vals)) else s
    case GiveBack(key, answers) =>
      if !s.phase.Restoring? || key !in s.phase.vals then s else
        var v := s.phase.vals[key];
        var rest := s.(phase := Restoring(s.phase.vals - {key}));
        if answers then rest.(redis := AddTo(s.redis, key, v)) else rest.(lost := AddTo(s.lost, key, v))
    case Restored => if s.phase.Restoring? && s.phase.vals == map[] then s.(phase := Idle) else s
    case Crash => Forget(s)
    case Write(op) =>
      if op.Counts? || !NewRowsUnclicked(op) then s else
        var db := CS.Plain(s.db, op).0;
        s.(db := db, removed := s.removed + Sum(GoneCounts(s.db.links, db.links)))
  }

  /** Every GETDEL was answered, and with a value. */
  predicate Taken(p: Phase) {
    p.Taking? && p.todo == [] && !p.missed
  }

  /** GETDEL. A value taken twice under one key overwrites the first one. */
  function TakeOne(s: State, k: string, vals: map<string, int>): State
    requires s.phase.Taking? && s.phase.todo != []
  {
    if k !in s.redis then s.(phase := Taking(s.phase.todo[1..], vals, true))
    else s.(phase := Taking(s.phase.todo[1..], vals[k := s.redis[k]], s.phase.missed), redis := s.redis - {k}, lost := AddTo(s.lost, k, Get(vals, k)))
  }

  /** The flusher dies or gives up on a broken pipeline: what it held is lost. */
  function Forget(s: State): State {
    s.(phase := Idle, lost := Add(s.lost, InFlight(s.phase)),
       orphans := s.orphans + if s.phase.Taking? then s.phase.todo else [])
  }

  // ---- the conservation law ----

  /** Clicks sent under a key, less all those accounted for. */
  function Balance(s: State, k: string): int {
    Get(s.issued, k) - Get(s.redis, k) - Get(InFlight(s.phase), k) - Get(s.applied, k) - Get(s.dropped, k) - Get(s.lost, k)
  }

  /** Every click ever sent is in exactly one place. */
  ghost predicate Conserved(s: State) {
    forall k :: Balance(s, k) == 0
  }

  ghost predicate Positive(m: map<string, int>) {
    forall k | k in m :: Prefixed(k) && m[k] > 0
  }

  ghost predicate NonNegative(m: map<string, int>) {
    forall k | k in m :: m[k] >= 0
  }

  ghost predicate Sane(s: State) {
    && Valid(s.db) && Positive(s.redis) && Positive(InFlight(s.phase))
    && (s.phase.Taking? ==> forall k | k in s.phase.todo :: Prefixed(k))
    && NonNegative(s.applied) && NonNegative(s.dropped) && NonNegative(s.lost)
  }

  /** The daily counters of a book, or the totals. */
  function Part(m: map<string, int>, daily: bool): map<string, int> {
    map k | k in m && ParseKey(k).Daily? == daily :: m[k]
  }

  /** The tables hold what the books say was counted: the daily counters in
      daily_clicks, the totals in click_count, less the rows that are gone. */
  ghost predicate Booked(s: State) {
    && ClicksTotal(s.db) == Sum(Part(s.applied, true))
    && RowsTotal(s.db) + s.removed == Sum(Part(s.applied, false))
  }

  ghost predicate Inv(s: State) {
    Sane(s) && Conserved(s) && Booked(s)
  }

  lemma AddAt<K>(a: map<K, int>, b: map<K, int>, k: K)
    ensures Get(Add(a, b), k) == Get(a, k) + Get(b, k)
  {
  }

  lemma SplitAt(links: map<nat, Link>, vals: map<string, int>, k: string)
    ensures Get(vals, k) == Get(LivePart(links, vals), k) + Get(DeadPart(links, vals), k)
  {
  }

  lemma StepConserves(s: State, e: Event)
    requires Sane(s) && Conserved(s)
    ensures Conserved(Step(s, e))
  {
    hide Step, Balance;
    var r := Step(s, e);
    forall k ensures Balance(r, k) == 0 {
      StepBalances(s, e, k);
    }
  }

  lemma StepBalances(s: State, e: Event, k: string)
    requires Sane(s)
    ensures Balance(Step(s, e), k) == Balance(s, k)
  {
    match e {
      case Commit(now) => CommitBalances(s, now, k);
      case Break => ForgetBalances(s, k);
      case Crash => ForgetBalances(s, k);
      case Write(_) =>
      case _ => CommandBalances(s, e, k);
    }
  }

  lemma CommitBalances(s: State, now: int, k: string)
    requires Sane(s)
    ensures Balance(Step(s, Commit(now)), k) == Balance(s, k)
  {
    hide ParseKey, Prefixed, FlushDb, Decode, LivePart, DeadPart, Add, Valid, HasLive, Positive, NonNegative;
    AddAt(s.applied, LivePart(s.db.links, InFlight(s.phase)), k);
    AddAt(s.dropped, DeadPart(s.db.links, InFlight(s.phase)), k);
    SplitAt(s.db.links, InFlight(s.phase), k);
  }

  lemma ForgetBalances(s: State, k: string)
    ensures Balance(Forget(s), k) == Balance(s, k)
  {
    hide Add;
    AddAt(s.lost, InFlight(s.phase), k);
  }

  lemma CommandBalances(s: State, e: Event, k: string)
    requires Sane(s) && !e.Commit? && !e.Break? && !e.Crash? && !e.Write?
    ensures Balance(Step(s, e), k) == Balance(s, k)
  {
    hide ParseKey, Print, Prefixed, Clean, Valid, NonNegative, Positive, UniqueLive;
    match e {
      case Incr(_) =>
      case Scan(_) =>
      case Take => if s.phase.Taking? && s.phase.todo != [] { TakeBalances(s, k); }
      case Orphan(i) => OrphanBalances(s, i, k);
      case Abort =>
      case GiveBack(key, answers) => GiveBackBalances(s, key, answers, k);
      case Restored =>
    }
  }

  lemma TakeBalances(s: State, k: string)
    requires s.phase.Taking? && s.phase.todo != []
    ensures Balance(TakeOne(s, s.phase.todo[0], s.phase.vals), k) == Balance(s, k)
  {
  }

  lemma OrphanBalances(s: State, i: nat, k: string)
    requires Sane(s)
    ensures Balance(Step(s, Orphan(i)), k) == Balance(s, k)
  {
    hide Sane, Prefixed, Valid, UniqueLive;
  }

  lemma GiveBackBalances(s: State, key: string, answers: bool, k: string)
    requires Sane(s)
    ensures Balance(Step(s, GiveBack(key, answers)), k) == Balance(s, k)
  {
    hide Prefixed, Valid, UniqueLive, Positive, NonNegative;
  }

  lemma StepSane(s: State, e: Event)
    requires Sane(s)
    ensures Sane(Step(s, e))
  {
    match e {
      case Commit(now) => CommitSane(s, now);
      case Write(op) => WriteSane(s, op);
      case _ => CommandSane(s, e);
    }
  }

  lemma CommitSane(s: State, now: int)
    requires Sane(s)
    ensures Sane(Step(s, Commit(now)))
  {
    hide ParseKey, Prefixed, FlushDb, HasLive, Decode, Valid;
    if Taken(s.phase) {
      FlushValid(s.db, Decode(s.phase.vals), now);
    }
  }

  lemma WriteSane(s: State, op: CS.Op)
    requires Sane(s)
    ensures Sane(Step(s, Write(op)))
  {
    hide Prefixed, CS.Plain, IdsBounded;
    CS.PlainValid(s.db, op);
  }

  lemma CommandSane(s: State, e: Event)
    requires Sane(s) && !e.Commit? && !e.Write?
    ensures Sane(Step(s, e))
  {
    hide Sane, AddTo, Print, Clean, Prefixed;
    match e {
      case Incr(k) => IncrSane(s, k);
      case Scan(keys) => ScanSane(s, keys);
      case Take => if s.phase.Taking? && s.phase.todo != [] { TakeSane(s); }
      case Break => ForgetSane(s);
      case Orphan(i) => OrphanSane(s, i);
      case Abort => AbortSane(s);
      case GiveBack(key, answers) => GiveBackSane(s, key, answers);
      case Restored => RestoredSane(s);
      case Crash => ForgetSane(s);
    }
  }

  lemma IncrSane(s: State, k: Key)
    requires Sane(s)
    ensures Sane(Step(s, Incr(k)))
  {
    hide ParseKey, Print, Prefixed, Valid, Positive, NonNegative, AddTo, ShortCode.ValidCode, IsDate;
    if Clean(k) {
      CleanKeysDecode(k);
      AddedPositive(s.redis, Print(k), 1);
    }
  }

  lemma ScanSane(s: State, keys: seq<string>)
    requires Sane(s)
    ensures Sane(Step(s, Scan(keys)))
  {
    hide Prefixed, Valid, NonNegative;
  }

  lemma TakeSane(s: State)
    requires Sane(s) && s.phase.Taking? && s.phase.todo != []
    ensures Sane(TakeOne(s, s.phase.todo[0], s.phase.vals))
  {
    hide Prefixed, Valid, AddTo, Positive, NonNegative;
    var k, vals := s.phase.todo[0], s.phase.vals;
    assert forall k | k in s.phase.todo[1..] :: k in s.phase.todo;
    PositiveAt(vals, k);
    AddedNonNegative(s.lost, k, Get(vals, k));
    PositiveLess(s.redis, k);
    if k in s.redis {
      PositiveAt(s.redis, k);
      PositivePut(vals, k, s.redis[k]);
    }
  }

  lemma OrphanSane(s: State, i: nat)
    requires Sane(s)
    ensures Sane(Step(s, Orphan(i)))
  {
    hide Prefixed, Valid, AddTo, Positive, NonNegative;
    if i < |s.orphans| {
      var k := s.orphans[i];
      PositiveAt(s.redis, k);
      PositiveLess(s.redis, k);
      AddedNonNegative(s.lost, k, Get(s.redis, k));
    }
  }

  lemma AbortSane(s: State)
    requires Sane(s)
    ensures Sane(Step(s, Abort))
  {
    hide Prefixed, Valid, Positive, NonNegative;
  }

  lemma RestoredSane(s: State)
    requires Sane(s)
    ensures Sane(Step(s, Restored))
  {
    hide Prefixed, Valid, NonNegative;
  }

  lemma GiveBackSane(s: State, key: string, answers: bool)
    requires Sane(s)
    ensures Sane(Step(s, GiveBack(key, answers)))
  {
    hide Prefixed, Valid, AddTo, Positive, NonNegative;
    if s.phase.Restoring? && key in s.phase.vals {
      var v := s.phase.vals[key];
      PositiveAt(s.phase.vals, key);
      PositiveLess(s.phase.vals, key);
      AddedPositive(s.redis, key, v);
      AddedNonNegative(s.lost, key, v);
    }
  }

  lemma PositiveAt(m: map<string, int>, k: string)
    requires Positive(m)
    ensures Get(m, k) >= 0 && (k in m ==> Prefixed(k) && m[k] > 0)
  {
    hide Prefixed;
  }

  lemma PositivePut(m: map<string, int>, k: string, v: int)
    requires Positive(m) && Prefixed(k) && v > 0
    ensures Positive(m[k := v])
  {
    hide Prefixed;
  }

  lemma PositiveLess(m: map<string, int>, k: string)
    requires Positive(m)
    ensures Positive(m - {k})
  {
    hide Prefixed;
  }

  lemma AddedPositive(m: map<string, int>, k: string, n: int)
    requires Positive(m) && Prefixed(k) && n > 0
    ensures Positive(AddTo(m, k, n))
  {
    hide Prefixed;
  }

  lemma AddedNonNegative(m: map<string, int>, k: string, n: int)
    requires NonNegative(m) && n >= 0
    ensures NonNegative(AddTo(m, k, n))
  {
  }

  lemma ForgetSane(s: State)
    requires Sane(s)
    ensures Sane(Forget(s))
  {
    hide Prefixed, Valid;
  }

  lemma FlushValid(db: Db, m: map<Key, int>, now: int)
    requires Valid(db)
    ensures Valid(FlushDb(db, m, now))
  {
    hide Totals;
    UniqueKept(db.links, ApplyTotals(db.links, Totals(m), now));
  }

  // ---- the tables agree with the books ----

  /** Table writes other than a flush move no daily count. */
  lemma WritesKeepCounts(db: Db, op: CS.Op)
    requires UniqueLive(db.links) && !op.Counts?
    ensures AllCounts(CS.Plain(db, op).0.daily) == AllCounts(db.daily)
  {
    match op {
      case CreateMany(ls) => CreateManyKeepsDaily(db, ls);
      case DeleteMany(codes, hard) => DeleteManyKeepsDaily(db, codes, hard);
      case _ =>
    }
  }

  lemma {:induction false} CreateManyKeepsDaily(db: Db, ls: seq<Link>)
    ensures CreateMany(db, ls).0.daily == db.daily
    decreases |ls|
  {
    if ls != [] {
      CreateManyKeepsDaily(Create(db, ls[0]).0, ls[1..]);
    }
  }

  lemma {:induction false} DeleteManyKeepsDaily(db: Db, codes: seq<string>, hard: bool)
    ensures DeleteMany(db, codes, hard).0.daily == db.daily
    decreases |codes|
  {
    if codes != [] {
      DeleteManyKeepsDaily(Delete(db, codes[0], hard).0, codes[1..], hard);
    }
  }

  /** Rows keep their click counts, and new ones have none. */
  ghost predicate RowsKept(before: map<nat, Link>, after: map<nat, Link>) {
    forall id | id in after :: after[id].clickCount == if id in before then before[id].clickCount else 0
  }

  /** Table writes other than a flush only take click counts away, with their rows. */
  lemma WritesMoveNoClicks(db: Db, op: CS.Op)
    requires Valid(db) && !op.Counts? && NewRowsUnclicked(op)
    ensures var r := CS.Plain(db, op).0;
      RowsTotal(db) == RowsTotal(r) + Sum(GoneCounts(db.links, r.links))
  {
    hide Sum, RowCounts, GoneCounts, RowsKept;
    WritesKeepRows(db, op);
    KeptSum(db.links, CS.Plain(db, op).0.links);
  }

  lemma KeptSum(before: map<nat, Link>, after: map<nat, Link>)
    requires RowsKept(before, after)
    ensures Sum(RowCounts(before)) == Sum(RowCounts(after)) + Sum(GoneCounts(before, after))
  {
    hide Sum;
    SumAdd(RowCounts(after), GoneCounts(before, after));
    SumSame(RowCounts(before), Add(RowCounts(after), GoneCounts(before, after)));
  }

  lemma WritesKeepRows(db: Db, op: CS.Op)
    requires Valid(db) && !op.Counts? && NewRowsUnclicked(op)
    ensures RowsKept(db.links, CS.Plain(db, op).0.links)
  {
    hide RowsKept, SetWhere, DeleteWhere, HasLive, IdsBounded;
    SameRowsKept(db.links);
    match op {
      case Create(l) => InsertKeepsRows(db, l);
      case CreateMany(ls) => CreateManyKeepsRows(db, ls);
      case Meta(code, title, description, at) => SetWhereKeepsRows(db.links, code, WithMeta(title, description, at));
      case Update(l) => SetWhereKeepsRows(db.links, l.code, Edited(l));
      case Rename(o, n, at) => SetWhereKeepsRows(db.links, o, Recoded(n, at));
      case Delete(code, hard) => DeleteWhereKeepsRows(db.links, LiveIds(db.links, code), hard);
      case DeleteMany(codes, hard) => DeleteManyKeepsRows(db, codes, hard);
      case DeleteExpired(now, hard) => DeleteWhereKeepsRows(db.links, ExpiredIds(db.links, now), hard);
      case _ =>
    }
  }

  lemma SameRowsKept(links: map<nat, Link>)
    ensures RowsKept(links, links)
  {
  }

  lemma SetWhereKeepsRows(links: map<nat, Link>, code: string, f: Link -> Link)
    requires forall l: Link :: f(l).clickCount == l.clickCount
    ensures RowsKept(links, SetWhere(links, code, f))
  {
  }

  lemma DeleteWhereKeepsRows(links: map<nat, Link>, doomed: set<nat>, hard: bool)
    ensures RowsKept(links, DeleteWhere(links, doomed, hard))
  {
  }

  lemma InsertKeepsRows(db: Db, l: Link)
    requires Valid(db) && l.clickCount == 0
    ensures var r := Create(db, l).0; RowsKept(db.links, r.links) && db.links.Keys <= r.links.Keys
  {
    assert db.lastId + 1 !in db.links;
  }

  lemma {:induction false} CreateManyKeepsRows(db: Db, ls: seq<Link>)
    requires Valid(db) && forall i | 0 <= i < |ls| :: ls[i].clickCount == 0
    ensures var r := CreateMany(db, ls).0; RowsKept(db.links, r.links) && db.links.Keys <= r.links.Keys
    decreases |ls|
  {
    if ls != [] {
      hide Create, Valid;
      var next := Create(db, ls[0]).0;
      CS.CreateValid(db, ls[0]);
      InsertKeepsRows(db, ls[0]);
      CreateManyKeepsRows(next, ls[1..]);
    }
  }

  lemma {:induction false} DeleteManyKeepsRows(db: Db, codes: seq<string>, hard: bool)
    ensures var r := DeleteMany(db, codes, hard).0; RowsKept(db.links, r.links) && r.links.Keys <= db.links.Keys
    decreases |codes|
  {
    if codes != [] {
      DeleteManyKeepsRows(Delete(db, codes[0], hard).0, codes[1..], hard);
    }
  }

  /** What a committed flush adds to the dashboard total: the daily values it
      took for codes that have a live link, each of them once. */
  lemma {:induction false} FlushTotal(links: map<nat, Link>, daily: map<(nat, string), DailyRow>, vals: map<string, int>)
    requires UniqueLive(links) && Positive(vals)
    ensures Sum(AllCounts(ApplyLedger(links, daily, Decode(vals))))
         == Sum(AllCounts(daily)) + Sum(Part(LivePart(links, vals), true))
    decreases vals.Keys
  {
    hide ParseKey, Prefixed, Print, Decode, ApplyLedger, AllCounts, AddDaily, Sum, LivePart, Part, HasLive;
    if vals == map[] {
      NothingTaken(links, daily, 0);
    } else {
      var k :| k in vals;
      var rest := vals - {k};
      FlushTotal(links, daily, rest);
      assert vals == rest[k := vals[k]];
      Flusher.PartitionStep(rest, k, vals[k], links, daily);
      LivePut(links, rest, k, vals[k], true);
      match ParseKey(k) {
        case Total(code) =>
        case Daily(code, date) => DailyTotal(links, ApplyLedger(links, daily, Decode(rest)), DailyCount(code, date, vals[k]));
      }
    }
  }

  /** And what it adds to the click counts of the link rows: the totals it took
      for codes that have a live link, each of them once. */
  lemma {:induction false} FlushRowsTotal(links: map<nat, Link>, vals: map<string, int>, now: int)
    requires UniqueLive(links) && Positive(vals)
    ensures Sum(RowCounts(ApplyTotals(links, Totals(Decode(vals)), now)))
         == Sum(RowCounts(links)) + Sum(Part(LivePart(links, vals), false))
    decreases vals.Keys
  {
    hide ParseKey, Prefixed, Print, Decode, Totals, ApplyTotals, ApplyLedger, RowCounts, Sum, LivePart, Part, HasLive, UniqueLive, AddTotal;
    if vals == map[] {
      NothingTaken(links, map[], now);
    } else {
      var k :| k in vals;
      var rest := vals - {k};
      FlushRowsTotal(links, rest, now);
      assert vals == rest[k := vals[k]];
      Flusher.PartitionStep(rest, k, vals[k], links, map[]);
      LivePut(links, rest, k, vals[k], false);
      match ParseKey(k) {
        case Daily(code, date) =>
        case Total(code) =>
          var totals := Totals(Decode(rest));
          Flusher.DecodeAdd(rest, k, vals[k]);
          TotalsAt(Decode(rest), code);
          TotalsStep(links, totals, code, vals[k], now);
          AppliedLive(links, totals, now, code);
          RowTotal(ApplyTotals(links, totals, now), code, vals[k], now);
      }
    }
  }

  lemma NothingTaken(links: map<nat, Link>, daily: map<(nat, string), DailyRow>, now: int)
    ensures ApplyLedger(links, daily, Decode(map[])) == daily && ApplyTotals(links, Totals(Decode(map[])), now) == links
    ensures forall part :: Sum(Part(LivePart(links, map[]), part)) == 0
  {
    hide ParseKey, ApplyTotals;
    assert Decode(map[]) == map[];
    LedgerIdle(links, daily, map[]);
    Flusher.NoTotals(links, now);
    forall part ensures Part(LivePart(links, map[]), part) == map[] {
    }
  }

  lemma LivePut(links: map<nat, Link>, vals: map<string, int>, k: string, v: int, daily: bool)
    requires k !in vals
    ensures Sum(Part(LivePart(links, vals[k := v]), daily))
         == Sum(Part(LivePart(links, vals), daily)) + if ParseKey(k).Daily? == daily && HasLive(links, ParseKey(k).code) then v else 0
  {
    hide ParseKey, Sum, HasLive;
    var before, after := Part(LivePart(links, vals), daily), Part(LivePart(links, vals[k := v]), daily);
    if ParseKey(k).Daily? == daily && HasLive(links, ParseKey(k).code) {
      assert after == before[k := v];
      SumPut(before, k, v);
    } else {
      assert after == before;
    }
  }

  lemma PartAdd(a: map<string, int>, b: map<string, int>, daily: bool)
    ensures Sum(Part(Add(a, b), daily)) == Sum(Part(a, daily)) + Sum(Part(b, daily))
  {
    hide ParseKey, Sum;
    SumAdd(Part(a, daily), Part(b, daily));
    assert Part(Add(a, b), daily) == Add(Part(a, daily), Part(b, daily));
  }

  lemma StepBooks(s: State, e: Event)
    requires Inv(s)
    ensures Booked(Step(s, e))
  {
    hide ParseKey, Print, Clean, Prefixed, Sum, Part, CS.Plain, LivePart, Decode, Conserved, ApplyLedger, ApplyTotals, Totals, AllCounts, RowCounts, GoneCounts, NewRowsUnclicked;
    match e {
      case Commit(now) => if Taken(s.phase) { CommitBooks(s, now); }
      case Write(op) =>
        if !op.Counts? && NewRowsUnclicked(op) {
          WritesKeepCounts(s.db, op);
          WritesMoveNoClicks(s.db, op);
        }
      case _ =>
    }
  }

  lemma CommitBooks(s: State, now: int)
    requires Inv(s) && Taken(s.phase)
    ensures Booked(Step(s, Commit(now)))
  {
    hide ParseKey, Print, Clean, Prefixed, Sum, Part, LivePart, Decode, Conserved, ApplyLedger, ApplyTotals, Totals, AllCounts, RowCounts;
    var live := LivePart(s.db.links, s.phase.vals);
    FlushTotal(s.db.links, s.db.daily, s.phase.vals);
    FlushRowsTotal(s.db.links, s.phase.vals, now);
    PartAdd(s.applied, live, true);
    PartAdd(s.applied, live, false);
  }

  lemma StepInv(s: State, e: Event)
    requires Inv(s)
    ensures Inv(Step(s, e))
  {
    hide Step, Sane, Conserved, Booked;
    StepSane(s, e);
    StepConserves(s, e);
    StepBooks(s, e);
  }

  ghost function Run(s: State, events: seq<Event>): (r: State)
    requires Inv(s)
    ensures Inv(r)
    decreases |events|
  {
    if events == [] then s else
      StepInv(s, events[0]);
      Run(Step(s, events[0]), events[1..])
  }

  lemma StartIsSound()
    ensures Inv(START)
  {
    assert Part(map[], true) == map[] && Part(map[], false) == map[];
    assert AllCounts(map[]) == map[] && RowCounts(map[]) == map[];
  }

  /** Click conservation, for every key at every moment of every interleaving:
      sent = buffered + in flight + counted + dropped + lost, no click is counted
      that was not sent, and what is counted is what the tables hold: the daily
      counters in daily_clicks, the totals in the click counts of the link rows,
      those deleted physically included. */
  lemma ClicksAreConserved(events: seq<Event>, k: string)
    ensures Inv(START)
    ensures var s := Run(START, events);
      && Get(s.issued, k) == Get(s.redis, k) + Get(InFlight(s.phase), k) + Get(s.applied, k) + Get(s.dropped, k) + Get(s.lost, k)
      && Get(s.applied, k) <= Get(s.issued, k)
      && Sum(Part(s.applied, true)) == ClicksTotal(s.db)
      && Sum(Part(s.applied, false)) == RowsTotal(s.db) + s.removed
  {
    hide Part, Sum, Valid, Prefixed;
    StartIsSound();
    assert Balance(Run(START, events), k) == 0;
  }

  /** The same law for the dashboard: its click total is the daily counters sent,
      less what is buffered, in flight, dropped or lost. */
  lemma DashboardTotalConserved(events: seq<Event>)
    ensures Inv(START)
    ensures var s := Run(START, events);
      ClicksTotal(s.db) == Sum(Part(s.issued, true)) - Sum(Part(s.redis, true)) - Sum(Part(InFlight(s.phase), true))
        - Sum(Part(s.dropped, true)) - Sum(Part(s.lost, true))
  {
    hide Sane, Sum, Part, AllCounts, RowCounts;
    StartIsSound();
    TotalsBalance(Run(START, events), true);
  }

  /** And for the click counts of the links: all of them together, with those of
      the rows that were physically deleted, are the totals sent, less what is
      buffered, in flight, dropped or lost. */
  lemma RowsTotalConserved(events: seq<Event>)
    ensures Inv(START)
    ensures var s := Run(START, events);
      RowsTotal(s.db) + s.removed == Sum(Part(s.issued, false)) - Sum(Part(s.redis, false)) - Sum(Part(InFlight(s.phase), false))
        - Sum(Part(s.dropped, false)) - Sum(Part(s.lost, false))
  {
    hide Sane, Sum, Part, AllCounts, RowCounts;
    StartIsSound();
    TotalsBalance(Run(START, events), false);
  }

  lemma TotalsBalance(s: State, daily: bool)
    requires Conserved(s)
    ensures Sum(Part(s.issued, daily))
         == Sum(Part(s.redis, daily)) + Sum(Part(InFlight(s.phase), daily)) + Sum(Part(s.applied, daily)) + Sum(Part(s.dropped, daily)) + Sum(Part(s.lost, daily))
  {
    hide Sum, InFlight, Add, Part;
    var ab := Add(s.redis, InFlight(s.phase));
    var abc := Add(ab, s.applied);
    var abcd := Add(abc, s.dropped);
    var all := Add(abcd, s.lost);
    PartAdd(s.redis, InFlight(s.phase), daily);
    PartAdd(ab, s.applied, daily);
    PartAdd(abc, s.dropped, daily);
    PartAdd(abcd, s.lost, daily);
    forall k ensures Get(Part(s.issued, daily), k) == Get(Part(all, daily), k) {
      assert Balance(s, k) == 0;
      AddAt(s.redis, InFlight(s.phase), k);
      AddAt(ab, s.applied, k);
      AddAt(abc, s.dropped, k);
      AddAt(abcd, s.lost, k);
      PartAt(s.issued, k, daily);
      PartAt(all, k, daily);
    }
    SumSame(Part(s.issued, daily), Part(all, daily));
  }

  lemma PartAt(m: map<string, int>, k: string, daily: bool)
    ensures Get(Part(m, daily), k) == if ParseKey(k).Daily? == daily then Get(m, k) else 0
  {
    hide ParseKey;
  }

  // ---- each link holds what was taken under its own keys ----

  /** The value taken for the counter j, if j is what its key decodes to. */
  function Value(vals: map<string, int>, j: Key): int {
    if ParseKey(Print(j)) == j then Get(vals, Print(j)) else 0
  }

  /** The counter of a code: its total, or that of one date. */
  function CounterOf(code: string, date: Option<string>): Key {
    match date
    case None => Total(code)
    case Some(d) => Daily(code, d)
  }

  /** What one step credits to a link: at a commit, a live link gets the value taken
      under the counter of the code it has then. */
  function Credit(s: State, e: Event, id: nat, date: Option<string>): int {
    if e.Commit? && Taken(s.phase) && id in s.db.links && !s.db.links[id].deleted
    then Value(s.phase.vals, CounterOf(s.db.links[id].code, date)) else 0
  }

  ghost function Credits(s: State, events: seq<Event>, id: nat, date: Option<string>): int
    requires Inv(s)
    decreases |events|
  {
    if events == [] then 0 else
      StepInv(s, events[0]);
      Credit(s, events[0], id, date) + Credits(Step(s, events[0]), events[1..], id, date)
  }

  /** What the tables hold for a link: its click count, or that of one date. */
  function Held(db: Db, id: nat, date: Option<string>): int {
    match date
    case None => Get(RowCounts(db.links), id)
    case Some(d) => Get(DatesOf(db.daily, id), d)
  }

  lemma CommitCredits(s: State, now: int, id: nat, date: Option<string>)
    requires Sane(s)
    ensures Held(Step(s, Commit(now)).db, id, date) == Held(s.db, id, date) + Credit(s, Commit(now), id, date)
  {
    hide ParseKey, Print, Prefixed, Decode, Valid, ApplyLedger, Totals, LivePart, DeadPart, DatesOf, DatesFor;
    if Taken(s.phase) && id in s.db.links {
      var m, code := Decode(s.phase.vals), s.db.links[id].code;
      DecodeAt(s.phase.vals, CounterOf(code, date));
      match date {
        case None => TotalsAt(m, code);
        case Some(d) => LedgerCredits(s.db, m, id, d);
      }
    } else if Taken(s.phase) && date.Some? {
      FlushedDates(s.db.links, s.db.daily, Decode(s.phase.vals), id);
    }
  }

  lemma LedgerCredits(db: Db, m: map<Key, int>, id: nat, d: string)
    requires id in db.links
    ensures Get(DatesOf(ApplyLedger(db.links, db.daily, m), id), d)
         == Get(DatesOf(db.daily, id), d) + if db.links[id].deleted then 0 else Get(m, Daily(db.links[id].code, d))
  {
    hide ApplyLedger, DatesOf, DatesFor;
    FlushedDates(db.links, db.daily, m, id);
    AddAt(DatesOf(db.daily, id), DatesFor(m, db.links[id].code), d);
    DatesForAt(m, db.links[id].code, d);
  }

  /** A write moves no count of a link that it leaves, and new links start without any. */
  lemma WriteCredits(db: Db, op: CS.Op, id: nat, date: Option<string>)
    requires Valid(db) && !op.Counts? && NewRowsUnclicked(op)
    requires date.None? && id in db.links ==> id in CS.Plain(db, op).0.links
    ensures Held(CS.Plain(db, op).0, id, date) == Held(db, id, date)
  {
    hide CS.Plain, NewRowsUnclicked;
    match date {
      case None => WritesKeepRows(db, op);
      case Some(d) =>
        WritesKeepCounts(db, op);
        SameDates(db.daily, CS.Plain(db, op).0.daily, id, d);
    }
  }

  lemma SameDates(a: map<(nat, string), DailyRow>, b: map<(nat, string), DailyRow>, id: nat, d: string)
    requires AllCounts(a) == AllCounts(b)
    ensures Get(DatesOf(a, id), d) == Get(DatesOf(b, id), d)
  {
    hide DatesOf;
    DatesAt(a, id, d);
    DatesAt(b, id, d);
    assert (id, d) in a <==> (id, d) in AllCounts(a);
    assert (id, d) in b <==> (id, d) in AllCounts(b);
    assert (id, d) in a ==> a[(id, d)].count == AllCounts(a)[(id, d)];
    assert (id, d) in b ==> b[(id, d)].count == AllCounts(b)[(id, d)];
  }

  lemma StepCredits(s: State, e: Event, id: nat, date: Option<string>)
    requires Sane(s) && (date.None? && id in s.db.links ==> id in Step(s, e).db.links)
    ensures Held(Step(s, e).db, id, date) == Held(s.db, id, date) + Credit(s, e, id, date)
  {
    hide Held, CS.Plain, NewRowsUnclicked, FlushDb, GoneCounts, Sum, Value, CounterOf, LivePart, DeadPart, Add, AddTo, Get, Decode, Print, ParseKey, Prefixed, Clean;
    match e {
      case Commit(now) => CommitCredits(s, now, id, date);
      case Write(op) => if !op.Counts? && NewRowsUnclicked(op) { WriteCredits(s.db, op, id, date); }
      case _ =>
    }
  }

  /** Ids are handed out in order, and a step brings no old one back. */
  predicate OnlyNewIds(a: Db, b: Db) {
    a.lastId <= b.lastId && forall id | id in b.links :: id in a.links || id > a.lastId
  }

  lemma WritesMakeNewIds(db: Db, op: CS.Op)
    requires Valid(db)
    ensures OnlyNewIds(db, CS.Plain(db, op).0)
  {
    hide Valid, HasLive;
    match op {
      case CreateMany(ls) => CreateManyMakesNewIds(db, ls);
      case DeleteMany(codes, hard) => DeleteManyMakesNoIds(db, codes, hard);
      case _ =>
    }
  }

  lemma {:induction false} CreateManyMakesNewIds(db: Db, ls: seq<Link>)
    ensures OnlyNewIds(db, CreateMany(db, ls).0)
    decreases |ls|
  {
    if ls != [] {
      CreateManyMakesNewIds(Create(db, ls[0]).0, ls[1..]);
    }
  }

  lemma {:induction false} DeleteManyMakesNoIds(db: Db, codes: seq<string>, hard: bool)
    ensures OnlyNewIds(db, DeleteMany(db, codes, hard).0)
    decreases |codes|
  {
    if codes != [] {
      DeleteManyMakesNoIds(Delete(db, codes[0], hard).0, codes[1..], hard);
    }
  }

  lemma StepMakesNewIds(s: State, e: Event)
    requires Sane(s)
    ensures OnlyNewIds(s.db, Step(s, e).db)
  {
    hide CS.Plain, NewRowsUnclicked, GoneCounts, Sum, LivePart, DeadPart, Add, AddTo, Get, Decode, ApplyLedger, Totals, Print, ParseKey, Prefixed, Clean;
    match e {
      case Write(op) => WritesMakeNewIds(s.db, op);
      case _ =>
    }
  }

  lemma {:induction false} RunMakesNewIds(s: State, events: seq<Event>)
    requires Inv(s)
    ensures OnlyNewIds(s.db, Run(s, events).db)
    decreases |events|
  {
    if events != [] {
      hide Inv, Step;
      StepInv(s, events[0]);
      InvIsSane(s);
      StepMakesNewIds(s, events[0]);
      RunMakesNewIds(Step(s, events[0]), events[1..]);
    }
  }

  lemma InvIsSane(s: State)
    requires Inv(s)
    ensures Sane(s) && IdsBounded(s.db)
  {
  }

  lemma {:induction false} RunCredits(s: State, events: seq<Event>, id: nat, date: Option<string>)
    requires Inv(s) && (date.None? ==> id in Run(s, events).db.links)
    ensures Held(Run(s, events).db, id, date) == Held(s.db, id, date) + Credits(s, events, id, date)
    decreases |events|
  {
    if events != [] {
      hide Inv, Step, Held, Credit;
      var next := Step(s, events[0]);
      StepInv(s, events[0]);
      InvIsSane(s);
      if date.None? {
        RunMakesNewIds(next, events[1..]);
        StepMakesNewIds(s, events[0]);
      }
      StepCredits(s, events[0], id, date);
      RunCredits(next, events[1..], id, date);
    }
  }

  /** In every interleaving, for every link row there is, live or deleted: its click
      count is the sum of what commits took under the total counter of the code it
      had at the time; and for every id, even of a row that is gone, the count of each
      date is the sum of what they took under that date. */
  lemma EachLinkHoldsItsCredits(events: seq<Event>, id: nat, d: string)
    ensures Inv(START)
    ensures var db := Run(START, events).db;
      && (id in db.links ==> db.links[id].clickCount == Credits(START, events, id, None))
      && Get(DatesOf(db.daily, id), d) == Credits(START, events, id, Some(d))
  {
    hide Run, Credits, Inv;
    StartIsSound();
    if id in Run(START, events).db.links {
      RunCredits(START, events, id, None);
    }
    RunCredits(START, events, id, Some(d));
  }

  /** Where a commit counts: a live link with a valid code gets exactly the value
      taken under its own total key, and on each date the one under its own daily
      key; deleted links get nothing. */
  lemma CommitCountsRow(s: State, now: int, id: nat, date: Date)
    requires Sane(s) && Taken(s.phase) && id in s.db.links && ShortCode.ValidCode(s.db.links[id].code)
    ensures var was, r := s.db.links[id], Step(s, Commit(now)).db;
      && id in r.links
      && r.links[id].clickCount == was.clickCount + (if was.deleted then 0 else Get(s.phase.vals, Print(Total(was.code))))
      && Get(DatesOf(r.daily, id), date)
         == Get(DatesOf(s.db.daily, id), date) + if was.deleted then 0 else Get(s.phase.vals, Print(Daily(was.code, date)))
  {
    hide ParseKey, Print, Prefixed, Decode, Valid, ApplyLedger, Totals, LivePart, DeadPart, DatesOf, IsDate;
    CommitCredits(s, now, id, None);
    CommitCredits(s, now, id, Some(date));
    CleanKeysDecode(Total(s.db.links[id].code));
    CleanKeysDecode(Daily(s.db.links[id].code, date));
  }

  // ---- what loses clicks, and what never does ----

  /** How much one step adds to the losses of one key. */
  function Loss(s: State, e: Event, k: string): int {
    match e
    case Take =>
      if s.phase.Taking? && s.phase.todo != [] && k == s.phase.todo[0] && k in s.redis then Get(s.phase.vals, k) else 0
    case Break => if s.phase.Taking? then Get(s.phase.vals, k) else 0
    case Crash => Get(InFlight(s.phase), k)
    case Orphan(i) => if i < |s.orphans| && k == s.orphans[i] then Get(s.redis, k) else 0
    case GiveBack(key, answers) => if s.phase.Restoring? && !answers && k == key then Get(s.phase.vals, k) else 0
    case _ => 0
  }

  /** Clicks sent under a key that are nowhere any more: not buffered, not in
      flight, not counted and not dropped. */
  function Missing(s: State, k: string): int {
    Get(s.issued, k) - Get(s.redis, k) - Get(InFlight(s.phase), k) - Get(s.applied, k) - Get(s.dropped, k)
  }

  /** The exact losses: a crash or a pipeline that ends in an error loses what was
      in flight, a leftover GETDEL what it finds, a failed add-back its value, and a
      key scanned twice the value that is overwritten. Nothing else loses a click. */
  lemma LossesAreExact(s: State, e: Event, k: string)
    requires Sane(s)
    ensures Missing(Step(s, e), k) == Missing(s, k) + Loss(s, e, k)
    ensures Get(Step(s, e).lost, k) == Get(s.lost, k) + Loss(s, e, k)
  {
    hide Step, Sane, Loss;
    StepBalances(s, e, k);
    StepLoses(s, e, k);
  }

  lemma StepLoses(s: State, e: Event, k: string)
    requires Sane(s)
    ensures Get(Step(s, e).lost, k) == Get(s.lost, k) + Loss(s, e, k)
  {
    hide ParseKey, Print, Clean, Prefixed, CS.Plain, FlushDb, LivePart, DeadPart, Decode, Add, AddTo, Valid, HasLive, Positive, NonNegative, GoneCounts, Sum;
    match e {
      case Take =>
        if s.phase.Taking? && s.phase.todo != [] {
          AddToAt(s.lost, s.phase.todo[0], Get(s.phase.vals, s.phase.todo[0]), k);
        }
      case Orphan(i) => if i < |s.orphans| { AddToAt(s.lost, s.orphans[i], Get(s.redis, s.orphans[i]), k); }
      case GiveBack(key, _) => AddToAt(s.lost, key, Get(InFlight(s.phase), key), k);
      case Break => AddAt(s.lost, InFlight(s.phase), k);
      case Crash => AddAt(s.lost, InFlight(s.phase), k);
      case _ =>
    }
  }

  lemma AddToAt(m: map<string, int>, k: string, n: int, j: string)
    ensures Get(AddTo(m, k, n), j) == Get(m, j) + if j == k then n else 0
  {
  }

  /** A scan without repetitions leaves no key to be taken twice. */
  ghost predicate Tidy(p: Phase) {
    p.Taking? ==> Flusher.Distinct(p.todo) && forall k | k in p.todo :: k !in p.vals
  }

  lemma StepTidy(s: State, e: Event)
    requires Sane(s) && Tidy(s.phase) && (e.Scan? ==> Flusher.Distinct(e.keys))
    ensures Tidy(Step(s, e).phase)
  {
    hide ParseKey, Print, Clean, Prefixed, CS.Plain, FlushDb, LivePart, DeadPart, Decode, Get, AddTo, Add, Valid, Positive, NonNegative, Flusher.Distinct, GoneCounts, Sum, NewRowsUnclicked;
    if e.Take? && s.phase.Taking? && s.phase.todo != [] {
      TailDistinct(s.phase.todo);
    }
  }

  lemma TailDistinct(keys: seq<string>)
    requires keys != [] && Flusher.Distinct(keys)
    ensures Flusher.Distinct(keys[1..])
    ensures forall k | k in keys[1..] :: k in keys && k != keys[0]
  {
  }

  /** Runs without a crash, a broken pipeline or a failed add-back, on scans
      without repetitions, lose nothing at all. */
  predicate Calm(e: Event) {
    !e.Crash? && !e.Break? && !e.Orphan? && (e.GiveBack? ==> e.answers)
  }

  lemma {:induction false} CalmRunsLoseNothing(s: State, events: seq<Event>, k: string)
    requires Inv(s) && Tidy(s.phase)
    requires forall i | 0 <= i < |events| :: Calm(events[i]) && (events[i].Scan? ==> Flusher.Distinct(events[i].keys))
    ensures Get(Run(s, events).lost, k) == Get(s.lost, k)
    decreases |events|
  {
    if events != [] {
      hide Sane, Conserved, Booked, Flusher.Distinct, Step;
      var e := events[0];
      StepInv(s, e);
      StepTidy(s, e);
      LossesAreExact(s, e, k);
      CalmTake(s, e, k);
      CalmRunsLoseNothing(Step(s, e), events[1..], k);
    }
  }

  lemma CalmTake(s: State, e: Event, k: string)
    requires Tidy(s.phase) && Calm(e)
    ensures Loss(s, e, k) == 0
  {
  }

  // ---- exactly which runs lose nothing ----

  /** A step that finds nothing to lose, or loses none of it. */
  predicate Harmless(s: State, e: Event) {
    match e
    case Take => s.phase.Taking? && s.phase.todo != [] && s.phase.todo[0] in s.redis ==> s.phase.todo[0] !in s.phase.vals
    case Break => s.phase.Taking? ==> s.phase.vals == map[]
    case Crash => InFlight(s.phase) == map[]
    case Orphan(i) => i < |s.orphans| ==> s.orphans[i] !in s.redis
    case GiveBack(key, answers) => s.phase.Restoring? && key in s.phase.vals ==> answers
    case _ => true
  }

  lemma HarmlessIff(s: State, e: Event)
    requires Sane(s)
    ensures Harmless(s, e) <==> forall k :: Loss(s, e, k) == 0
    ensures forall k :: Loss(s, e, k) >= 0
  {
    hide Prefixed, Valid, NonNegative;
    if !Harmless(s, e) {
      var k := LostKey(s, e);
      assert Loss(s, e, k) > 0;
    }
  }

  lemma LostKey(s: State, e: Event) returns (k: string)
    requires Sane(s) && !Harmless(s, e)
    ensures Loss(s, e, k) > 0
  {
    hide Prefixed, Valid, NonNegative;
    match e {
      case Take => k := s.phase.todo[0];
      case Break => k :| k in s.phase.vals;
      case Crash => k :| k in InFlight(s.phase);
      case Orphan(i) => k := s.orphans[i];
      case GiveBack(key, _) => k := key;
    }
  }

  ghost predicate AllHarmless(s: State, events: seq<Event>)
    requires Inv(s)
    decreases |events|
  {
    events == [] || (StepInv(s, events[0]); Harmless(s, events[0]) && AllHarmless(Step(s, events[0]), events[1..]))
  }

  /** The books of losses never shrink, so what is lost stays lost. */
  lemma {:induction false} LostStaysLost(s: State, events: seq<Event>, k: string)
    requires Inv(s)
    ensures Get(Run(s, events).lost, k) >= Get(s.lost, k)
    decreases |events|
  {
    if events != [] {
      hide Sane, Conserved, Booked, Step, Loss, Harmless;
      StepInv(s, events[0]);
      LossesAreExact(s, events[0], k);
      HarmlessIff(s, events[0]);
      LostStaysLost(Step(s, events[0]), events[1..], k);
    }
  }

  /** A run loses nothing under any key if and only if each of its steps is harmless
      in the state it meets. */
  lemma {:induction false} LosesNothingIff(s: State, events: seq<Event>)
    requires Inv(s)
    ensures (forall k :: Get(Run(s, events).lost, k) == Get(s.lost, k)) <==> AllHarmless(s, events)
    decreases |events|
  {
    if events != [] {
      hide Sane, Conserved, Booked, Step, Loss, Harmless;
      var e := events[0];
      var next := Step(s, e);
      StepInv(s, e);
      HarmlessIff(s, e);
      LosesNothingIff(next, events[1..]);
      forall k ensures Get(s.lost, k) + Loss(s, e, k) == Get(next.lost, k) <= Get(Run(s, events).lost, k) {
        LossesAreExact(s, e, k);
        LostStaysLost(next, events[1..], k);
      }
    }
  }

  lemma RunStep(s: State, e: Event, rest: seq<Event>)
    requires Inv(s)
    ensures Inv(Step(s, e)) && Run(s, [e] + rest) == Run(Step(s, e), rest)
  {
    hide Inv, Step;
    StepInv(s, e);
    assert ([e] + rest)[1..] == rest;
  }

  /** Not every flush is all or nothing: one click, and a pipeline that breaks after
      the GETDEL of its counter. The click is gone, and in no table. */
  lemma BrokenPipelineLoses(code: string)
    requires ShortCode.ValidCode(code)
    ensures Inv(START)
    ensures var key := Print(Total(code));
      var s := Run(START, [Incr(Total(code)), Scan([key]), Take, Break]);
      s.issued == map[key := 1] && s.redis == map[] && s.phase.Idle? && s.db == EMPTY && Get(s.lost, key) == 1
  {
    hide Inv, Run, Step, Print, ShortCode.ValidCode;
    var key := Print(Total(code));
    var s1 := START.(redis := map[key := 1], issued := map[key := 1]);
    var s2 := s1.(phase := Taking([key], map[], false));
    var s3 := s2.(phase := Taking([], map[key := 1], false), redis := map[], lost := map[key := 0]);
    StartIsSound();
    FirstClick(code);
    RunStep(START, Incr(Total(code)), [Scan([key]), Take, Break]);
    RunStep(s1, Scan([key]), [Take, Break]);
    RunStep(s2, Take, [Break]);
    RunStep(s3, Break, []);
    EmptyRun(Forget(s3));
    assert [Incr(Total(code))] + [Scan([key]), Take, Break] == [Incr(Total(code)), Scan([key]), Take, Break];
    assert [Scan([key])] + [Take, Break] == [Scan([key]), Take, Break];
    assert [Take] + [Break] == [Take, Break] && [Break] + [] == [Break];
  }

  /** The four steps of that run, one by one. */
  lemma FirstClick(code: string)
    requires ShortCode.ValidCode(code)
    ensures var key := Print(Total(code));
      var s1 := START.(redis := map[key := 1], issued := map[key := 1]);
      var s2 := s1.(phase := Taking([key], map[], false));
      var s3 := s2.(phase := Taking([], map[key := 1], false), redis := map[], lost := map[key := 0]);
      && Prefixed(key)
      && Step(START, Incr(Total(code))) == s1 && Step(s1, Scan([key])) == s2
      && Step(s2, Take) == s3 && Step(s3, Break) == Forget(s3)
      && Get(Forget(s3).lost, key) == 1
  {
    hide Prefixed, Print, ParseKey, ShortCode.ValidCode, CS.Plain, FlushDb, LivePart, DeadPart, GoneCounts, Sum, Decode;
    CleanKeysDecode(Total(code));
    var key := Print(Total(code));
    assert [key][1..] == [];
    var vals := map[key := 1];
    assert vals - {key} == map[];
    assert Add(map[key := 0], vals) == vals;
  }

  lemma EmptyRun(s: State)
    requires Inv(s)
    ensures Run(s, []) == s
  {
  }

  /** A key listed twice fails the pipeline by itself: once a GETDEL found no value,
      no commit and no abort can follow, only a step that forgets what was taken. */
  lemma MissedTakeIsForgotten(s: State, e: Event, k: string)
    requires Sane(s) && s.phase.Taking? && s.phase.missed
    ensures var r := Step(s, e);
      && (r.phase.Taking? ==> r.phase.missed)
      && r.applied == s.applied && r.dropped == s.dropped
      && (!r.phase.Taking? ==> r.phase.Idle? && Loss(s, e, k) == Get(s.phase.vals, k))
  {
    hide Step, Sane, Loss;
    if e.Break? || e.Crash? {
      MissedIsForgotten(s, e, k);
    } else {
      MissedStays(s, e);
    }
  }

  lemma MissedIsForgotten(s: State, e: Event, k: string)
    requires Sane(s) && s.phase.Taking? && (e.Break? || e.Crash?)
    ensures Step(s, e) == Forget(s) && Loss(s, e, k) == Get(s.phase.vals, k)
  {
  }

  lemma MissedStays(s: State, e: Event)
    requires Sane(s) && s.phase.Taking? && s.phase.missed && !e.Break? && !e.Crash?
    ensures var r := Step(s, e);
      r.phase.Taking? && r.phase.missed && r.applied == s.applied && r.dropped == s.dropped
  {
    hide ParseKey, Print, Clean, Prefixed, CS.Plain, FlushDb, Decode, LivePart, DeadPart, Add, Get, Valid, UniqueLive, HasLive, Sane, NewRowsUnclicked, GoneCounts, Sum, AddTo;
    hide TakeOne;
    if e.Take? && s.phase.todo != [] {
      MissedStaysTaking(s);
    }
  }

  lemma MissedStaysTaking(s: State)
    requires s.phase.Taking? && s.phase.missed && s.phase.todo != []
    ensures var r := TakeOne(s, s.phase.todo[0], s.phase.vals);
      r.phase.Taking? && r.phase.missed && r.applied == s.applied && r.dropped == s.dropped
  {
    hide AddTo, Get;
  }
}
