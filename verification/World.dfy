/** Whole runs of the service with clicks and flushes as atomic steps: the API
    handlers that write links (internal/api/links.go, bulk.go, batch.go), the
    redirect (internal/api/redirect.go) and the flusher (internal/counter/flush.go). */
module World {
  import opened MapSum
  import opened CounterKeys
  import opened Tables
  import opened Counts
  import ShortCode

  /** The database and the Redis click buffer. */
  datatype World = World(db: Db, redis: map<string, int>)

  const START := World(EMPTY, map[])

  datatype Action =
    | Create(link: Link)
    | CreateMany(links: seq<Link>)
    | Edit(link: Link)
    | Rename(oldCode: string, newCode: string, at: int)
    | Meta(code: string, title: string, description: string, at: int)
    | Delete(code: string, hard: bool)
    | DeleteMany(codes: seq<string>, hard: bool)
    | DeleteExpired(now: int, hard: bool)
    | Click(code: string, now: int, date: Date)
    | Flush(now: int)

  /** What the handlers check before they touch the store. */
  predicate Admissible(l: Link) {
    ShortCode.ValidCode(l.code) && l.expiresAt >= 0
  }

  /** Handlers never set a click count or a deletion flag on a new row. */
  function Unclicked(l: Link): Link {
    l.(clickCount := 0, deleted := false)
  }

  function Admitted(ls: seq<Link>): seq<Link> {
    if ls == [] then []
    else (if Admissible(ls[0]) then [Unclicked(ls[0])] else []) + Admitted(ls[1..])
  }

  /** The redirect serves a found link that has not expired, and counts the click. */
  predicate Served(db: Db, code: string, now: int)
    requires UniqueLive(db.links)
  {
    match Find(db.links, code)
    case Some(l) => !Expired(l, now)
    case None => false
  }

  function Incr(redis: map<string, int>, key: string): map<string, int> {
    redis[key := Get(redis, key) + 1]
  }

  function ClickKeys(redis: map<string, int>, code: string, date: string): map<string, int> {
    Incr(Incr(redis, Print(Total(code))), Print(Daily(code, date)))
  }

  function Step(w: World, a: Action): World
    requires Valid(w.db) && BufferKeys(w.redis)
  {
    match a
    case Create(l) => if Admissible(l) then w.(db := Tables.Create(w.db, Unclicked(l)).0) else w
    case CreateMany(ls) => w.(db := Tables.CreateMany(w.db, Admitted(ls)).0)
    case Edit(l) => if l.expiresAt >= 0 then w.(db := Update(w.db, l).0) else w
    case Rename(o, n, at) => if ShortCode.ValidCode(n) then w.(db := Tables.Rename(w.db, o, n, at).0) else w
    case Meta(code, title, description, at) => w.(db := UpdateMeta(w.db, code, title, description, at))
    case Delete(code, hard) => w.(db := Tables.Delete(w.db, code, hard).0)
    case DeleteMany(codes, hard) => w.(db := Tables.DeleteMany(w.db, codes, hard).0)
    case DeleteExpired(now, hard) => w.(db := Tables.DeleteExpired(w.db, now, hard).0)
    case Click(code, now, date) => if Served(w.db, code, now) then w.(redis := ClickKeys(w.redis, code, date)) else w
    case Flush(now) => World(FlushDb(w.db, Decode(w.redis), now), map[])
  }

  // ---- the invariant ----

  /** click_count is the sum of the link's daily counts, for every row there is. */
  ghost predicate ClicksAddUp(db: Db) {
    forall id | id in db.links :: db.links[id].clickCount == Sum(DatesOf(db.daily, id))
  }

  ghost predicate RowsAdmissible(db: Db) {
    forall id | id in db.links :: Admissible(db.links[id])
  }

  ghost predicate CountsPositive(db: Db) {
    forall k | k in db.daily :: db.daily[k].count > 0
  }

  ghost predicate BufferKeys(redis: map<string, int>) {
    forall s | s in redis :: Prefixed(s) && Clean(ParseKey(s)) && redis[s] > 0
  }

  /** In the buffer, each code's total is the sum of its daily counters. */
  ghost predicate Balanced(m: map<Key, int>) {
    forall code :: Get(m, Total(code)) == Sum(DatesFor(m, code))
  }

  ghost predicate Good(db: Db) {
    Valid(db) && ClicksAddUp(db) && RowsAdmissible(db) && CountsPositive(db)
  }

  ghost predicate Inv(w: World) {
    Good(w.db) && BufferKeys(w.redis) && Balanced(Decode(w.redis))
  }

  /** An id that was handed out and names no live row any more. */
  predicate Gone(db: Db, id: nat) {
    id <= db.lastId && (id in db.links ==> db.links[id].deleted)
  }

  /** What stays true of the past: ids only grow, a row that is gone never comes
      back and keeps the daily counts it had, and no daily count ever shrinks. */
  ghost predicate Later(a: Db, b: Db) {
    && a.lastId <= b.lastId
    && (forall id | Gone(a, id) :: Gone(b, id) && (id in b.links ==> id in a.links))
    && (forall id | Gone(a, id) :: DatesOf(b.daily, id) == DatesOf(a.daily, id))
    && (forall k | k in a.daily :: k in b.daily && a.daily[k].count <= b.daily[k].count)
  }

  // ---- one step ----

  /** A rewritten row keeps its identity and clicks; it may be deleted but never revived. */
  predicate Carried(was: Link, row: Link) {
    row.id == was.id && row.clickCount == was.clickCount && (was.deleted ==> row.deleted) && Admissible(row)
  }

  /** Rewriting or dropping rows this way keeps everything, as long as live codes stay unique. */
  lemma CarriedKeeps(db: Db, links: map<nat, Link>)
    requires Good(db) && UniqueLive(links)
    requires forall id | id in links :: id in db.links && Carried(db.links[id], links[id])
    ensures Good(db.(links := links)) && Later(db, db.(links := links))
  {
    var r := db.(links := links);
    forall id | id in links ensures r.links[id].id == id && 1 <= id <= r.lastId && r.links[id].clickCount == Sum(DatesOf(r.daily, id)) {
      assert Carried(db.links[id], links[id]);
    }
    forall id | Gone(db, id) ensures Gone(r, id) {
      assert id in links ==> Carried(db.links[id], links[id]);
    }
  }

  lemma SetWhereKeeps(db: Db, code: string, f: Link -> Link)
    requires Good(db)
    requires forall l: Link | Admissible(l) && !l.deleted :: Carried(l, f(l)) && f(l).code == l.code
    ensures var r := db.(links := SetWhere(db.links, code, f)); Good(r) && Later(db, r)
  {
    UniqueKept(db.links, SetWhere(db.links, code, f));
    CarriedKeeps(db, SetWhere(db.links, code, f));
  }

  lemma DeleteWhereKeeps(db: Db, doomed: set<nat>, hard: bool)
    requires Good(db)
    ensures var r := db.(links := DeleteWhere(db.links, doomed, hard)); Good(r) && Later(db, r)
  {
    UniqueKept(db.links, DeleteWhere(db.links, doomed, hard));
    CarriedKeeps(db, DeleteWhere(db.links, doomed, hard));
  }

  /** A new row gets an id nobody ever had, so it starts without daily counts. */
  lemma NewIdHasNoCounts(db: Db)
    requires IdsBounded(db)
    ensures DatesOf(db.daily, db.lastId + 1) == map[]
    ensures db.lastId + 1 !in db.links
  {
    assert forall k | k in db.daily :: k.0 != db.lastId + 1;
  }

  lemma InsertAddsUp(db: Db, l: Link)
    requires Good(db) && l.clickCount == 0
    ensures ClicksAddUp(Insert(db, l))
  {
    var r := Insert(db, l);
    NewIdHasNoCounts(db);
    forall id | id in r.links ensures r.links[id].clickCount == Sum(DatesOf(r.daily, id)) {
      if id != db.lastId + 1 {
        assert r.links[id] == db.links[id];
      }
    }
  }

  lemma InsertKeeps(db: Db, l: Link)
    requires Good(db) && Admissible(l) && l.clickCount == 0 && !HasLive(db.links, l.code)
    ensures Good(Insert(db, l)) && Later(db, Insert(db, l))
  {
    hide ShortCode.ValidCode, Sum, DatesOf;
    NewIdHasNoCounts(db);
    var row := l.(id := db.lastId + 1, deleted := false);
    assert Admissible(row);
    UniqueAfterInsert(db.links, db.lastId + 1, row);
    InsertAddsUp(db, l);
  }

  lemma CreateKeeps(db: Db, l: Link)
    requires Good(db) && Admissible(l) && l.clickCount == 0
    ensures Good(Tables.Create(db, l).0) && Later(db, Tables.Create(db, l).0)
  {
    if !HasLive(db.links, l.code) {
      InsertKeeps(db, l);
    }
  }

  lemma {:induction false} AdmittedAll(ls: seq<Link>)
    ensures forall i | 0 <= i < |Admitted(ls)| :: Admissible(Admitted(ls)[i]) && Admitted(ls)[i].clickCount == 0
  {
    if ls != [] {
      AdmittedAll(ls[1..]);
    }
  }

  lemma {:induction false} CreateManyKeeps(db: Db, ls: seq<Link>)
    requires Good(db) && forall i | 0 <= i < |ls| :: Admissible(ls[i]) && ls[i].clickCount == 0
    ensures Good(Tables.CreateMany(db, ls).0) && Later(db, Tables.CreateMany(db, ls).0)
    decreases |ls|
  {
    if ls != [] {
      CreateKeeps(db, ls[0]);
      CreateManyKeeps(Tables.Create(db, ls[0]).0, ls[1..]);
    }
  }

  /** Relabelling daily rows leaves every count where it was. */
  lemma RelabelKeeps(db: Db, daily: map<(nat, string), DailyRow>)
    requires Good(db) && daily.Keys == db.daily.Keys && forall k | k in daily :: daily[k].count == db.daily[k].count
    ensures Good(db.(daily := daily)) && Later(db, db.(daily := daily))
  {
    forall id ensures DatesOf(daily, id) == DatesOf(db.daily, id) {
      assert DatesOf(daily, id).Keys == DatesOf(db.daily, id).Keys;
      forall date | date in DatesOf(daily, id) ensures DatesOf(daily, id)[date] == DatesOf(db.daily, id)[date] {
        DatesAt(daily, id, date);
        DatesAt(db.daily, id, date);
      }
    }
    assert forall id | id in db.links :: db.links[id].clickCount == Sum(DatesOf(db.daily, id)) == Sum(DatesOf(daily, id));
  }

  lemma RecodeKeeps(db: Db, oldCode: string, newCode: string, at: int)
    requires Good(db) && ShortCode.ValidCode(newCode) && (newCode == oldCode || !HasLive(db.links, newCode))
    ensures var r := db.(links := SetWhere(db.links, oldCode, Recoded(newCode, at))); Good(r) && Later(db, r)
  {
    var links := SetWhere(db.links, oldCode, Recoded(newCode, at));
    UniqueAfterRename(db.links, oldCode, newCode, at);
    forall id | id in links ensures id in db.links && Carried(db.links[id], links[id]) {
      assert Admissible(db.links[id]);
    }
    CarriedKeeps(db, links);
  }

  lemma RenameKeeps(db: Db, oldCode: string, newCode: string, at: int)
    requires Good(db) && ShortCode.ValidCode(newCode)
    ensures Good(Tables.Rename(db, oldCode, newCode, at).0) && Later(db, Tables.Rename(db, oldCode, newCode, at).0)
  {
    var (r, status) := Tables.Rename(db, oldCode, newCode, at);
    if status.Done? {
      var mid := db.(daily := r.daily);
      RelabelKeeps(db, r.daily);
      RecodeKeeps(mid, oldCode, newCode, at);
      assert r == mid.(links := SetWhere(mid.links, oldCode, Recoded(newCode, at)));
      LaterTrans(db, mid, r);
    }
  }

  lemma LaterTrans(a: Db, b: Db, c: Db)
    requires Later(a, b) && Later(b, c)
    ensures Later(a, c)
  {
    forall id | Gone(a, id) ensures DatesOf(c.daily, id) == DatesOf(a.daily, id) {
      assert Gone(b, id);
    }
  }

  lemma {:induction false} DeleteManyKeeps(db: Db, codes: seq<string>, hard: bool)
    requires Good(db)
    ensures Good(Tables.DeleteMany(db, codes, hard).0) && Later(db, Tables.DeleteMany(db, codes, hard).0)
    decreases |codes|
  {
    if codes != [] {
      DeleteWhereKeeps(db, LiveIds(db.links, codes[0]), hard);
      DeleteManyKeeps(Tables.Delete(db, codes[0], hard).0, codes[1..], hard);
    }
  }

  // ---- clicks and flushes ----

  lemma DecodePut(redis: map<string, int>, k: Key, v: int)
    requires BufferKeys(redis) && Clean(k) && v > 0
    ensures BufferKeys(redis[Print(k) := v])
    ensures Decode(redis[Print(k) := v]) == Decode(redis)[k := v]
    ensures Get(redis, Print(k)) == Get(Decode(redis), k)
  {
    hide ParseKey, Print, IsDate, ShortCode.ValidCode, Decode;
    var after := redis[Print(k) := v];
    CleanKeysDecode(k);
    forall j
      ensures j in Decode(after) <==> j in Decode(redis)[k := v]
      ensures j in Decode(after) ==> Decode(after)[j] == Decode(redis)[k := v][j]
    {
      DecodeAt(redis, j);
      DecodeAt(after, j);
    }
    DecodeAt(redis, k);
    assert Decode(after).Keys == Decode(redis)[k := v].Keys;
  }

  /** A click raises a code's total and one of its dates together. */
  lemma ClickBalances(m: map<Key, int>, code: string, date: string)
    requires Balanced(m)
    ensures Balanced(m[Total(code) := Get(m, Total(code)) + 1][Daily(code, date) := Get(m, Daily(code, date)) + 1])
  {
    var m1 := m[Total(code) := Get(m, Total(code)) + 1];
    var n := Get(m, Daily(code, date)) + 1;
    forall c ensures Get(m1[Daily(code, date) := n], Total(c)) == Sum(DatesFor(m1[Daily(code, date) := n], c)) {
      DatesForPut(m, Total(code), Get(m, Total(code)) + 1, c);
      DatesForPut(m1, Daily(code, date), n, c);
      DatesForAt(m, c, date);
      SumPut(DatesFor(m, c), date, n);
    }
  }

  lemma ClickKeeps(w: World, code: string, now: int, date: Date)
    requires Inv(w)
    ensures Inv(Step(w, Click(code, now, date)))
  {
    hide ParseKey, Print, IsDate, ShortCode.ValidCode, Decode, Balanced, ClickKeys, ClicksAddUp;
    if Served(w.db, code, now) {
      var l := Find(w.db.links, code).value;
      assert Admissible(l);
      ClickedBuffer(w.redis, code, date);
    }
  }

  lemma ClickedBuffer(redis: map<string, int>, code: string, date: Date)
    requires BufferKeys(redis) && Balanced(Decode(redis)) && ShortCode.ValidCode(code)
    ensures BufferKeys(ClickKeys(redis, code, date)) && Balanced(Decode(ClickKeys(redis, code, date)))
  {
    hide ParseKey, Print, IsDate, ShortCode.ValidCode, Decode, DatesFor, Sum;
    var t, d := Total(code), Daily(code, date);
    var r1 := Incr(redis, Print(t));
    DecodePut(redis, t, Get(redis, Print(t)) + 1);
    DecodePut(r1, d, Get(r1, Print(d)) + 1);
    ClickBalances(Decode(redis), code, date);
  }

  lemma FlushAddsUp(db: Db, m: map<Key, int>, now: int)
    requires ClicksAddUp(db) && Balanced(m) && forall k | k in m :: m[k] > 0
    ensures ClicksAddUp(FlushDb(db, m, now))
  {
    var r := FlushDb(db, m, now);
    forall id | id in r.links ensures r.links[id].clickCount == Sum(DatesOf(r.daily, id)) {
      RowAddsUp(db, m, now, id);
    }
  }

  lemma RowAddsUp(db: Db, m: map<Key, int>, now: int, id: nat)
    requires ClicksAddUp(db) && Balanced(m) && (forall k | k in m :: m[k] > 0) && id in db.links
    ensures var r := FlushDb(db, m, now); r.links[id].clickCount == Sum(DatesOf(r.daily, id))
  {
    hide Sum, DatesOf, DatesFor, ApplyLedger, Totals;
    var row := db.links[id];
    FlushedDates(db.links, db.daily, m, id);
    if !row.deleted {
      TotalsAt(m, row.code);
      SumAdd(DatesOf(db.daily, id), DatesFor(m, row.code));
    }
  }

  lemma FlushCounts(db: Db, m: map<Key, int>, now: int)
    requires IdsBounded(db) && CountsPositive(db) && forall k | k in m :: m[k] > 0
    ensures var r := FlushDb(db, m, now);
      && CountsPositive(r) && IdsBounded(r)
      && (forall k | k in db.daily :: k in r.daily && db.daily[k].count <= r.daily[k].count)
  {
    hide Totals, ApplyLedger, Reached;
    var r := FlushDb(db, m, now);
    forall k: (nat, string) | k in db.daily || k in r.daily
      ensures k in r.daily && r.daily[k].count > 0 && 1 <= k.0 <= db.lastId
      ensures k in db.daily ==> db.daily[k].count <= r.daily[k].count
    {
      LedgerAt(db.links, db.daily, m, k.0, k.1);
    }
  }

  lemma FlushKeeps(db: Db, m: map<Key, int>, now: int)
    requires Good(db) && Balanced(m) && forall k | k in m :: m[k] > 0
    ensures Good(FlushDb(db, m, now)) && Later(db, FlushDb(db, m, now))
  {
    hide ShortCode.ValidCode, Sum, DatesOf, ApplyLedger, DatesFor, ClicksAddUp, IdsBounded, CountsPositive, Totals;
    var r := FlushDb(db, m, now);
    FlushAddsUp(db, m, now);
    FlushCounts(db, m, now);
    UniqueKept(db.links, r.links);
    forall id | id in r.links ensures Admissible(r.links[id]) {
      assert Admissible(db.links[id]);
    }
    forall id | Gone(db, id) ensures DatesOf(r.daily, id) == DatesOf(db.daily, id) {
      FlushedDates(db.links, db.daily, m, id);
    }
  }

  // ---- every step, every run ----

  lemma EditsKeep(db: Db, l: Link, code: string, title: string, description: string, at: int)
    requires Good(db)
    ensures l.expiresAt >= 0 ==> Good(Update(db, l).0) && Later(db, Update(db, l).0)
    ensures Good(UpdateMeta(db, code, title, description, at)) && Later(db, UpdateMeta(db, code, title, description, at))
  {
    if l.expiresAt >= 0 {
      SetWhereKeeps(db, l.code, Edited(l));
    }
    SetWhereKeeps(db, code, WithMeta(title, description, at));
  }

  lemma StepKeeps(w: World, a: Action)
    requires Inv(w)
    ensures Inv(Step(w, a)) && Later(w.db, Step(w, a).db)
  {
    hide Good, Later, BufferKeys, Balanced, Decode, ParseKey, IsDate, ShortCode.ValidCode;
    LaterSame(w.db);
    match a {
      case Create(l) => if Admissible(l) { CreateKeeps(w.db, Unclicked(l)); }
      case CreateMany(ls) => AdmittedAll(ls); CreateManyKeeps(w.db, Admitted(ls));
      case Edit(l) => EditsKeep(w.db, l, "", "", "", 0);
      case Rename(o, n, at) => if ShortCode.ValidCode(n) { RenameKeeps(w.db, o, n, at); }
      case Meta(code, title, description, at) => SetWhereKeeps(w.db, code, WithMeta(title, description, at));
      case Delete(code, hard) => DeleteWhereKeeps(w.db, LiveIds(w.db.links, code), hard);
      case DeleteMany(codes, hard) => DeleteManyKeeps(w.db, codes, hard);
      case DeleteExpired(now, hard) => DeleteWhereKeeps(w.db, ExpiredIds(w.db.links, now), hard);
      case Click(code, now, date) => ClickKeeps(w, code, now, date);
      case Flush(now) => FlushStepKeeps(w, now);
    }
  }

  lemma LaterSame(db: Db)
    ensures Later(db, db)
  {
  }

  lemma FlushStepKeeps(w: World, now: int)
    requires Inv(w)
    ensures Inv(Step(w, Flush(now))) && Later(w.db, Step(w, Flush(now)).db)
  {
    hide Good, Later, FlushDb, Decode, Balanced, ParseKey, Clean;
    DecodePositive(w.redis);
    FlushKeeps(w.db, Decode(w.redis), now);
    NothingBalances();
  }

  lemma DecodePositive(redis: map<string, int>)
    requires forall t | t in redis :: Prefixed(t)
    ensures forall k | k in Decode(redis) :: Decode(redis)[k] > 0
  {
    hide ParseKey, Print;
  }

  lemma NothingBalances()
    ensures BufferKeys(map[]) && Balanced(Decode(map[]))
  {
    hide ParseKey, Sum, DatesFor, Get;
    assert Decode(map[]) == map[];
    NoneBalances();
  }

  lemma NoneBalances()
    ensures Balanced(map[])
  {
    hide Sum, DatesFor;
    forall code ensures Get(map[], Total(code)) == Sum(DatesFor(map[], code)) {
      NoDates(code);
    }
  }

  lemma NoDates(code: string)
    ensures Sum(DatesFor(map[], code)) == 0
  {
    assert DatesFor(map[], code) == map[];
  }

  /** The world after a list of actions. */
  ghost function Run(w: World, actions: seq<Action>): (r: World)
    requires Inv(w)
    ensures Inv(r) && Later(w.db, r.db)
    decreases |actions|
  {
    if actions == [] then w else
      StepKeeps(w, actions[0]);
      var next := Step(w, actions[0]);
      var last := Run(next, actions[1..]);
      LaterTrans(w.db, next.db, last.db);
      last
  }

  lemma StartIsGood()
    ensures Inv(START)
  {
    NothingBalances();
  }

  /** In every run from an empty database, at every moment, each link row there
      is, deleted or not, carries exactly the sum of its daily counts. */
  lemma ClickCountsAlwaysAddUp(actions: seq<Action>, id: nat)
    ensures Inv(START)
    ensures var w := Run(START, actions);
      id in w.db.links ==> w.db.links[id].clickCount == Sum(DatesOf(w.db.daily, id))
  {
    StartIsGood();
  }

  /** The dashboard's click total never goes down. */
  lemma TotalClicksNeverFall(w: World, actions: seq<Action>)
    requires Inv(w)
    ensures ClicksTotal(w.db) <= ClicksTotal(Run(w, actions).db)
  {
    var r := Run(w, actions);
    SumMonotone(AllCounts(w.db.daily), AllCounts(r.db.daily));
  }

  /** An id that names no row any more, hard-deleted or never used by one, names
      none ever again. */
  lemma IdsAreNeverReused(w: World, actions: seq<Action>, id: nat)
    requires Inv(w) && id <= w.db.lastId && id !in w.db.links
    ensures id !in Run(w, actions).db.links
  {
    hide Run, Good, BufferKeys, Balanced, DatesOf;
    assert Gone(w.db, id);
  }

  /** A successful create is found under its code with a fresh id and no daily
      counts, however often the code was used before. */
  lemma CreatedStartsFromZero(w: World, l: Link)
    requires Inv(w) && Admissible(l) && !HasLive(w.db.links, l.code)
    ensures var next := Step(w, Create(l));
      && Inv(next) && next.db.lastId > w.db.lastId
      && Find(next.db.links, l.code) == Some(Unclicked(l).(id := next.db.lastId))
      && DatesOf(next.db.daily, next.db.lastId) == map[]
  {
    hide Step, Later, BufferKeys, Balanced, ShortCode.ValidCode, DatesOf, ClicksAddUp, RowsAdmissible, CountsPositive;
    StepKeeps(w, Create(l));
    CreateInserts(w, l);
    NewIdHasNoCounts(w.db);
    var next := Step(w, Create(l));
    assert Live(next.db.links[next.db.lastId], l.code);
  }

  lemma CreateInserts(w: World, l: Link)
    requires Inv(w) && Admissible(l) && !HasLive(w.db.links, l.code)
    ensures Step(w, Create(l)) == w.(db := Insert(w.db, Unclicked(l)))
  {
    hide Good, BufferKeys, Balanced, ShortCode.ValidCode;
  }
}
