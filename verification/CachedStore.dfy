/** The store with its lookup cache as a state machine, next to the same store
    without a cache (internal/store/store.go, internal/store/cache.go). */
module CachedStore {
  import opened Tables
  import opened Counts

  datatype Entry = Entry(link: Link, expiresAt: int)

  type Entries = map<string, Entry>

  /** Sixty seconds, on a clock that counts nanoseconds. */
  const TTL := 60_000_000_000

  datatype State = State(db: Db, entries: Entries)

  function Hit(entries: Entries, code: string, t: int): Option<Link> {
    if code !in entries || t > entries[code].expiresAt then None else Some(entries[code].link)
  }

  function Put(entries: Entries, code: string, l: Link, t: int): Entries {
    entries[code := Entry(l, t + TTL)]
  }

  /** The cache fills at the end of CreateLinks: one for every row that got an id, in order. */
  function PutAll(entries: Entries, ls: seq<Link>, ids: seq<Option<nat>>, t: int): Entries
    requires |ls| == |ids|
    decreases |ls|
  {
    if ls == [] then entries else
      PutAll(if ids[0].Some? then Put(entries, ls[0].code, ls[0].(id := ids[0].value), t) else entries, ls[1..], ids[1..], t)
  }

  datatype Op =
    | Create(link: Link)
    | CreateMany(links: seq<Link>)
    | Meta(code: string, title: string, description: string, at: int)
    | Get(code: string)
    | Update(link: Link)
    | Rename(oldCode: string, newCode: string, at: int)
    | Delete(code: string, hard: bool)
    | DeleteMany(codes: seq<string>, hard: bool)
    | CountExpired(now: int)
    | DeleteExpired(now: int, hard: bool)
    | Counts(totals: map<string, int>, dailies: seq<DailyCount>, now: int)
    | Invalidate

  datatype Out =
    | Ack(status: Status)
    | New(status: Status, id: nat)
    | NewMany(ids: seq<Option<nat>>)
    | Row(link: Option<Link>)
    | Number(n: nat)

  /** The store without a cache: what each call does to the tables and returns. */
  function Plain(db: Db, op: Op): (Db, Out)
    requires UniqueLive(db.links)
  {
    match op
    case Create(l) => var (r, status) := Tables.Create(db, l); (r, New(status, if status.Done? then r.lastId else 0))
    case CreateMany(ls) => var (r, ids) := Tables.CreateMany(db, ls); (r, NewMany(ids))
    case Meta(code, title, description, at) => (UpdateMeta(db, code, title, description, at), Ack(Done))
    case Get(code) => (db, Row(Find(db.links, code)))
    case Update(l) => var (r, status) := Tables.Update(db, l); (r, Ack(status))
    case Rename(o, n, at) => var (r, status) := Tables.Rename(db, o, n, at); (r, Ack(status))
    case Delete(code, hard) => var (r, status) := Tables.Delete(db, code, hard); (r, Ack(status))
    case DeleteMany(codes, hard) => var (r, n) := Tables.DeleteMany(db, codes, hard); (r, Number(n))
    case CountExpired(now) => (db, Number(Tables.CountExpired(db, now)))
    case DeleteExpired(now, hard) => var (r, n) := Tables.DeleteExpired(db, now, hard); (r, Number(n))
    case Counts(totals, dailies, now) => (ApplyCounts(db, totals, dailies, now), Ack(Done))
    case Invalidate => (db, Ack(Done))
  }

  /** What each call does to the cache, given the tables before it, what it
      returned, and the clock reading t it makes. */
  function Recache(s: State, op: Op, out: Out, t: int): Entries
    requires UniqueLive(s.db.links) && out == Plain(s.db, op).1
  {
    match op
    case Create(l) => if out.status.Done? then Put(s.entries, l.code, l.(id := out.id), t) else s.entries
    case CreateMany(ls) => PutAll(s.entries, ls, out.ids, t)
    case Meta(code, _, _, _) => s.entries - {code}
    case Get(code) =>
      if Hit(s.entries, code, t).Some? then s.entries
      else if out.link.Some? then Put(s.entries, code, out.link.value, t) else s.entries
    case Update(l) => if out.status.Done? then s.entries - {l.code} else s.entries
    case Rename(o, n, _) => if out.status.Done? then s.entries - {o} - {n} else s.entries
    case Delete(code, _) => if out.status.Done? then s.entries - {code} else s.entries
    case DeleteMany(codes, _) => s.entries - set code | code in codes
    case CountExpired(_) => s.entries
    case DeleteExpired(_, _) => map[]
    case Counts(totals, _, _) => s.entries - set code | code in totals && code != ""
    case Invalidate => map[]
  }

  /** The store as it is: a fresh cache entry answers GetLink without a look at the tables. */
  function Step(s: State, op: Op, t: int): (State, Out)
    requires UniqueLive(s.db.links)
  {
    var (db, out) := Plain(s.db, op);
    var answer := if op.Get? && Hit(s.entries, op.code, t).Some? then Row(Hit(s.entries, op.code, t)) else out;
    (State(db, Recache(s, op, out, t)), answer)
  }

  /** Every entry, stale by the clock or not, is the live row of its code, field by field. */
  ghost predicate Coherent(s: State) {
    forall code | code in s.entries :: exists id | id in s.db.links :: Live(s.db.links[id], code) && s.db.links[id] == s.entries[code].link
  }

  /** What the store asks of its callers: new rows come undeleted, and no click
      total is keyed by the empty code. */
  predicate WellCalled(op: Op) {
    match op
    case Create(l) => !l.deleted
    case CreateMany(ls) => forall i | 0 <= i < |ls| :: !ls[i].deleted
    case Counts(totals, _, _) => "" !in totals
    case _ => true
  }

  // ---- the tables keep their index ----

  lemma {:induction false} CreateManyValid(db: Db, ls: seq<Link>)
    requires Valid(db)
    ensures Valid(Tables.CreateMany(db, ls).0)
    decreases |ls|
  {
    if ls != [] {
      CreateValid(db, ls[0]);
      CreateManyValid(Tables.Create(db, ls[0]).0, ls[1..]);
    }
  }

  lemma CreateValid(db: Db, l: Link)
    requires Valid(db)
    ensures Valid(Tables.Create(db, l).0)
  {
    if !HasLive(db.links, l.code) {
      UniqueAfterInsert(db.links, db.lastId + 1, l.(id := db.lastId + 1, deleted := false));
    }
  }

  lemma DeleteValid(db: Db, doomed: set<nat>, hard: bool)
    requires Valid(db)
    ensures Valid(db.(links := DeleteWhere(db.links, doomed, hard)))
  {
    UniqueKept(db.links, DeleteWhere(db.links, doomed, hard));
  }

  lemma {:induction false} DeleteManyValid(db: Db, codes: seq<string>, hard: bool)
    requires Valid(db)
    ensures Valid(Tables.DeleteMany(db, codes, hard).0)
    decreases |codes|
  {
    if codes != [] {
      DeleteValid(db, LiveIds(db.links, codes[0]), hard);
      DeleteManyValid(Tables.Delete(db, codes[0], hard).0, codes[1..], hard);
    }
  }

  lemma {:induction false} DailiesBounded(links: map<nat, Link>, daily: map<(nat, string), DailyRow>, ds: seq<DailyCount>, last: nat)
    requires forall id | id in links :: 1 <= id <= last
    requires forall k | k in daily :: 1 <= k.0 <= last
    ensures forall k | k in ApplyDailies(links, daily, ds) :: 1 <= k.0 <= last
    decreases |ds|
  {
    if ds != [] {
      DailiesBounded(links, if ds[0].count <= 0 then daily else AddDaily(links, daily, ds[0]), ds[1..], last);
    }
  }

  lemma RewriteValid(db: Db, code: string, f: Link -> Link)
    requires Valid(db) && forall l: Link :: f(l).id == l.id && f(l).code == l.code && f(l).deleted == l.deleted
    ensures Valid(db.(links := SetWhere(db.links, code, f)))
  {
    UniqueKept(db.links, SetWhere(db.links, code, f));
  }

  lemma RenameValid(db: Db, o: string, n: string, at: int)
    requires Valid(db)
    ensures Valid(Tables.Rename(db, o, n, at).0)
  {
    hide HasLive;
    if n == o || !HasLive(db.links, n) { UniqueAfterRename(db.links, o, n, at); }
  }

  lemma PlainValid(db: Db, op: Op)
    requires Valid(db)
    ensures Valid(Plain(db, op).0)
  {
    hide ApplyCounts, HasLive, UniqueLive, IdsBounded, SetWhere, DeleteWhere;
    match op {
      case Create(l) => CreateValid(db, l);
      case CreateMany(ls) => CreateManyValid(db, ls);
      case Meta(code, title, description, at) => RewriteValid(db, code, WithMeta(title, description, at));
      case Get(_) =>
      case Update(l) => RewriteValid(db, l.code, Edited(l));
      case Rename(o, n, at) => RenameValid(db, o, n, at);
      case Delete(code, hard) => DeleteValid(db, LiveIds(db.links, code), hard);
      case DeleteMany(codes, hard) => DeleteManyValid(db, codes, hard);
      case CountExpired(_) =>
      case DeleteExpired(now, hard) => DeleteValid(db, ExpiredIds(db.links, now), hard);
      case Counts(totals, dailies, now) => CountsValid(db, totals, dailies, now);
      case Invalidate =>
    }
  }

  lemma CountsValid(db: Db, totals: map<string, int>, dailies: seq<DailyCount>, now: int)
    requires Valid(db)
    ensures Valid(ApplyCounts(db, totals, dailies, now))
  {
    hide ApplyDailies;
    UniqueKept(db.links, ApplyTotals(db.links, totals, now));
    DailiesBounded(ApplyTotals(db.links, totals, now), db.daily, dailies, db.lastId);
  }

  // ---- each call keeps the cache coherent ----

  /** An entry stays right when the row it copies is left alone. */
  lemma CoherentKept(s: State, r: State)
    requires Coherent(s)
    requires forall code | code in r.entries :: code in s.entries && r.entries[code] == s.entries[code]
    requires forall id | id in s.db.links && !s.db.links[id].deleted && s.db.links[id].code in r.entries ::
      id in r.db.links && r.db.links[id] == s.db.links[id]
    ensures Coherent(r)
  {
    forall code | code in r.entries
      ensures exists id | id in r.db.links :: Live(r.db.links[id], code) && r.db.links[id] == r.entries[code].link
    {
      var id :| id in s.db.links && Live(s.db.links[id], code) && s.db.links[id] == s.entries[code].link;
      assert r.db.links[id] == s.db.links[id];
    }
  }

  lemma InsertCoherent(s: State, l: Link, t: int)
    requires Valid(s.db) && Coherent(s) && !l.deleted && !HasLive(s.db.links, l.code)
    ensures Coherent(State(Insert(s.db, l), Put(s.entries, l.code, l.(id := s.db.lastId + 1), t)))
    ensures Coherent(State(Insert(s.db, l), s.entries))
  {
    var r := State(Insert(s.db, l), s.entries);
    assert s.db.lastId + 1 !in s.db.links;
    CoherentKept(s, r);
    var put := State(r.db, Put(s.entries, l.code, l.(id := s.db.lastId + 1), t));
    forall code | code in put.entries
      ensures exists id | id in put.db.links :: Live(put.db.links[id], code) && put.db.links[id] == put.entries[code].link
    {
      if code == l.code {
        assert Live(put.db.links[s.db.lastId + 1], code);
      } else {
        var id :| id in r.db.links && Live(r.db.links[id], code) && r.db.links[id] == r.entries[code].link;
      }
    }
  }

  lemma {:induction false} CreateManyCoherent(s: State, ls: seq<Link>, t: int)
    requires Valid(s.db) && Coherent(s) && forall i | 0 <= i < |ls| :: !ls[i].deleted
    ensures var (db, ids) := Tables.CreateMany(s.db, ls); Coherent(State(db, PutAll(s.entries, ls, ids, t)))
    decreases |ls|
  {
    if ls != [] {
      var next := Tables.Create(s.db, ls[0]).0;
      CreateValid(s.db, ls[0]);
      if HasLive(s.db.links, ls[0].code) {
        CreateManyCoherent(s, ls[1..], t);
      } else {
        InsertCoherent(s, ls[0], t);
        CreateManyCoherent(State(next, Put(s.entries, ls[0].code, ls[0].(id := next.lastId), t)), ls[1..], t);
      }
    }
  }

  lemma DeleteCoherent(s: State, code: string, hard: bool)
    requires Coherent(s)
    ensures Coherent(State(Tables.Delete(s.db, code, hard).0, s.entries - {code}))
  {
    CoherentKept(s, State(Tables.Delete(s.db, code, hard).0, s.entries - {code}));
  }

  lemma {:induction false} DeleteManyCoherent(s: State, codes: seq<string>, hard: bool)
    requires Valid(s.db) && Coherent(s)
    ensures Coherent(State(Tables.DeleteMany(s.db, codes, hard).0, s.entries - set code | code in codes))
    decreases |codes|
  {
    if codes == [] {
      assert s.entries - (set code | code in codes) == s.entries;
    } else {
      DeleteCoherent(s, codes[0], hard);
      DeleteValid(s.db, LiveIds(s.db.links, codes[0]), hard);
      var next := State(Tables.Delete(s.db, codes[0], hard).0, s.entries - {codes[0]});
      DeleteManyCoherent(next, codes[1..], hard);
      assert s.entries - (set code | code in codes) == next.entries - set code | code in codes[1..];
    }
  }

  lemma FillCoherent(s: State, code: string, t: int)
    requires UniqueLive(s.db.links) && Coherent(s)
    ensures Find(s.db.links, code).Some? ==> Coherent(State(s.db, Put(s.entries, code, Find(s.db.links, code).value, t)))
    ensures code in s.entries ==> Find(s.db.links, code) == Some(s.entries[code].link)
  {
    var found := Find(s.db.links, code);
    if found.Some? {
      var r := State(s.db, Put(s.entries, code, found.value, t));
      forall c | c in r.entries
        ensures exists id | id in r.db.links :: Live(r.db.links[id], c) && r.db.links[id] == r.entries[c].link
      {
        if c != code {
          var id :| id in s.db.links && Live(s.db.links[id], c) && s.db.links[id] == s.entries[c].link;
        }
      }
    }
  }

  lemma CountsCoherent(s: State, totals: map<string, int>, dailies: seq<DailyCount>, now: int)
    requires Coherent(s) && !("" in totals && totals[""] > 0 && "" in s.entries)
    ensures Coherent(State(ApplyCounts(s.db, totals, dailies, now), s.entries - set code | code in totals && code != ""))
  {
    hide ApplyDailies;
    var dropped := set code | code in totals && code != "";
    var r := State(ApplyCounts(s.db, totals, dailies, now), s.entries - dropped);
    CoherentKept(s, r);
  }

  lemma RewriteCoherent(s: State, code: string, f: Link -> Link)
    requires Coherent(s)
    ensures Coherent(State(s.db.(links := SetWhere(s.db.links, code, f)), s.entries - {code}))
  {
    CoherentKept(s, State(s.db.(links := SetWhere(s.db.links, code, f)), s.entries - {code}));
  }

  lemma RenameCoherent(s: State, o: string, n: string, at: int)
    requires Coherent(s) && Tables.Rename(s.db, o, n, at).1.Done?
    ensures Coherent(State(Tables.Rename(s.db, o, n, at).0, s.entries - {o} - {n}))
  {
    CoherentKept(s, State(Tables.Rename(s.db, o, n, at).0, s.entries - {o} - {n}));
  }

  /** One call: it answers and changes the tables as if there were no cache, and
      leaves a coherent cache behind. */
  lemma StepRefines(s: State, op: Op, t: int)
    requires Valid(s.db) && Coherent(s) && WellCalled(op)
    ensures Step(s, op, t).1 == Plain(s.db, op).1
    ensures Step(s, op, t).0.db == Plain(s.db, op).0
    ensures Valid(Step(s, op, t).0.db) && Coherent(Step(s, op, t).0)
  {
    hide Coherent, ApplyCounts, IdsBounded;
    PlainValid(s.db, op);
    match op {
      case Create(l) => if !HasLive(s.db.links, l.code) { InsertCoherent(s, l, t); }
      case CreateMany(ls) => CreateManyCoherent(s, ls, t);
      case Meta(code, title, description, at) => RewriteCoherent(s, code, WithMeta(title, description, at));
      case Get(code) => FillCoherent(s, code, t);
      case Update(l) => RewriteCoherent(s, l.code, Edited(l));
      case Rename(o, n, at) => if Tables.Rename(s.db, o, n, at).1.Done? { RenameCoherent(s, o, n, at); }
      case Delete(code, hard) => DeleteCoherent(s, code, hard);
      case DeleteMany(codes, hard) => DeleteManyCoherent(s, codes, hard);
      case CountExpired(_) =>
      case DeleteExpired(_, _) => NothingCached(Plain(s.db, op).0);
      case Counts(totals, dailies, now) => CountsCoherent(s, totals, dailies, now);
      case Invalidate => NothingCached(s.db);
    }
  }

  lemma NothingCached(db: Db)
    ensures Coherent(State(db, map[]))
  {
  }

  // ---- whole runs ----

  datatype Call = Call(op: Op, t: int)

  ghost function Cacheless(db: Db, calls: seq<Call>): (Db, seq<Out>)
    requires Valid(db)
    decreases |calls|
  {
    if calls == [] then (db, []) else
      PlainValid(db, calls[0].op);
      var (next, out) := Plain(db, calls[0].op);
      var (last, outs) := Cacheless(next, calls[1..]);
      (last, [out] + outs)
  }

  ghost function Cached(s: State, calls: seq<Call>): (State, seq<Out>)
    requires Valid(s.db)
    decreases |calls|
  {
    if calls == [] then (s, []) else
      PlainValid(s.db, calls[0].op);
      var (next, out) := Step(s, calls[0].op, calls[0].t);
      var (last, outs) := Cached(next, calls[1..]);
      (last, [out] + outs)
  }

  /** Every run of well-formed calls, at any clock readings: the cache never
      shows. Outputs and tables are those of the store without one. */
  lemma {:induction false} CacheNeverShows(s: State, calls: seq<Call>)
    requires Valid(s.db) && Coherent(s) && forall i | 0 <= i < |calls| :: WellCalled(calls[i].op)
    ensures var (r, outs) := Cached(s, calls);
      Coherent(r) && (r.db, outs) == Cacheless(s.db, calls)
    decreases |calls|
  {
    if calls != [] {
      hide Plain, Step, Coherent, Valid, WellCalled;
      assert WellCalled(calls[0].op);
      StepRefines(s, calls[0].op, calls[0].t);
      PlainValid(s.db, calls[0].op);
      CacheNeverShows(Step(s, calls[0].op, calls[0].t).0, calls[1..]);
    }
  }

  /** Exactly when a flush leaves the cache coherent: unless it adds clicks to a
      cached link whose code is empty, the one key the invalidation skips. */
  lemma CountsKeepCacheIff(s: State, totals: map<string, int>, dailies: seq<DailyCount>, now: int, t: int)
    requires Valid(s.db) && Coherent(s)
    ensures Coherent(Step(s, Counts(totals, dailies, now), t).0)
       <==> !("" in totals && totals[""] > 0 && "" in s.entries)
  {
    hide ApplyCounts, Coherent;
    if "" in totals && totals[""] > 0 && "" in s.entries {
      EmptyCodeStale(s, totals, dailies, now);
    } else {
      CountsCoherent(s, totals, dailies, now);
    }
  }

  lemma EmptyCodeStale(s: State, totals: map<string, int>, dailies: seq<DailyCount>, now: int)
    requires Valid(s.db) && Coherent(s) && "" in totals && totals[""] > 0 && "" in s.entries
    ensures !Coherent(State(ApplyCounts(s.db, totals, dailies, now), s.entries - set code | code in totals && code != ""))
  {
    hide ApplyDailies;
    var r := State(ApplyCounts(s.db, totals, dailies, now), s.entries - set code | code in totals && code != "");
    var id :| id in s.db.links && Live(s.db.links[id], "") && s.db.links[id] == s.entries[""].link;
    assert r.entries[""] == s.entries[""];
    forall j | j in r.db.links && Live(r.db.links[j], "") ensures r.db.links[j] != r.entries[""].link {
      assert Live(s.db.links[j], "") && j == id;
      assert r.db.links[id].clickCount > s.db.links[id].clickCount;
    }
  }

  /** Exactly when a successful create leaves the cache coherent. */
  lemma CreateKeepsCacheIff(s: State, l: Link, t: int)
    requires Valid(s.db) && Coherent(s) && !HasLive(s.db.links, l.code)
    ensures Coherent(Step(s, Create(l), t).0) <==> !l.deleted
  {
    var r := Step(s, Create(l), t).0;
    if l.deleted {
      assert r.entries[l.code].link.deleted;
    } else {
      InsertCoherent(s, l, t);
    }
  }
}
