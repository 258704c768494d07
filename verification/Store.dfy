/** The store and its cache as the objects they are: fields updated in place,
    rows handed around by pointer (internal/store/store.go, cache.go, counts.go, backups.go). */
module Store {
  import opened Tables
  import opened Counts
  import CS = CachedStore
  import MapSum

  /** What a *Link points to. */
  class LinkRef {
    var row: Link

    constructor (l: Link)
      ensures row == l
    {
      row := l;
    }
  }

  datatype Slot = Slot(link: LinkRef, expiresAt: int)

  class LinkCache {
    var m: map<string, Slot>

    constructor ()
      ensures m == map[]
    {
      m := map[];
    }

    ghost function Refs(): set<LinkRef>
      reads this
    {
      set code | code in m :: m[code].link
    }

    /** The cache as a value: the rows its pointers lead to. */
    ghost function View(): CS.Entries
      reads this, Refs()
    {
      map code | code in m :: CS.Entry(m[code].link.row, m[code].expiresAt)
    }

    /** Copy out: the caller gets a row of its own, or null on a miss. */
    method Lookup(code: string, t: int) returns (l: LinkRef?)
      ensures l == null <==> CS.Hit(View(), code, t).None?
      ensures l != null ==> fresh(l) && l !in Refs() && CS.Hit(View(), code, t) == Some(l.row)
    {
      if code !in m || t > m[code].expiresAt {
        return null;
      }
      l := new LinkRef(m[code].link.row);
    }

    /** Copy in: what is kept is a new row nobody else can reach. */
    method Put(code: string, l: LinkRef, t: int)
      modifies this
      ensures View() == CS.Put(old(View()), code, l.row, t)
      ensures fresh(Refs() - old(Refs()))
    {
      var cp := new LinkRef(l.row);
      m := m[code := Slot(cp, t + CS.TTL)];
    }

    method Del(code: string)
      modifies this
      ensures View() == old(View()) - {code}
      ensures Refs() <= old(Refs())
    {
      m := m - {code};
    }

    /** One fill for every row that got an id; ls are the rows before they got it. */
    method PutEach(links: seq<Link>, ids: seq<Option<nat>>, ghost ls: seq<Link>, t: int)
      requires |links| == |ids| == |ls|
      requires forall i | 0 <= i < |ls| && ids[i].Some? :: links[i] == ls[i].(id := ids[i].value)
      modifies this
      ensures View() == CS.PutAll(old(View()), ls, ids, t)
      ensures fresh(Refs() - old(Refs()))
    {
      assert ls[0..] == ls && ids[0..] == ids;
      for i := 0 to |links|
        invariant CS.PutAll(old(View()), ls, ids, t) == CS.PutAll(View(), ls[i..], ids[i..], t)
        invariant fresh(Refs() - old(Refs()))
      {
        if ids[i].Some? {
          var ref := new LinkRef(links[i]);
          Put(links[i].code, ref, t);
        }
        assert ls[i..][1..] == ls[i + 1..] && ids[i..][1..] == ids[i + 1..];
      }
      assert ls[|ls|..] == [];
    }

    /** One invalidation per code. */
    method DelEach(codes: seq<string>)
      modifies this
      ensures View() == old(View()) - set code | code in codes
      ensures Refs() <= old(Refs())
    {
      for i := 0 to |codes|
        invariant View() == old(View()) - set code | code in codes[..i]
        invariant Refs() <= old(Refs())
      {
        Del(codes[i]);
        assert codes[..i + 1] == codes[..i] + [codes[i]];
      }
      assert codes[..|codes|] == codes;
    }

    /** Invalidates the codes of a flush, in any order; the empty code is passed over. */
    method DelTotals(codes: set<string>)
      modifies this
      ensures View() == old(View()) - set code | code in codes && code != ""
      ensures Refs() <= old(Refs())
    {
      var left := codes;
      while left != {}
        invariant left <= codes
        invariant View() == old(View()) - set code | code in codes - left && code != ""
        invariant Refs() <= old(Refs())
        decreases left
      {
        var code :| code in left;
        left := left - {code};
        if code != "" {
          Del(code);
        }
      }
      assert codes - left == codes;
    }

    method Clear()
      modifies this
      ensures View() == map[] && Refs() == {}
    {
      m := map[];
    }
  }

  /** The first of the codes that has a live link, with its id. */
  function FirstLive(links: map<nat, Link>, codes: seq<string>): Option<(nat, string)>
    requires UniqueLive(links)
    decreases |codes|
  {
    if codes == [] then None else
      match Find(links, codes[0])
      case Some(l) => Some((l.id, codes[0]))
      case None => FirstLive(links, codes[1..])
  }

  lemma FirstLiveStep(db: Db, codes: seq<string>, hard: bool)
    requires UniqueLive(db.links) && codes != []
    ensures Delete(db, codes[0], hard).1.Done? <==> Find(db.links, codes[0]).Some?
    ensures Find(db.links, codes[0]).None? ==> Delete(db, codes[0], hard).0 == db
    ensures FirstLive(db.links, codes)
         == match Find(db.links, codes[0]) case Some(l) => Some((l.id, codes[0])) case None => FirstLive(db.links, codes[1..])
  {
  }

  lemma NoneLeft(links: map<nat, Link>)
    requires UniqueLive(links)
    ensures FirstLive(links, []) == None
  {
  }

  lemma CreateManyStep(db: Db, ls: seq<Link>)
    requires ls != []
    ensures var (next, status) := Create(db, ls[0]);
      CreateMany(db, ls) == (CreateMany(next, ls[1..]).0,
                             [if status.Done? then Some(next.lastId) else None] + CreateMany(next, ls[1..]).1)
  {
  }

  lemma NoneCreated(db: Db)
    ensures CreateMany(db, []) == (db, [])
  {
  }

  /** What a committed flush does, spelled out. */
  lemma CountsStep(s: CS.State, totals: map<string, int>, dailies: seq<DailyCount>, now: int, t: int)
    requires UniqueLive(s.db.links)
    ensures var links := ApplyTotals(s.db.links, totals, now);
      CS.Step(s, CS.Counts(totals, dailies, now), t).0
      == CS.State(s.db.(links := links, daily := ApplyDailies(links, s.db.daily, dailies)),
                  s.entries - set code | code in totals.Keys && code != "")
  {
    hide ApplyTotals, ApplyDailies;
    assert (set code | code in totals.Keys && code != "") == set code | code in totals && code != "";
  }

  lemma {:induction false} EarliestExists(links: map<nat, Link>, ids: set<nat>)
    requires ids != {} && ids <= links.Keys
    ensures exists id | id in ids :: forall j | j in ids :: links[id].expiresAt <= links[j].expiresAt
    decreases ids
  {
    var k :| k in ids;
    var rest := ids - {k};
    if rest == {} {
      assert ids == {k};
    } else {
      EarliestExists(links, rest);
      var m :| m in rest && forall j | j in rest :: links[m].expiresAt <= links[j].expiresAt;
      var best := if links[k].expiresAt <= links[m].expiresAt then k else m;
      assert forall j | j in ids :: j == k || j in rest;
      assert best in ids && forall j | j in ids :: links[best].expiresAt <= links[j].expiresAt;
    }
  }

  class LinkStore {
    var db: Db
    const cache: LinkCache

    constructor ()
      ensures db == EMPTY && cache.m == map[] && fresh(cache)
    {
      db := EMPTY;
      cache := new LinkCache();
    }

    ghost function Abs(): CS.State
      reads this, cache, cache.Refs()
    {
      CS.State(db, cache.View())
    }

    method CreateLink(l: LinkRef, t: int) returns (status: Status)
      requires Valid(db) && l !in cache.Refs()
      modifies `db, cache, l
      ensures (Abs(), CS.New(status, if status.Done? then l.row.id else 0)) == CS.Step(old(Abs()), CS.Create(old(l.row)), t)
      ensures l.row == if status.Done? then old(l.row).(id := db.lastId) else old(l.row)
      ensures fresh(cache.Refs() - old(cache.Refs())) && l !in cache.Refs()
    {
      if HasLive(db.links, l.row.code) {
        return Taken;
      }
      db := Insert(db, l.row);
      l.row := l.row.(id := db.lastId);
      cache.Put(l.row.code, l, t);
      return Done;
    }

    method UpdateMeta(code: string, title: string, description: string, at: int, t: int)
      requires Valid(db)
      modifies `db, cache
      ensures Abs() == CS.Step(old(Abs()), CS.Meta(code, title, description, at), t).0
      ensures cache.Refs() <= old(cache.Refs())
    {
      db := Tables.UpdateMeta(db, code, title, description, at);
      cache.Del(code);
    }

    /** The row returned is the caller's own: never one the cache holds. */
    method GetLink(code: string, t: int) returns (l: LinkRef?)
      requires Valid(db)
      modifies cache
      ensures (Abs(), CS.Row(if l == null then None else Some(l.row))) == CS.Step(old(Abs()), CS.Get(code), t)
      ensures l != null ==> fresh(l) && l !in cache.Refs()
      ensures fresh(cache.Refs() - old(cache.Refs()))
    {
      l := cache.Lookup(code, t);
      assert cache.Refs() == old(cache.Refs()) && cache.View() == old(cache.View());
      if l != null {
        return l;
      }
      var found := Find(db.links, code);
      if found.None? {
        return null;
      }
      l := new LinkRef(found.value);
      cache.Put(code, l, t);
    }

    method UpdateLink(l: LinkRef, t: int) returns (status: Status)
      requires Valid(db)
      modifies `db, cache
      ensures (Abs(), CS.Ack(status)) == CS.Step(old(Abs()), CS.Update(l.row), t)
      ensures cache.Refs() <= old(cache.Refs())
    {
      var (r, s) := Tables.Update(db, l.row);
      db, status := r, s;
      if status.NotFound? {
        return;
      }
      cache.Del(l.row.code);
    }

    method RenameLink(oldCode: string, newCode: string, at: int, t: int) returns (status: Status)
      requires Valid(db)
      modifies `db, cache
      ensures (Abs(), CS.Ack(status)) == CS.Step(old(Abs()), CS.Rename(oldCode, newCode, at), t)
      ensures cache.Refs() <= old(cache.Refs())
    {
      var (r, s) := Tables.Rename(db, oldCode, newCode, at);
      db, status := r, s;
      if !status.Done? {
        return;
      }
      cache.Del(oldCode);
      cache.Del(newCode);
    }

    method DeleteLink(code: string, hard: bool, t: int) returns (status: Status)
      requires Valid(db)
      modifies `db, cache
      ensures (Abs(), CS.Ack(status)) == CS.Step(old(Abs()), CS.Delete(code, hard), t)
      ensures cache.Refs() <= old(cache.Refs())
    {
      var (r, s) := Tables.Delete(db, code, hard);
      db, status := r, s;
      if status.NotFound? {
        return;
      }
      cache.Del(code);
    }

    /** `first` is a deleted link with the earliest expiry, for the log. */
    method DeleteExpired(now: int, hard: bool, t: int) returns (n: nat, first: Option<(nat, string)>)
      requires Valid(db)
      modifies `db, cache
      ensures (Abs(), CS.Number(n)) == CS.Step(old(Abs()), CS.DeleteExpired(now, hard), t)
      ensures first.Some? <==> n > 0
      ensures var links := old(db).links; var doomed := ExpiredIds(links, now);
        first.Some? ==>
          && first.value.0 in doomed && links[first.value.0].code == first.value.1
          && forall id | id in doomed :: links[first.value.0].expiresAt <= links[id].expiresAt
    {
      var doomed := ExpiredIds(db.links, now);
      first := None;
      if doomed != {} {
        EarliestExists(db.links, doomed);
        var id :| id in doomed && forall j | j in doomed :: db.links[id].expiresAt <= db.links[j].expiresAt;
        first := Some((id, db.links[id].code));
      }
      var (r, k) := Tables.DeleteExpired(db, now, hard);
      db, n := r, k;
      cache.Clear();
    }

    /** One DELETE per code in one transaction, then one invalidation per code;
        `first` is the first link that was there to delete, for the log. */
    method DeleteLinks(codes: seq<string>, hard: bool, t: int) returns (n: nat, first: Option<(nat, string)>)
      requires Valid(db)
      modifies `db, cache
      ensures (Abs(), CS.Number(n)) == CS.Step(old(Abs()), CS.DeleteMany(codes, hard), t)
      ensures first == FirstLive(old(db).links, codes)
      ensures first.Some? <==> n > 0
    {
      hide Delete, HasLive, Find, IdsBounded, FirstLive;
      ghost var before := db;
      var tx := db;
      n, first := 0, None;
      assert codes[0..] == codes;
      for i := 0 to |codes|
        invariant DeleteMany(before, codes, hard).0 == DeleteMany(tx, codes[i..], hard).0
        invariant DeleteMany(before, codes, hard).1 == n + DeleteMany(tx, codes[i..], hard).1
        invariant first.Some? <==> n > 0
        invariant first.None? ==> tx == before
        invariant FirstLive(before.links, codes) == if first.Some? then first else FirstLive(before.links, codes[i..])
        invariant db == before && cache.View() == old(cache.View())
      {
        assert codes[i..][1..] == codes[i + 1..];
        FirstLiveStep(before, codes[i..], hard);
        if first.None? {
          var found := Find(tx.links, codes[i]);
          if found.Some? { first := Some((found.value.id, codes[i])); }
        }
        var (next, status) := Delete(tx, codes[i], hard);
        tx := next;
        if status.Done? { n := n + 1; }
      }
      NoneLeft(before.links);
      assert codes[|codes|..] == [];
      db := tx;
      cache.DelEach(codes);
    }

    /** Inserts in one transaction; a taken code is skipped. The rows that got in
        receive their ids in place, and after the commit the cache takes copies of
        them. A failed transaction leaves tables and cache alone. */
    method CreateLinks(links: array<Link>, commits: bool, t: int) returns (ids: seq<Option<nat>>)
      requires Valid(db)
      modifies `db, cache, links
      ensures commits ==> (Abs(), CS.NewMany(ids)) == CS.Step(old(Abs()), CS.CreateMany(old(links[..])), t)
      ensures !commits ==> Abs() == old(Abs())
      ensures |ids| == links.Length
      ensures forall i | 0 <= i < links.Length ::
        links[i] == if ids[i].Some? then old(links[i]).(id := ids[i].value) else old(links[i])
    {
      ghost var ls := links[..];
      var tx;
      hide CreateMany;
      tx, ids := InsertEach(db, links);
      assert cache.View() == old(cache.View());
      if !commits {
        return;
      }
      db := tx;
      assert cache.View() == old(cache.View());
      cache.PutEach(links[..], ids, ls, t);
    }

    static method InsertEach(db: Db, links: array<Link>) returns (tx: Db, ids: seq<Option<nat>>)
      modifies links
      ensures (tx, ids) == CreateMany(db, old(links[..]))
      ensures forall i | 0 <= i < links.Length ::
        links[i] == if ids[i].Some? then old(links[i]).(id := ids[i].value) else old(links[i])
    {
      hide Create, HasLive, Insert, CreateMany;
      ghost var ls := links[..];
      assert ls[0..] == ls;
      tx, ids := db, [];
      for i := 0 to links.Length
        invariant |ids| == i
        invariant CreateMany(db, ls).0 == CreateMany(tx, ls[i..]).0
        invariant CreateMany(db, ls).1 == ids + CreateMany(tx, ls[i..]).1
        invariant forall k | 0 <= k < links.Length ::
          links[k] == if k < i && ids[k].Some? then ls[k].(id := ids[k].value) else ls[k]
      {
        var (next, status) := Create(tx, links[i]);
        CreateManyStep(tx, ls[i..]);
        assert ls[i..][0] == links[i] && ls[i..][1..] == ls[i + 1..];
        tx := next;
        if status.Done? {
          ids := ids + [Some(next.lastId)];
          links[i] := links[i].(id := next.lastId);
        } else {
          ids := ids + [None];
        }
      }
      assert ls[|ls|..] == [];
      NoneCreated(tx);
      assert ids + [] == ids;
    }

    /** The flush transaction, then the invalidations. A failed transaction rolls
        back and leaves tables and cache alone. */
    method ApplyCounts(totals: map<string, int>, dailies: seq<DailyCount>, now: int, commits: bool, t: int)
      requires Valid(db)
      modifies `db, cache
      ensures commits ==> Abs() == CS.Step(old(Abs()), CS.Counts(totals, dailies, now), t).0
      ensures !commits ==> Abs() == old(Abs())
    {
      hide ApplyTotals, ApplyDailies, HasLive, UniqueLive, IdsBounded, CS.Step;
      CountsStep(Abs(), totals, dailies, now, t);
      var links := AddTotals(db.links, totals, now);
      var daily := UpsertDailies(links, db.daily, dailies);
      if !commits {
        return;
      }
      db := db.(links := links, daily := daily);
      cache.DelTotals(totals.Keys);
    }

    /** One UPDATE per code. Go's map iteration takes the codes in any order;
        whichever it is, the outcome is the same. */
    static method AddTotals(links: map<nat, Link>, totals: map<string, int>, now: int) returns (r: map<nat, Link>)
      ensures r == ApplyTotals(links, totals, now)
    {
      r := links;
      var left := totals.Keys;
      while left != {}
        invariant left <= totals.Keys
        invariant r == ApplyTotals(links, totals - left, now)
        decreases left
      {
        var code :| code in left;
        TotalsStep(links, totals - left, code, totals[code], now);
        if totals[code] > 0 {
          r := AddTotal(r, code, totals[code], now);
        }
        assert totals - (left - {code}) == (totals - left)[code := totals[code]];
        left := left - {code};
      }
      assert totals - left == totals;
    }

    static method UpsertDailies(links: map<nat, Link>, daily: map<(nat, string), DailyRow>, ds: seq<DailyCount>)
      returns (r: map<(nat, string), DailyRow>)
      ensures r == ApplyDailies(links, daily, ds)
    {
      r := daily;
      for i := 0 to |ds|
        invariant ApplyDailies(links, daily, ds) == ApplyDailies(links, r, ds[i..])
      {
        assert ds[i..][1..] == ds[i + 1..];
        if ds[i].count > 0 {
          r := AddDaily(links, r, ds[i]);
        }
      }
    }

    /** Appends a snapshot under the next number; nothing else changes. */
    method BackupLink(l: LinkRef, at: int) returns (bid: nat)
      modifies `db
      ensures bid == MaxKey(old(db).backups.Keys) + 1
      ensures db == old(db).(backups := old(db).backups[bid := SnapshotOf(l.row, at)])
    {
      var last := 0;
      var left := db.backups.Keys;
      while left != {}
        invariant left <= db.backups.Keys && db == old(db)
        invariant forall k | k in db.backups && k !in left :: k <= last
        invariant last == 0 || last in db.backups.Keys
        decreases left
      {
        var k :| k in left;
        left := left - {k};
        if k > last { last := k; }
      }
      bid := last + 1;
      db := db.(backups := db.backups[bid := SnapshotOf(l.row, at)]);
    }

    method ClearBackups() returns (n: nat)
      modifies `db
      ensures n == |old(db).backups| && db == old(db).(backups := map[])
    {
      n := |db.backups|;
      db := db.(backups := map[]);
    }
  }
}
