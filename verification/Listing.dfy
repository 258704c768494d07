/** Reading links: the expiry filters, the sweep of expired links and the pages of
    the link list (internal/store/store.go, internal/api/redirect.go). */
module Listing {
  import opened Tables
  import World

  // ---- expired and active, everywhere the same ----

  /** The "active" filter of the list. */
  predicate Active(l: Link, now: int) { l.expiresAt == 0 || l.expiresAt >= now }

  ghost predicate LiveRow(db: Db, id: nat) { id in db.links && !db.links[id].deleted }

  /** In every reachable state and at every time: each live link is either active
      or expired; the redirect serves a code exactly if its link is active; and the
      sweep reports the expired links that the count announced, takes exactly
      those away, leaves every other row as it was and leaves none to count. */
  lemma ExpiryViewsAgree(actions: seq<World.Action>, now: int, hard: bool)
    ensures World.Inv(World.START)
    ensures var db := World.Run(World.START, actions).db;
      var (after, n) := DeleteExpired(db, now, hard);
      && (forall id | LiveRow(db, id) :: Active(db.links[id], now) <==> !Expired(db.links[id], now))
      && (forall id | LiveRow(db, id) :: World.Served(db, db.links[id].code, now) <==> Active(db.links[id], now))
      && n == CountExpired(db, now) && CountExpired(after, now) == 0
      && (forall id :: LiveRow(after, id) <==> LiveRow(db, id) && Active(db.links[id], now))
      && (forall id | LiveRow(after, id) :: after.links[id] == db.links[id])
      && |LiveSet(after.links)| == |LiveSet(db.links)| - n
  {
    hide World.Run;
    World.StartIsGood();
    var db := World.Run(World.START, actions).db;
    AdmissibleExpiry(db);
    SweepTakes(db, now, hard);
    forall id | LiveRow(db, id) ensures World.Served(db, db.links[id].code, now) <==> Active(db.links[id], now) {
      ServedRow(db, id, now);
    }
  }

  lemma AdmissibleExpiry(db: Db)
    requires World.RowsAdmissible(db)
    ensures forall id | id in db.links :: db.links[id].expiresAt >= 0
  {
    forall id | id in db.links ensures db.links[id].expiresAt >= 0 {
      assert World.Admissible(db.links[id]);
    }
  }

  lemma ServedRow(db: Db, id: nat, now: int)
    requires UniqueLive(db.links) && LiveRow(db, id) && db.links[id].expiresAt >= 0
    ensures World.Served(db, db.links[id].code, now) <==> Active(db.links[id], now)
  {
    assert Live(db.links[id], db.links[id].code);
  }

  lemma SweepTakes(db: Db, now: int, hard: bool)
    requires forall id | id in db.links :: db.links[id].expiresAt >= 0
    ensures var (after, n) := DeleteExpired(db, now, hard);
      && CountExpired(after, now) == 0
      && (forall id :: LiveRow(after, id) <==> LiveRow(db, id) && Active(db.links[id], now))
      && (forall id | LiveRow(after, id) :: after.links[id] == db.links[id])
      && |LiveSet(after.links)| == |LiveSet(db.links)| - n
  {
    hide DeleteWhere;
    var after := DeleteExpired(db, now, hard).0;
    var doomed := ExpiredIds(db.links, now);
    SweptRows(db.links, doomed, hard);
    SweptParts(db.links, after.links, now);
    forall id ensures LiveRow(after, id) <==> LiveRow(db, id) && Active(db.links[id], now) {
      assert id in LiveSet(after.links) <==> id in LiveSet(db.links) && id !in doomed;
    }
    forall id | LiveRow(after, id) ensures after.links[id] == db.links[id] {
      assert id in LiveSet(after.links);
    }
  }

  lemma SweptParts(links: map<nat, Link>, after: map<nat, Link>, now: int)
    requires LiveSet(after) == LiveSet(links) - ExpiredIds(links, now)
    requires forall id | id in LiveSet(after) :: after[id] == links[id]
    ensures ExpiredIds(after, now) == {}
    ensures |LiveSet(after)| == |LiveSet(links)| - |ExpiredIds(links, now)|
  {
    assert forall id | id in ExpiredIds(after, now) :: id in LiveSet(after);
    assert ExpiredIds(links, now) <= LiveSet(links);
    assert LiveSet(links) == LiveSet(after) + ExpiredIds(links, now);
  }

  lemma SweptRows(links: map<nat, Link>, doomed: set<nat>, hard: bool)
    ensures var after := DeleteWhere(links, doomed, hard);
      && LiveSet(after) == LiveSet(links) - doomed
      && forall id | id in LiveSet(after) :: after[id] == links[id]
  {
  }

  // ---- the sorted list ----

  datatype Column = CreatedAt | Clicks | Code

  datatype Filter = All | OnlyExpired | OnlyActive

  /** What the list is asked for; `found` is the text search. */
  datatype Options = Options(found: Link -> bool, column: Column, ascending: bool, filter: Filter, now: int)

  predicate Selected(l: Link, o: Options) {
    && !l.deleted && o.found(l)
    && (o.filter.OnlyExpired? ==> Expired(l, o.now))
    && (o.filter.OnlyActive? ==> Active(l, o.now))
  }

  /** Text order of SQLite's BINARY collation. */
  predicate Less(a: string, b: string) {
    b != "" && (a == "" || a[0] < b[0] || (a[0] == b[0] && Less(a[1..], b[1..])))
  }

  predicate KeyLess(a: Link, b: Link, c: Column) {
    match c
    case CreatedAt => a.createdAt < b.createdAt
    case Clicks => a.clickCount < b.clickCount
    case Code => Less(a.code, b.code)
  }

  /** ORDER BY column, rowid, both in the one direction. */
  predicate Before(a: Link, b: Link, o: Options) {
    var (x, y) := if o.ascending then (a, b) else (b, a);
    KeyLess(x, y, o.column) || (!KeyLess(y, x, o.column) && x.id < y.id)
  }

  lemma {:induction false} LessOrder(a: string, b: string, c: string)
    ensures !(Less(a, b) && Less(b, a))
    ensures Less(a, b) && Less(b, c) ==> Less(a, c)
    ensures !Less(a, b) && !Less(b, a) ==> a == b
    decreases |a| + |b| + |c|
  {
    if a != "" && b != "" {
      if c != "" {
        LessOrder(a[1..], b[1..], c[1..]);
      } else {
        LessOrder(a[1..], b[1..], c);
      }
      assert a == [a[0]] + a[1..] && b == [b[0]] + b[1..];
    }
  }

  /** A strict order that decides between any two rows with different ids. */
  lemma BeforeOrder(a: Link, b: Link, c: Link, o: Options)
    ensures !(Before(a, b, o) && Before(b, a, o))
    ensures Before(a, b, o) && Before(b, c, o) ==> Before(a, c, o)
    ensures a.id != b.id ==> Before(a, b, o) || Before(b, a, o)
  {
    hide Less;
    LessOrder(a.code, b.code, c.code);
    LessOrder(c.code, b.code, a.code);
    LessOrder(b.code, a.code, c.code);
    LessOrder(b.code, c.code, a.code);
    LessOrder(c.code, a.code, b.code);
    LessOrder(a.code, c.code, b.code);
  }

  /** The comparison is that of the dictionary: what comes first is the first
      difference, or else the end. */
  lemma {:induction false} LessIs(p: string, a: string, b: string)
    requires a != "" || b != ""
    requires a != "" && b != "" ==> a[0] != b[0]
    ensures Less(p + a, p + b) <==> a == "" || (b != "" && a[0] < b[0])
    decreases p
  {
    if p == "" {
      assert p + a == a && p + b == b;
    } else {
      assert (p + a)[0] == (p + b)[0] == p[0] && (p + a)[1..] == p[1..] + a && (p + b)[1..] == p[1..] + b;
      LessIs(p[1..], a, b);
    }
  }

  ghost predicate Ordered(rows: seq<Link>, o: Options) {
    forall i, j | 0 <= i < j < |rows| :: Before(rows[i], rows[j], o)
  }

  /** The full result of the query: the selected rows, each once, in order. */
  ghost predicate IsListing(db: Db, o: Options, rows: seq<Link>) {
    && Ordered(rows, o)
    && forall l :: l in rows <==> exists id | id in db.links :: db.links[id] == l && Selected(l, o)
  }

  /** The order leaves the query only one result, so pages asked for one by one
      are pages of the same list. */
  lemma {:induction false} OrderedIsUnique(xs: seq<Link>, ys: seq<Link>, o: Options)
    requires Ordered(xs, o) && Ordered(ys, o) && forall l :: l in xs <==> l in ys
    ensures xs == ys
    decreases |xs|
  {
    hide Before;
    if xs + ys != [] {
      var any := (xs + ys)[0];
      assert any in xs && any in ys;
      assert xs[0] in ys;
      var j :| 0 <= j < |ys| && ys[j] == xs[0];
      assert ys[0] in xs;
      var i :| 0 <= i < |xs| && xs[i] == ys[0];
      BeforeOrder(xs[0], ys[0], xs[0], o);
      assert xs[0] == ys[0];
      forall l ensures l in xs[1..] <==> l in ys[1..] {
        TailOf(xs, l, o);
        TailOf(ys, l, o);
      }
      OrderedIsUnique(xs[1..], ys[1..], o);
      assert xs == [xs[0]] + xs[1..] && ys == [ys[0]] + ys[1..];
    }
  }

  lemma TailOf(xs: seq<Link>, l: Link, o: Options)
    requires xs != [] && Ordered(xs, o)
    ensures l in xs[1..] <==> l in xs && l != xs[0]
  {
    hide Before;
    assert xs == [xs[0]] + xs[1..];
    if l in xs[1..] {
      var k :| 0 <= k < |xs| - 1 && xs[1..][k] == l;
      assert Before(xs[0], xs[k + 1], o);
      BeforeOrder(l, l, l, o);
      assert !Before(l, l, o);
    }
  }

  lemma ListingIsUnique(db: Db, o: Options, xs: seq<Link>, ys: seq<Link>)
    requires IsListing(db, o, xs) && IsListing(db, o, ys)
    ensures xs == ys
  {
    hide Ordered, Selected;
    OrderedIsUnique(xs, ys, o);
  }

  /** Along the list the chosen column rises, or falls, and among equals the id does. */
  lemma ListingRises(db: Db, o: Options, rows: seq<Link>, i: nat, j: nat)
    requires IsListing(db, o, rows) && i < j < |rows|
    ensures var (x, y) := if o.ascending then (rows[i], rows[j]) else (rows[j], rows[i]);
      match o.column
      case CreatedAt => x.createdAt < y.createdAt || (x.createdAt == y.createdAt && x.id < y.id)
      case Clicks => x.clickCount < y.clickCount || (x.clickCount == y.clickCount && x.id < y.id)
      case Code => Less(x.code, y.code) || (x.code == y.code && x.id < y.id)
  {
    var (x, y) := if o.ascending then (rows[i], rows[j]) else (rows[j], rows[i]);
    assert Before(rows[i], rows[j], o);
    LessOrder(x.code, y.code, "");
  }

  /** What each filter lists: of the live links the search finds, all, the expired, or
      the active ones; the last two never share one and together are all. */
  lemma FiltersSplit(db: Db, o: Options)
    requires forall id | id in db.links :: db.links[id].expiresAt >= 0
    ensures var all := SelectedIds(db, o.(filter := All));
      var expired := SelectedIds(db, o.(filter := OnlyExpired));
      var active := SelectedIds(db, o.(filter := OnlyActive));
      && (forall id :: id in all <==> id in db.links && !db.links[id].deleted && o.found(db.links[id]))
      && (forall id :: id in expired <==> id in all && 0 < db.links[id].expiresAt < o.now)
      && all == expired + active && expired * active == {}
      && ((forall l :: o.found(l)) ==> |expired| == CountExpired(db, o.now))
  {
    if forall l :: o.found(l) {
      assert SelectedIds(db, o.(filter := OnlyExpired)) == ExpiredIds(db.links, o.now);
    }
  }

  /** Page sizes from 1 to 100 are taken as asked, anything less means 20, more means
      100; page numbers below 1 mean the first. */
  lemma PageRules(rows: seq<Link>, page: int, asked: int)
    ensures 1 <= PageSize(asked) <= 100
    ensures PageSize(asked) == if 1 <= asked <= 100 then asked else if asked < 1 then 20 else 100
    ensures page < 1 ==> Page(rows, page, asked) == Page(rows, 1, asked)
  {
  }

  /** And there is always one: row after row is put in its place. */
  lemma ListingExists(db: Db, o: Options) returns (rows: seq<Link>)
    requires IdsBounded(db)
    ensures IsListing(db, o, rows)
  {
    hide Selected;
    rows := SortedRows(db, SelectedIds(db, o), o);
    forall l ensures l in rows <==> exists id | id in db.links :: db.links[id] == l && Selected(l, o) {
      if l in rows {
        var id :| id in SelectedIds(db, o) && db.links[id] == l;
      }
      if id :| id in db.links && db.links[id] == l && Selected(l, o) {
        assert id in SelectedIds(db, o);
      }
    }
  }

  lemma {:induction false} SortedRows(db: Db, ids: set<nat>, o: Options) returns (rows: seq<Link>)
    requires IdsBounded(db) && ids <= db.links.Keys
    ensures Ordered(rows, o)
    ensures forall l :: l in rows <==> exists id | id in ids :: db.links[id] == l
    decreases ids
  {
    hide Ordered, Before;
    if ids == {} {
      rows := [];
      NothingOrdered(o);
    } else {
      var k :| k in ids;
      var rest := SortedRows(db, ids - {k}, o);
      var l := db.links[k];
      forall m | m in rest ensures m.id != l.id {
        var id :| id in ids - {k} && db.links[id] == m;
      }
      rows := PutInOrder(rest, l, o);
      forall m ensures m in rows <==> exists id | id in ids :: db.links[id] == m {
        if id :| id in ids && db.links[id] == m {
          assert id == k || id in ids - {k};
        }
      }
    }
  }

  lemma NothingOrdered(o: Options)
    ensures Ordered([], o)
  {
  }

  lemma {:induction false} PutInOrder(rows: seq<Link>, l: Link, o: Options) returns (r: seq<Link>)
    requires Ordered(rows, o) && forall m | m in rows :: m.id != l.id
    ensures Ordered(r, o) && forall m :: m in r <==> m == l || m in rows
    decreases |rows|
  {
    hide Before;
    if rows == [] {
      r := [l];
    } else {
      var head, tail := rows[0], rows[1..];
      assert rows == [head] + tail;
      BeforeOrder(l, head, head, o);
      if Before(l, head, o) {
        r := [l] + rows;
        forall i | 0 <= i < |rows| ensures Before(l, rows[i], o) {
          if i > 0 { BeforeOrder(l, head, rows[i], o); }
        }
      } else {
        var rest := PutInOrder(tail, l, o);
        r := [head] + rest;
        forall i | 0 <= i < |rest| ensures Before(head, rest[i], o) {
          assert rest[i] in rest;
          if rest[i] != l {
            var j :| 0 <= j < |tail| && tail[j] == rest[i];
            assert Before(rows[0], rows[j + 1], o);
          }
        }
      }
    }
  }

  // ---- its pages ----

  function PageSize(asked: int): nat {
    if asked < 1 then 20 else if asked > 100 then 100 else asked
  }

  function Min(a: int, b: int): int { if a < b then a else b }

  /** LIMIT size OFFSET (page - 1) * size; page numbers below 1 mean the first. */
  function Page(rows: seq<Link>, page: int, asked: int): seq<Link> {
    var size := PageSize(asked);
    var from := Offset(if page < 1 then 1 else page, size);
    rows[Min(from, |rows|)..Min(from + size, |rows|)]
  }

  function Offset(page: nat, size: nat): nat
    requires page > 0
  {
    (page - 1) * size
  }

  function FirstPages(rows: seq<Link>, n: nat, asked: int): seq<Link> {
    if n == 0 then [] else FirstPages(rows, n - 1, asked) + Page(rows, n, asked)
  }

  lemma {:induction false} FirstPagesAre(rows: seq<Link>, n: nat, asked: int)
    ensures FirstPages(rows, n, asked) == rows[..Min(Offset(n + 1, PageSize(asked)), |rows|)]
  {
    if n > 0 {
      FirstPagesAre(rows, n - 1, asked);
      NextOffset(n, PageSize(asked));
      var a, b := Min(Offset(n, PageSize(asked)), |rows|), Min(Offset(n + 1, PageSize(asked)), |rows|);
      assert rows[..a] + rows[a..b] == rows[..b];
    } else {
      assert Offset(1, PageSize(asked)) == 0;
    }
  }

  lemma NextOffset(page: nat, size: nat)
    requires page > 0
    ensures Offset(page + 1, size) == Offset(page, size) + size
  {
  }

  /** SELECT COUNT(*) under the same conditions. */
  function SelectedIds(db: Db, o: Options): set<nat> {
    set id | id in db.links && Selected(db.links[id], o)
  }

  /** What one request for a page answers: the page and the total. */
  function ListLinks(db: Db, rows: seq<Link>, o: Options, page: int, asked: int): (seq<Link>, nat) {
    (Page(rows, page, asked), |SelectedIds(db, o)|)
  }

  /** For the rows of the query, page after page of the answers put together is the
      whole list, each selected link once and in order; every answer reports as total
      the number of rows there are; no page is longer than the size, a page that is
      not the last is full, and past the last page there is nothing. */
  lemma PagesTile(db: Db, o: Options, rows: seq<Link>, asked: int, n: nat)
    requires IdsBounded(db) && IsListing(db, o, rows)
    requires Offset(n + 1, PageSize(asked)) >= ListLinks(db, rows, o, 1, asked).1
    ensures FirstPages(rows, n, asked) == rows
    ensures forall p: int :: ListLinks(db, rows, o, p, asked).1 == |rows|
    ensures forall p: int :: |ListLinks(db, rows, o, p, asked).0| <= PageSize(asked)
    ensures forall p: nat | p > 0 && Offset(p + 1, PageSize(asked)) <= |rows| :: |ListLinks(db, rows, o, p, asked).0| == PageSize(asked)
    ensures ListLinks(db, rows, o, n + 1, asked).0 == []
  {
    TotalIsLength(db, o, rows);
    FirstPagesAre(rows, n, asked);
    forall p: nat | p > 0 && Offset(p + 1, PageSize(asked)) <= |rows| ensures |Page(rows, p, asked)| == PageSize(asked) {
      NextOffset(p, PageSize(asked));
    }
  }

  lemma TotalIsLength(db: Db, o: Options, rows: seq<Link>)
    requires IdsBounded(db) && IsListing(db, o, rows)
    ensures |SelectedIds(db, o)| == |rows|
  {
    hide Before, Selected;
    forall i, j | 0 <= i < j < |rows| ensures rows[i].id != rows[j].id {
      assert rows[i] in rows && rows[j] in rows;
      BeforeOrder(rows[i], rows[j], rows[i], o);
    }
    DistinctIds(rows);
    forall id ensures id in (set l | l in rows :: l.id) <==> id in SelectedIds(db, o) {
      if id in SelectedIds(db, o) {
        assert db.links[id] in rows && db.links[id].id == id;
      }
    }
    assert (set l | l in rows :: l.id) == SelectedIds(db, o);
  }

  lemma {:induction false} DistinctIds(rows: seq<Link>)
    requires forall i, j | 0 <= i < j < |rows| :: rows[i].id != rows[j].id
    ensures |set l | l in rows :: l.id| == |rows|
  {
    if rows != [] {
      var n := |rows| - 1;
      DistinctIds(rows[..n]);
      assert rows == rows[..n] + [rows[n]];
      assert (set l | l in rows :: l.id) == (set l | l in rows[..n] :: l.id) + {rows[n].id};
    }
  }
}
