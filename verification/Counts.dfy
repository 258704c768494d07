/** What a flush does to the tables (internal/store/counts.go), and the keys it decodes. */
module Counts {
  import opened MapSum
  import opened CounterKeys
  import opened Tables

  /** Every positive total lands on the live row of its code. */
  function ApplyTotals(links: map<nat, Link>, totals: map<string, int>, now: int): map<nat, Link> {
    map id | id in links ::
      var row := links[id];
      if !row.deleted && Get(totals, row.code) > 0
      then row.(clickCount := row.clickCount + totals[row.code], updatedAt := now) else row
  }

  /** One upsert after another, in list order. */
  function ApplyDailies(links: map<nat, Link>, daily: map<(nat, string), DailyRow>, ds: seq<DailyCount>): map<(nat, string), DailyRow>
    decreases |ds|
  {
    if ds == [] then daily else
      ApplyDailies(links, if ds[0].count <= 0 then daily else AddDaily(links, daily, ds[0]), ds[1..])
  }

  function ApplyCounts(db: Db, totals: map<string, int>, ds: seq<DailyCount>, now: int): Db {
    var links := ApplyTotals(db.links, totals, now);
    db.(links := links, daily := ApplyDailies(links, db.daily, ds))
  }

  lemma TotalsStep(links: map<nat, Link>, m: map<string, int>, code: string, n: int, now: int)
    requires code !in m
    ensures ApplyTotals(links, m[code := n], now)
         == if n > 0 then AddTotal(ApplyTotals(links, m, now), code, n, now) else ApplyTotals(links, m, now)
  {
  }

  // ---- the order of the dailies does not matter ----

  lemma AddDailyCommutes(links: map<nat, Link>, daily: map<(nat, string), DailyRow>, a: DailyCount, b: DailyCount)
    ensures AddDaily(links, AddDaily(links, daily, a), b) == AddDaily(links, AddDaily(links, daily, b), a)
  {
    var da, db := AddDaily(links, daily, a), AddDaily(links, daily, b);
    var x, y := AddDaily(links, da, b), AddDaily(links, db, a);
    forall k ensures k in x <==> k in y {
      AddDailyAt(links, daily, a, k);
      AddDailyAt(links, da, b, k);
      AddDailyAt(links, daily, b, k);
      AddDailyAt(links, db, a, k);
    }
    forall k | k in x ensures x[k] == y[k] {
      AddDailyAt(links, daily, a, k);
      AddDailyAt(links, da, b, k);
      AddDailyAt(links, daily, b, k);
      AddDailyAt(links, db, a, k);
    }
  }

  predicate Hits(links: map<nat, Link>, d: DailyCount, k: (nat, string)) {
    k.0 in links && Live(links[k.0], d.code) && k.1 == d.date
  }

  /** An upsert seen at one primary key. */
  lemma AddDailyAt(links: map<nat, Link>, daily: map<(nat, string), DailyRow>, d: DailyCount, k: (nat, string))
    ensures var r := AddDaily(links, daily, d);
      && (k in r <==> k in daily || Hits(links, d, k))
      && (k in r ==> r[k] == (if !Hits(links, d, k) then daily[k]
                              else if k in daily then DailyRow(daily[k].code, daily[k].count + d.count)
                              else DailyRow(links[k.0].code, d.count)))
  {
    assert k in DailyKeys(links, d.code, d.date) <==> Hits(links, d, k);
  }

  /** Pulling one item to the front of the list changes nothing. */
  lemma {:induction false} DailiesPull(links: map<nat, Link>, daily: map<(nat, string), DailyRow>, ds: seq<DailyCount>, j: nat)
    requires j < |ds|
    decreases |ds|
    ensures ApplyDailies(links, daily, ds) == ApplyDailies(links, daily, [ds[j]] + ds[..j] + ds[j + 1..])
  {
    hide AddDaily;
    var pulled := [ds[j]] + ds[..j] + ds[j + 1..];
    if j == 0 {
      assert pulled == ds;
    } else {
      var after := d => if ds[0].count <= 0 then d else AddDaily(links, d, ds[0]);
      DailiesPull(links, after(daily), ds[1..], j - 1);
      var tail := [ds[j]] + ds[1..j] + ds[j + 1..];
      assert [ds[1..][j - 1]] + ds[1..][..j - 1] + ds[1..][j..] == tail;
      AddDailyCommutes(links, daily, ds[0], ds[j]);
      assert tail[1..] == ds[1..j] + ds[j + 1..];
      assert pulled[1..] == ds[..j] + ds[j + 1..];
      assert pulled[1..][0] == ds[0] && pulled[1..][1..] == ds[1..j] + ds[j + 1..];
    }
  }

  /** Go's map iteration order never shows: any two orders of the same daily
      counts, repetitions included, leave the same table. */
  lemma {:induction false} DailiesAnyOrder(links: map<nat, Link>, daily: map<(nat, string), DailyRow>, xs: seq<DailyCount>, ys: seq<DailyCount>)
    requires multiset(xs) == multiset(ys)
    ensures ApplyDailies(links, daily, xs) == ApplyDailies(links, daily, ys)
    decreases |xs|
  {
    if xs == [] {
      assert |multiset(xs)| == |ys|;
    } else {
      var j := HeadIn(xs, ys);
      DailiesPull(links, daily, ys, j);
      DailiesAnyOrder(links, if xs[0].count <= 0 then daily else AddDaily(links, daily, xs[0]), xs[1..], ys[..j] + ys[j + 1..]);
      assert ([ys[j]] + ys[..j] + ys[j + 1..])[1..] == ys[..j] + ys[j + 1..];
    }
  }

  /** Where the head of a list stands in a permutation of it. */
  lemma HeadIn<T>(xs: seq<T>, ys: seq<T>) returns (j: nat)
    requires xs != [] && multiset(xs) == multiset(ys)
    ensures j < |ys| && ys[j] == xs[0]
    ensures multiset(xs[1..]) == multiset(ys[..j] + ys[j + 1..])
  {
    j := Where(ys, xs[0]);
    Without(xs, 0);
    assert xs[..0] + xs[1..] == xs[1..];
    Without(ys, j);
  }

  lemma Where<T>(s: seq<T>, x: T) returns (j: nat)
    requires x in multiset(s)
    ensures j < |s| && s[j] == x
  {
    j :| 0 <= j < |s| && s[j] == x;
  }

  lemma Without<T>(s: seq<T>, j: nat)
    requires j < |s|
    ensures multiset(s[..j] + s[j + 1..]) == multiset(s) - multiset{s[j]}
  {
    var a, b := s[..j], s[j + 1..];
    assert s == a + [s[j]] + b;
    assert multiset(s) == multiset(a) + multiset{s[j]} + multiset(b);
  }

  // ---- the closed form of a flush ----

  /** The counters read as a ledger of decoded keys; non-positive values are skipped. */
  function Decode(vals: map<string, int>): map<Key, int>
    requires forall s | s in vals :: Prefixed(s)
  {
    DecodeInjective(vals);
    map s | s in vals && vals[s] > 0 :: ParseKey(s) := vals[s]
  }

  lemma DecodeInjective(vals: map<string, int>)
    requires forall s | s in vals :: Prefixed(s)
    ensures forall s, t | s in vals && t in vals && ParseKey(s) == ParseKey(t) :: s == t
  {
    forall s | s in vals ensures Print(ParseKey(s)) == s {
      ParsedKeysPrintBack(s);
    }
  }

  function Totals(m: map<Key, int>): map<string, int> {
    map k | k in m && k.Total? :: k.code := m[k]
  }

  /** The (id, date) rows a ledger of decoded keys reaches. */
  function Reached(links: map<nat, Link>, m: map<Key, int>): set<(nat, string)> {
    set id, k | id in links && k in m && k.Daily? && Live(links[id], k.code) :: (id, k.date)
  }

  function ApplyLedger(links: map<nat, Link>, daily: map<(nat, string), DailyRow>, m: map<Key, int>): map<(nat, string), DailyRow> {
    map p | p in daily.Keys + Reached(links, m) ::
      if p !in Reached(links, m) then daily[p]
      else
        var n := m[Daily(links[p.0].code, p.1)];
        if p in daily then daily[p].(count := daily[p].count + n) else DailyRow(links[p.0].code, n)
  }

  /** The tables after one whole flush of the decoded counters m. */
  function FlushDb(db: Db, m: map<Key, int>, now: int): Db {
    db.(links := ApplyTotals(db.links, Totals(m), now), daily := ApplyLedger(db.links, db.daily, m))
  }

  lemma LedgerStep(links: map<nat, Link>, daily: map<(nat, string), DailyRow>, m: map<Key, int>, code: string, date: string, n: int)
    requires Daily(code, date) !in m
    ensures ApplyLedger(links, daily, m[Daily(code, date) := n])
         == AddDaily(links, ApplyLedger(links, daily, m), DailyCount(code, date, n))
  {
    hide ApplyLedger, AddDaily;
    var d, m' := DailyCount(code, date, n), m[Daily(code, date) := n];
    var was := ApplyLedger(links, daily, m);
    var lhs, rhs := ApplyLedger(links, daily, m'), AddDaily(links, was, d);
    forall p: (nat, string)
      ensures p in lhs <==> p in rhs
      ensures p in lhs ==> lhs[p] == rhs[p]
    {
      LedgerAt(links, daily, m, p.0, p.1);
      LedgerAt(links, daily, m', p.0, p.1);
      AddDailyAt(links, was, d, p);
    }
    assert lhs.Keys == rhs.Keys;
  }

  /** A ledger without daily keys reaches no row. */
  lemma LedgerIdle(links: map<nat, Link>, daily: map<(nat, string), DailyRow>, m: map<Key, int>)
    requires forall k | k in m :: k.Total?
    ensures ApplyLedger(links, daily, m) == daily
  {
    assert Reached(links, m) == {};
  }

  /** Adding counts leaves codes and deletion flags alone, so it reaches the same rows. */
  lemma {:induction false} DailiesIgnoreTotals(links: map<nat, Link>, totals: map<string, int>, now: int, daily: map<(nat, string), DailyRow>, ds: seq<DailyCount>)
    ensures ApplyDailies(ApplyTotals(links, totals, now), daily, ds) == ApplyDailies(links, daily, ds)
    decreases |ds|
  {
    if ds != [] {
      var links' := ApplyTotals(links, totals, now);
      assert forall id | id in links :: Live(links'[id], ds[0].code) <==> Live(links[id], ds[0].code);
      assert DailyKeys(links', ds[0].code, ds[0].date) == DailyKeys(links, ds[0].code, ds[0].date);
      DailiesIgnoreTotals(links, totals, now, if ds[0].count <= 0 then daily else AddDaily(links, daily, ds[0]), ds[1..]);
    }
  }

  // ---- what a flush adds up to ----

  /** The daily counts of one link id, by date. */
  function DatesOf(daily: map<(nat, string), DailyRow>, id: nat): map<string, int> {
    map k | k in daily && k.0 == id :: k.1 := daily[k].count
  }

  /** The daily counters of one code, by date. */
  function DatesFor(m: map<Key, int>, code: string): map<string, int> {
    map k | k in m && k.Daily? && k.code == code :: k.date := m[k]
  }

  /** A flushed table seen at one primary key. */
  lemma LedgerAt(links: map<nat, Link>, daily: map<(nat, string), DailyRow>, m: map<Key, int>, id: nat, date: string)
    ensures var r := ApplyLedger(links, daily, m);
      var hit := id in links && !links[id].deleted && Daily(links[id].code, date) in m;
      var was := if (id, date) in daily then daily[(id, date)].count else 0;
      && ((id, date) in r <==> (id, date) in daily || hit)
      && ((id, date) in r ==> r[(id, date)].count == was + if hit then m[Daily(links[id].code, date)] else 0)
      && ((id, date) in r ==> r[(id, date)].code == if (id, date) in daily then daily[(id, date)].code else links[id].code)
  {
    if id in links && !links[id].deleted && Daily(links[id].code, date) in m {
      assert Live(links[id], Daily(links[id].code, date).code);
      assert (id, date) in Reached(links, m);
    }
  }

  lemma DatesAt(daily: map<(nat, string), DailyRow>, id: nat, date: string)
    ensures date in DatesOf(daily, id) <==> (id, date) in daily
    ensures date in DatesOf(daily, id) ==> DatesOf(daily, id)[date] == daily[(id, date)].count
  {
    if (id, date) in daily {
      assert (id, date).0 == id;
    }
  }

  lemma DatesForAt(m: map<Key, int>, code: string, date: string)
    ensures date in DatesFor(m, code) <==> Daily(code, date) in m
    ensures date in DatesFor(m, code) ==> DatesFor(m, code)[date] == m[Daily(code, date)]
  {
    if Daily(code, date) in m {
      assert Daily(code, date).date == date;
    }
  }

  /** Writing one counter changes the dates of its own code only. */
  lemma DatesForPut(m: map<Key, int>, k: Key, v: int, code: string)
    ensures DatesFor(m[k := v], code)
         == if k.Daily? && k.code == code then DatesFor(m, code)[k.date := v] else DatesFor(m, code)
  {
    var after := DatesFor(m[k := v], code);
    var want := if k.Daily? && k.code == code then DatesFor(m, code)[k.date := v] else DatesFor(m, code);
    forall date
      ensures date in after <==> date in want
      ensures date in after ==> after[date] == want[date]
    {
      DatesForAt(m, code, date);
      DatesForAt(m[k := v], code, date);
    }
    assert after.Keys == want.Keys;
  }

  lemma TotalsAt(m: map<Key, int>, code: string)
    ensures code in Totals(m) <==> Total(code) in m
    ensures Get(Totals(m), code) == Get(m, Total(code))
  {
    if Total(code) in m {
      assert Total(code).code == code;
    }
  }

  /** A counter is decoded when its key is its own decoding printed back. */
  lemma DecodeAt(vals: map<string, int>, j: Key)
    requires forall t | t in vals :: Prefixed(t)
    ensures j in Decode(vals) <==> Print(j) in vals && vals[Print(j)] > 0 && ParseKey(Print(j)) == j
    ensures j in Decode(vals) ==> Decode(vals)[j] == vals[Print(j)]
  {
    hide ParseKey, Print, Prefixed;
    DecodeInjective(vals);
    if j in Decode(vals) {
      var t :| t in vals && vals[t] > 0 && ParseKey(t) == j;
      ParsedKeysPrintBack(t);
    }
    if Print(j) in vals && vals[Print(j)] > 0 {
      assert ParseKey(Print(j)) in Decode(vals);
    }
  }

  /** A flush adds the daily counters of a live row's code to its dates, and touches no other row. */
  lemma FlushedDates(links: map<nat, Link>, daily: map<(nat, string), DailyRow>, m: map<Key, int>, id: nat)
    ensures DatesOf(ApplyLedger(links, daily, m), id)
         == if id in links && !links[id].deleted then Add(DatesOf(daily, id), DatesFor(m, links[id].code)) else DatesOf(daily, id)
  {
    hide ApplyLedger, DatesOf, DatesFor;
    var after := DatesOf(ApplyLedger(links, daily, m), id);
    var live := id in links && !links[id].deleted;
    var want := if live then Add(DatesOf(daily, id), DatesFor(m, links[id].code)) else DatesOf(daily, id);
    forall date
      ensures date in after <==> date in want
      ensures date in after ==> after[date] == want[date]
    {
      LedgerAt(links, daily, m, id, date);
      DatesAt(daily, id, date);
      DatesAt(ApplyLedger(links, daily, m), id, date);
      if live { DatesForAt(m, links[id].code, date); }
    }
    assert after.Keys == want.Keys;
  }

  /** Every count of daily_clicks: what StatsOverview sums. */
  function AllCounts(daily: map<(nat, string), DailyRow>): map<(nat, string), int> {
    map k | k in daily :: daily[k].count
  }

  ghost function ClicksTotal(db: Db): int {
    Sum(AllCounts(db.daily))
  }

  /** Every click count of a link row, deleted rows included. */
  function RowCounts(links: map<nat, Link>): map<nat, int> {
    map id | id in links :: links[id].clickCount
  }

  ghost function RowsTotal(db: Db): int {
    Sum(RowCounts(db.links))
  }

  /** One UPDATE adds its count to the click counts of all rows together when the
      code is live, and nothing otherwise. */
  lemma RowTotal(links: map<nat, Link>, code: string, n: int, now: int)
    requires UniqueLive(links)
    ensures Sum(RowCounts(AddTotal(links, code, n, now))) == Sum(RowCounts(links)) + if HasLive(links, code) then n else 0
  {
    hide Sum;
    var after := RowCounts(AddTotal(links, code, n, now));
    if HasLive(links, code) {
      var id :| id in links && Live(links[id], code);
      var want := RowCounts(links)[id := links[id].clickCount + n];
      forall j | j in links ensures after[j] == want[j] {
        assert Live(links[j], code) ==> j == id;
      }
      assert after == want;
      SumPut(RowCounts(links), id, links[id].clickCount + n);
    } else {
      assert after == RowCounts(links);
    }
  }

  /** Adding totals makes no code live and no live code dead. */
  lemma AppliedLive(links: map<nat, Link>, totals: map<string, int>, now: int, code: string)
    requires UniqueLive(links)
    ensures UniqueLive(ApplyTotals(links, totals, now))
    ensures HasLive(ApplyTotals(links, totals, now), code) <==> HasLive(links, code)
  {
    var after := ApplyTotals(links, totals, now);
    assert forall id | id in links :: Live(after[id], code) <==> Live(links[id], code);
    UniqueKept(links, after);
  }

  /** One upsert adds its count to the overall total when the code is live, and nothing otherwise. */
  lemma DailyTotal(links: map<nat, Link>, daily: map<(nat, string), DailyRow>, d: DailyCount)
    requires UniqueLive(links)
    ensures Sum(AllCounts(AddDaily(links, daily, d)))
         == Sum(AllCounts(daily)) + if HasLive(links, d.code) then d.count else 0
  {
    var after := AllCounts(AddDaily(links, daily, d));
    if HasLive(links, d.code) {
      var id :| id in links && Live(links[id], d.code);
      var k := (id, d.date);
      assert DailyKeys(links, d.code, d.date) == {k} by {
        assert k in DailyKeys(links, d.code, d.date);
      }
      assert after == AllCounts(daily)[k := Get(AllCounts(daily), k) + d.count];
      SumPut(AllCounts(daily), k, Get(AllCounts(daily), k) + d.count);
    } else {
      assert DailyKeys(links, d.code, d.date) == {};
      assert AddDaily(links, daily, d) == daily;
    }
  }
}
