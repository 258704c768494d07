/** The Redis side of click counting and the flush task
    (internal/counter/counter.go, internal/counter/flush.go). */
module Flusher {
  import opened MapSum
  import opened CounterKeys
  import opened Tables
  import opened Counts
  import World
  import Store

  /** What SCAN counter:* comes back with, over all its pages; a key may be listed twice. */
  datatype Scan = ScanBroken | Listed(keys: seq<string>)

  /** SCAN lists every counter there is, and only those. */
  ghost predicate Lists(scan: Scan, redis: map<string, int>) {
    scan.Listed? ==> forall k :: k in scan.keys <==> k in redis && Prefixed(k)
  }

  predicate Distinct(keys: seq<string>) {
    forall i, j | 0 <= i < j < |keys| :: keys[i] != keys[j]
  }

  /** How a GETDEL pipeline ends: with all its replies, or broken after the
      server ran the first few of its commands. */
  datatype Pipe = Replies | Broken(ran: nat)

  datatype FlushResult = Flushed | ScanFailed | ResetFailed | ApplyFailed

  /** The commands of the pipeline that the server ran. */
  function Ran(keys: seq<string>, pipe: Pipe): seq<string> {
    if pipe.Broken? && pipe.ran < |keys| then keys[..pipe.ran] else keys
  }

  class Counter {
    var redis: map<string, int>

    constructor ()
      ensures redis == map[]
    {
      redis := map[];
    }

    /** One click: the total and the daily counter in one round trip. */
    method Incr(code: string, date: string)
      modifies this
      ensures redis == World.ClickKeys(old(redis), code, date)
    {
      var t, d := Print(Total(code)), Print(Daily(code, date));
      redis := redis[t := Get(redis, t) + 1];
      redis := redis[d := Get(redis, d) + 1];
    }

    method AddBack(key: string, v: int, answers: bool)
      modifies this
      ensures redis == if answers then old(redis)[key := Get(old(redis), key) + v] else old(redis)
    {
      if answers {
        redis := redis[key := Get(redis, key) + v];
      }
    }

    /** Collects what SCAN lists. */
    method ScanKeys(scan: Scan) returns (ok: bool, keys: seq<string>)
      requires Lists(scan, redis)
      ensures ok <==> scan.Listed?
      ensures ok ==> keys == scan.keys && forall k :: k in keys <==> k in redis && Prefixed(k)
    {
      hide Prefixed;
      keys := [];
      if scan.ScanBroken? {
        return false, keys;
      }
      for i := 0 to |scan.keys|
        invariant keys == scan.keys[..i]
      {
        keys := keys + [scan.keys[i]];
      }
      assert scan.keys[..|scan.keys|] == scan.keys;
      ok := true;
    }

    /** One GETDEL per key. The client reports the first error among the replies,
        and a key that is not there, or not any more, counts as one. Whenever the
        call fails, what it took is gone: nobody holds the values any more. */
    method GetAndResetMany(keys: seq<string>, pipe: Pipe) returns (ok: bool, vals: map<string, int>)
      modifies this
      ensures ok <==> pipe.Replies? && Distinct(keys) && forall k | k in keys :: k in old(redis)
      ensures ok ==> vals == (map k | k in old(redis) && k in keys :: old(redis)[k])
      ensures redis == old(redis) - set k | k in Ran(keys, pipe)
    {
      hide Distinct;
      NoneTwice();
      var n := |Ran(keys, pipe)|;
      assert Ran(keys, pipe) == keys[..n];
      var missed := false;
      vals := map[];
      for i := 0 to n
        invariant redis == old(redis) - set k | k in keys[..i]
        invariant vals == map k | k in old(redis) && k in keys[..i] :: old(redis)[k]
        invariant missed <==> !(Distinct(keys[..i]) && forall k | k in keys[..i] :: k in old(redis))
      {
        assert keys[..i + 1] == keys[..i] + [keys[i]];
        DistinctMore(keys[..i], keys[i]);
        if keys[i] in redis {
          vals := vals[keys[i] := redis[keys[i]]];
          redis := redis - {keys[i]};
        } else {
          missed := true;
        }
      }
      assert keys[..|keys|] == keys;
      ok := pipe.Replies? && !missed;
    }
  }

  lemma NoneTwice()
    ensures Distinct([])
  {
  }

  lemma DistinctMore(keys: seq<string>, k: string)
    ensures Distinct(keys + [k]) <==> Distinct(keys) && k !in keys
  {
    var more, n := keys + [k], |keys|;
    assert forall i | 0 <= i < n :: more[i] == keys[i];
    assert more[n] == k;
    if Distinct(more) {
      forall i, j | 0 <= i < j < n ensures keys[i] != keys[j] {
        assert more[i] != more[j];
      }
      forall i | 0 <= i < n ensures keys[i] != k {
        assert more[i] != more[n];
      }
    } else {
      var i, j :| 0 <= i < j < |more| && more[i] == more[j];
      if j < n {
        assert keys[i] == keys[j];
      } else {
        assert keys[i] == k;
      }
    }
  }

  function KeysOf(redis: map<string, int>): set<string> {
    set k | k in redis && Prefixed(k)
  }

  /** What a whole flush takes: every counter there is. */
  function Buffered(redis: map<string, int>): map<string, int> {
    map k | k in redis && Prefixed(k) :: redis[k]
  }

  /** The cache entries a committed flush drops. */
  function Touched(totals: map<string, int>): set<string> {
    set code | code in totals && code != ""
  }

  /** What addBack returns to Redis: positive values, where Redis answers. */
  predicate Returned(vals: map<string, int>, answering: set<string>, k: string) {
    k in vals && vals[k] > 0 && k in answering
  }

  class Task {
    const store: Store.LinkStore
    const counter: Counter

    constructor (s: Store.LinkStore, c: Counter)
      ensures store == s && counter == c
    {
      store, counter := s, c;
    }

    /** FlushOnce: scan, take everything, apply it in one transaction, and give it
        back when that fails. `scan`, `pipe`, `commits` and `answering` are what Redis
        and SQLite happen to do; `lost` holds the keys whose values are gone. */
    method FlushOnce(now: int, t: int, scan: Scan, pipe: Pipe, commits: bool, answering: set<string>) returns (r: FlushResult, ghost lost: set<string>)
      requires Valid(store.db) && Lists(scan, counter.redis)
      modifies store`db, store.cache, counter
      ensures r == Outcome(scan, pipe, commits) && lost == Lost(old(counter.redis), scan, pipe, commits, answering)
      ensures var before := old(counter.redis);
        r.Flushed? ==>
          && counter.redis == before - KeysOf(before)
          && store.db == FlushDb(old(store.db), Decode(Buffered(before)), now)
          && store.cache.View() == old(store.cache.View()) - Touched(Totals(Decode(Buffered(before))))
      ensures !r.Flushed? ==> counter.redis == old(counter.redis) - lost && store.Abs() == old(store.Abs())
    {
      hide Prefixed, Decode, Totals, FlushDb, Returned, Buffered, KeysOf, Ran, Distinct;
      ghost var before := counter.redis;
      lost := Lost(before, scan, pipe, commits, answering);
      var listed, some, ok, vals := Take(scan, pipe);
      assert store.Abs() == old(store.Abs());
      if !listed {
        return ScanFailed, lost;
      }
      if !some {
        FlushNothing(store.db, now);
        return Flushed, lost;
      }
      if !ok {
        return ResetFailed, lost;
      }
      TakenKeys(before);
      Apply(vals, now, t, commits, answering);
      if !commits {
        GivenBack(before, answering);
        return ApplyFailed, lost;
      }
      return Flushed, lost;
    }

    /** The first half of FlushOnce: list the keys and take their values. */
    method Take(scan: Scan, pipe: Pipe) returns (listed: bool, some: bool, ok: bool, vals: map<string, int>)
      requires Lists(scan, counter.redis)
      modifies counter
      ensures listed <==> scan.Listed?
      ensures !listed ==> counter.redis == old(counter.redis)
      ensures listed ==> (some <==> scan.keys != [])
      ensures listed && !some ==> KeysOf(counter.redis) == {} && Buffered(counter.redis) == map[]
      ensures listed && !some ==> counter.redis == old(counter.redis) == old(counter.redis) - KeysOf(old(counter.redis))
      ensures listed && some ==> (ok <==> pipe.Replies? && Distinct(scan.keys))
      ensures listed && some && ok ==> vals == Buffered(old(counter.redis))
      ensures listed && some && ok ==> counter.redis == old(counter.redis) - KeysOf(old(counter.redis))
      ensures listed && some && !ok ==> counter.redis == old(counter.redis) - set k | k in Ran(scan.keys, pipe)
    {
      hide Prefixed, Buffered, KeysOf, Ran, Distinct;
      ghost var before := counter.redis;
      var keys;
      listed, keys := counter.ScanKeys(scan);
      some, ok, vals := |keys| > 0, true, map[];
      if !listed {
        return;
      }
      if !some {
        NothingListed(before);
        return;
      }
      AllListed(keys, before);
      ok, vals := counter.GetAndResetMany(keys, pipe);
    }

    /** The second half of FlushOnce: decode, apply, and add back on failure. */
    method Apply(vals: map<string, int>, now: int, t: int, commits: bool, answering: set<string>)
      requires Valid(store.db) && (forall k | k in vals :: Prefixed(k) && k !in counter.redis)
      modifies store`db, store.cache, counter
      ensures commits ==> counter.redis == old(counter.redis)
      ensures commits ==> store.db == FlushDb(old(store.db), Decode(vals), now)
      ensures commits ==> store.cache.View() == old(store.cache.View()) - Touched(Totals(Decode(vals)))
      ensures !commits ==> store.Abs() == old(store.Abs())
      ensures !commits ==> counter.redis == old(counter.redis) + map k | k in vals && Returned(vals, answering, k) :: vals[k]
    {
      hide Prefixed, Decode, Totals, ApplyLedger, ApplyTotals, ApplyDailies;
      var totals, dailies := Partition(vals, store.db.links, store.db.daily);
      DailiesIgnoreTotals(store.db.links, totals, now, store.db.daily, dailies);
      store.ApplyCounts(totals, dailies, now, commits, t);
      if !commits {
        AddBackEach(vals, answering);
      }
    }

    /** addBack: positive values return to their keys, in any order. */
    method AddBackEach(vals: map<string, int>, answering: set<string>)
      requires forall k | k in vals :: k !in counter.redis
      modifies counter
      ensures counter.redis == old(counter.redis) + map k | k in vals && Returned(vals, answering, k) :: vals[k]
    {
      var left := vals.Keys;
      while left != {}
        invariant left <= vals.Keys
        invariant counter.redis == old(counter.redis) + map k | k in vals && k !in left && Returned(vals, answering, k) :: vals[k]
        decreases left
      {
        var k :| k in left;
        left := left - {k};
        if vals[k] > 0 {
          counter.AddBack(k, vals[k], k in answering);
        }
      }
    }
  }

  lemma TakenKeys(before: map<string, int>)
    ensures forall k | k in Buffered(before) :: Prefixed(k) && k !in before - KeysOf(before)
  {
    hide Prefixed;
  }

  /** What is missing from the buffer after adding back is what was not returned. */
  lemma GivenBack(before: map<string, int>, answering: set<string>)
    ensures var taken := Buffered(before);
      (before - KeysOf(before)) + (map k | k in taken && Returned(taken, answering, k) :: taken[k])
      == before - set k | k in KeysOf(before) && !Returned(taken, answering, k)
  {
    hide Prefixed;
  }

  lemma NothingListed(before: map<string, int>)
    requires forall k :: !(k in before && Prefixed(k))
    ensures KeysOf(before) == {} && Buffered(before) == map[]
    ensures before - KeysOf(before) == before
  {
    hide Prefixed;
  }

  /** A complete list of the counters: taking its keys is taking everything. */
  lemma AllListed(keys: seq<string>, before: map<string, int>)
    requires forall k :: k in keys <==> k in before && Prefixed(k)
    ensures forall k | k in keys :: k in before
    ensures (set k | k in keys) == KeysOf(before)
    ensures (map k | k in before && k in keys :: before[k]) == Buffered(before)
    ensures Ran(keys, Replies) == keys
  {
    hide Prefixed;
  }

  // ---- all or nothing, and when not ----

  /** How a flush ends. */
  function Outcome(scan: Scan, pipe: Pipe, commits: bool): FlushResult {
    if scan.ScanBroken? then ScanFailed
    else if scan.keys == [] then Flushed
    else if pipe.Broken? || !Distinct(scan.keys) then ResetFailed
    else if commits then Flushed else ApplyFailed
  }

  /** The keys whose values a flush takes and neither counts nor returns. */
  ghost function Lost(before: map<string, int>, scan: Scan, pipe: Pipe, commits: bool, answering: set<string>): set<string> {
    match Outcome(scan, pipe, commits)
    case ResetFailed => set k | k in Ran(scan.keys, pipe)
    case ApplyFailed => set k | k in KeysOf(before) && !Returned(Buffered(before), answering, k)
    case _ => {}
  }

  /** A flush is all or nothing, counting every buffered click or leaving the
      buffer as it was, if and only if there is nothing to flush, the scan fails, the
      pipeline breaks before its first command, or it replies in full to a list
      without repetitions and then the transaction commits or every value can be
      added back. (A flush that does not end in Flushed leaves the tables alone.) */
  lemma AllOrNothingIff(before: map<string, int>, scan: Scan, pipe: Pipe, commits: bool, answering: set<string>)
    requires Lists(scan, before) && forall k | k in KeysOf(before) :: before[k] > 0
    ensures Outcome(scan, pipe, commits).Flushed? || before - Lost(before, scan, pipe, commits, answering) == before
       <==> || KeysOf(before) == {} || scan.ScanBroken? || pipe == Broken(0)
            || (pipe.Replies? && Distinct(scan.keys) && (commits || KeysOf(before) <= answering))
  {
    hide Prefixed, Distinct;
    var lost := Lost(before, scan, pipe, commits, answering);
    LostWasThere(before, scan, pipe, commits, answering);
    assert before - lost == before <==> lost == {} by {
      if k :| k in lost {
        assert k in before && k !in before - lost;
      }
    }
    if scan.Listed? {
      if scan.keys == [] {
        NothingListed(before);
      } else {
        assert scan.keys[0] in KeysOf(before);
        AllReturnedIff(before, answering);
        if Outcome(scan, pipe, commits).ResetFailed? && pipe != Broken(0) {
          assert Ran(scan.keys, pipe)[0] in lost;
        }
      }
    }
  }

  lemma LostWasThere(before: map<string, int>, scan: Scan, pipe: Pipe, commits: bool, answering: set<string>)
    requires Lists(scan, before)
    ensures Lost(before, scan, pipe, commits, answering) <= KeysOf(before)
  {
    hide Prefixed, Distinct;
    forall k | k in Lost(before, scan, pipe, commits, answering) ensures k in KeysOf(before) {
      if Outcome(scan, pipe, commits).ResetFailed? {
        assert k in scan.keys;
      }
    }
  }

  lemma AllReturnedIff(before: map<string, int>, answering: set<string>)
    requires forall k | k in KeysOf(before) :: before[k] > 0
    ensures (set k | k in KeysOf(before) && !Returned(Buffered(before), answering, k)) == {} <==> KeysOf(before) <= answering
  {
    hide Prefixed;
    var left := set k | k in KeysOf(before) && !Returned(Buffered(before), answering, k);
    forall k | k in KeysOf(before) ensures k in left <==> k !in answering {
    }
  }

  /** One counter listed twice: Redis answers everything, SQLite would commit, and
      the counter is lost. */
  lemma ListedTwiceIsLost(k: string, v: int)
    requires Prefixed(k) && v > 0
    ensures Lists(Listed([k, k]), map[k := v])
    ensures Outcome(Listed([k, k]), Replies, true).ResetFailed?
    ensures Lost(map[k := v], Listed([k, k]), Replies, true, {}) == {k}
  {
    hide Prefixed;
    var keys := [k, k];
    assert keys[0] == keys[1];
    assert Ran(keys, Replies) == keys;
  }

  /** A pipeline that breaks on a list without repetitions loses exactly as many
      counters as the server got to. */
  lemma BrokenPipelineLoses(before: map<string, int>, scan: Scan, pipe: Pipe, commits: bool, answering: set<string>)
    requires Lists(scan, before) && scan.Listed? && Distinct(scan.keys) && scan.keys != [] && pipe.Broken?
    ensures |Lost(before, scan, pipe, commits, answering)|
         == if pipe.ran < |KeysOf(before)| then pipe.ran else |KeysOf(before)|
  {
    hide Prefixed;
    var ran := Ran(scan.keys, pipe);
    DistinctSize(ran);
    DistinctSize(scan.keys);
    assert KeysOf(before) == set k | k in scan.keys;
  }

  lemma {:induction false} DistinctSize(keys: seq<string>)
    requires Distinct(keys)
    ensures |set k | k in keys| == |keys|
  {
    if keys != [] {
      var n := |keys| - 1;
      assert keys == keys[..n] + [keys[n]];
      DistinctMore(keys[..n], keys[n]);
      DistinctSize(keys[..n]);
      assert (set k | k in keys) == (set k | k in keys[..n]) + {keys[n]};
    }
  }

  lemma FlushNothing(db: Db, now: int)
    ensures FlushDb(db, Decode(map[]), now) == db && Totals(Decode(map[])) == map[]
  {
    hide ParseKey, ApplyTotals, ApplyLedger;
    var none: map<Key, int> := map[];
    assert Decode(map[]) == none;
    assert Totals(none) == map[];
    LedgerIdle(db.links, db.daily, none);
    NoTotals(db.links, now);
  }

  lemma NoTotals(links: map<nat, Link>, now: int)
    ensures ApplyTotals(links, map[], now) == links
  {
  }

  /** A flush that meets no failure is the atomic flush of whole runs. */
  lemma FlushOnceIsOneAction(w: World.World, now: int)
    requires World.Inv(w)
    ensures World.Step(w, World.Flush(now))
         == World.World(FlushDb(w.db, Decode(Buffered(w.redis)), now), w.redis - KeysOf(w.redis))
  {
    hide Decode, Prefixed, Clean, World.Good, World.Balanced, FlushDb, World.Served, World.ClickKeys;
    assert Buffered(w.redis) == w.redis;
    assert KeysOf(w.redis) == w.redis.Keys;
    assert w.redis - w.redis.Keys == map[];
  }

  /** Sorts the taken values into totals and dailies, in any order. Whatever the
      order, applying the list has the effect of the decoded ledger as a whole. */
  method Partition(vals: map<string, int>, ghost links: map<nat, Link>, ghost daily: map<(nat, string), DailyRow>)
    returns (totals: map<string, int>, dailies: seq<DailyCount>)
    requires forall s | s in vals :: Prefixed(s)
    ensures totals == Totals(Decode(vals))
    ensures ApplyDailies(links, daily, dailies) == ApplyLedger(links, daily, Decode(vals))
  {
    hide ParseKey, Prefixed, ApplyDailies, ApplyLedger, Decode, Totals;
    totals, dailies := map[], [];
    var left := vals.Keys;
    PartitionNothing(vals, links, daily);
    while left != {}
      invariant left <= vals.Keys
      invariant totals == Totals(Decode(vals - left))
      invariant ApplyDailies(links, daily, dailies) == ApplyLedger(links, daily, Decode(vals - left))
      decreases left
    {
      var key :| key in left;
      var v := vals[key];
      PartitionStep(vals - left, key, v, links, daily);
      assert vals - (left - {key}) == (vals - left)[key := v];
      left := left - {key};
      if v > 0 {
        match ParseKey(key) {
          case Daily(code, date) =>
            DailiesAppend(links, daily, dailies, DailyCount(code, date, v));
            dailies := dailies + [DailyCount(code, date, v)];
          case Total(code) =>
            totals := totals[code := Get(totals, code) + v];
        }
      }
    }
    assert vals - left == vals;
  }

  lemma PartitionNothing(vals: map<string, int>, links: map<nat, Link>, daily: map<(nat, string), DailyRow>)
    ensures forall s | s in vals - vals.Keys :: Prefixed(s)
    ensures Totals(Decode(vals - vals.Keys)) == map[]
    ensures ApplyDailies(links, daily, []) == ApplyLedger(links, daily, Decode(vals - vals.Keys))
  {
    hide ParseKey, Prefixed;
    assert vals - vals.Keys == map[];
    assert Decode(map[]) == map[];
    LedgerIdle(links, daily, map[]);
  }

  /** One more taken value, and what it adds to totals and ledger. */
  lemma PartitionStep(vals: map<string, int>, key: string, v: int, links: map<nat, Link>, daily: map<(nat, string), DailyRow>)
    requires key !in vals && Prefixed(key) && forall s | s in vals :: Prefixed(s)
    ensures forall s | s in vals[key := v] :: Prefixed(s)
    ensures var m, m' := Decode(vals), Decode(vals[key := v]);
      match ParseKey(key)
      case Total(code) =>
        && Totals(m') == (if v > 0 then Totals(m)[code := Get(Totals(m), code) + v] else Totals(m))
        && ApplyLedger(links, daily, m') == ApplyLedger(links, daily, m)
      case Daily(code, date) =>
        && Totals(m') == Totals(m)
        && ApplyLedger(links, daily, m')
           == (if v > 0 then AddDaily(links, ApplyLedger(links, daily, m), DailyCount(code, date, v)) else ApplyLedger(links, daily, m))
  {
    hide ParseKey, Prefixed, ApplyLedger, AddDaily, Decode;
    DecodeAdd(vals, key, v);
    if v > 0 {
      TotalsPut(Decode(vals), ParseKey(key), v);
      match ParseKey(key) {
        case Total(code) => LedgerIgnoresTotals(links, daily, Decode(vals), code, v);
        case Daily(code, date) => LedgerStep(links, daily, Decode(vals), code, date, v);
      }
    }
  }

  lemma DecodeAdd(vals: map<string, int>, key: string, v: int)
    requires key !in vals && Prefixed(key) && forall s | s in vals :: Prefixed(s)
    ensures Decode(vals[key := v]) == if v > 0 then Decode(vals)[ParseKey(key) := v] else Decode(vals)
    ensures ParseKey(key) !in Decode(vals)
  {
    hide ParseKey, Print, Prefixed, Decode;
    ParsedKeysPrintBack(key);
    var after := vals[key := v];
    forall j
      ensures j in Decode(after) <==> if v > 0 then j in Decode(vals)[ParseKey(key) := v] else j in Decode(vals)
      ensures j in Decode(after) ==> Decode(after)[j] == if v > 0 then Decode(vals)[ParseKey(key) := v][j] else Decode(vals)[j]
    {
      DecodeAt(vals, j);
      DecodeAt(after, j);
    }
    DecodeAt(vals, ParseKey(key));
    assert v > 0 ==> Decode(after).Keys == Decode(vals)[ParseKey(key) := v].Keys;
    assert v <= 0 ==> Decode(after).Keys == Decode(vals).Keys;
  }

  lemma TotalsPut(m: map<Key, int>, k: Key, v: int)
    requires k !in m
    ensures Totals(m[k := v]) == if k.Total? then Totals(m)[k.code := Get(Totals(m), k.code) + v] else Totals(m)
  {
    var after := Totals(m[k := v]);
    var want := if k.Total? then Totals(m)[k.code := Get(Totals(m), k.code) + v] else Totals(m);
    forall code
      ensures code in after <==> code in want
      ensures code in after ==> after[code] == want[code]
    {
      assert code in after <==> Total(code) in m[k := v] by {
        if Total(code) in m[k := v] { assert Total(code).code == code; }
      }
      assert code in Totals(m) <==> Total(code) in m by {
        if Total(code) in m { assert Total(code).code == code; }
      }
    }
    assert after.Keys == want.Keys;
  }

  lemma LedgerIgnoresTotals(links: map<nat, Link>, daily: map<(nat, string), DailyRow>, m: map<Key, int>, code: string, v: int)
    ensures ApplyLedger(links, daily, m[Total(code) := v]) == ApplyLedger(links, daily, m)
  {
    var m' := m[Total(code) := v];
    forall p ensures p in Reached(links, m') <==> p in Reached(links, m) {
      if p in Reached(links, m) {
        var id, k :| id in links && k in m && k.Daily? && Live(links[id], k.code) && p == (id, k.date);
        assert k in m';
      }
    }
    assert Reached(links, m') == Reached(links, m);
  }

  lemma {:induction false} DailiesAppend(links: map<nat, Link>, daily: map<(nat, string), DailyRow>, ds: seq<DailyCount>, d: DailyCount)
    ensures ApplyDailies(links, daily, ds + [d])
         == if d.count <= 0 then ApplyDailies(links, daily, ds) else AddDaily(links, ApplyDailies(links, daily, ds), d)
    decreases |ds|
  {
    if ds == [] {
      assert [] + [d] == [d];
      assert ApplyDailies(links, if d.count <= 0 then daily else AddDaily(links, daily, d), []) == if d.count <= 0 then daily else AddDaily(links, daily, d);
    } else {
      assert (ds + [d])[1..] == ds[1..] + [d];
      DailiesAppend(links, if ds[0].count <= 0 then daily else AddDaily(links, daily, ds[0]), ds[1..], d);
    }
  }
}
