/** What each statement leaves in the tables, row by row, as a reader of
    internal/store/store.go, counts.go and backups.go relies on it. */
module TableLaws {
  import opened MapSum
  import opened Tables
  import opened Counts

  // ---- creating ----

  /** A create is refused exactly for a code in use. Otherwise the row is found under
      its code with every field as given and a new id, and nothing else changes. */
  lemma CreateAdds(db: Db, l: Link)
    requires Valid(db)
    ensures var (r, status) := Create(db, l);
      if HasLive(db.links, l.code) then status.Taken? && r == db
      else
        && status.Done? && r.lastId > db.lastId && Valid(r)
        && Find(r.links, l.code) == Some(l.(id := r.lastId, deleted := false))
        && (forall id :: id in r.links <==> id in db.links || id == r.lastId)
        && (forall id | id in db.links :: r.links[id] == db.links[id])
        && r.daily == db.daily && r.backups == db.backups
  {
    if !HasLive(db.links, l.code) {
      var r := Create(db, l).0;
      UniqueAfterInsert(db.links, db.lastId + 1, l.(id := db.lastId + 1, deleted := false));
      assert Live(r.links[r.lastId], l.code);
    }
  }

  /** Under each id reported stands the row it was reported for, with its fields as given. */
  ghost predicate Stand(db: Db, ls: seq<Link>, r: Db, ids: seq<Option<nat>>)
    requires |ids| == |ls|
  {
    forall i | 0 <= i < |ls| && ids[i].Some? ::
      db.lastId < ids[i].value <= r.lastId && ids[i].value in r.links
      && r.links[ids[i].value] == ls[i].(id := ids[i].value, deleted := false)
  }

  ghost predicate Rising(ids: seq<Option<nat>>) {
    forall i, j | 0 <= i < j < |ids| && ids[i].Some? && ids[j].Some? :: ids[i].value < ids[j].value
  }

  /** The old rows are as they were, and every other one was reported. */
  ghost predicate NoneElse(db: Db, r: Db, ids: seq<Option<nat>>) {
    && (forall id | id in db.links :: id in r.links && r.links[id] == db.links[id])
    && (forall id | id in r.links :: id in db.links || exists i | 0 <= i < |ids| :: ids[i] == Some(id))
  }

  /** Of many rows those that get in do so under the ids reported for them, which
      rise, with their fields as given; no other row comes, and none that was there
      changes. */
  ghost predicate Added(db: Db, ls: seq<Link>, r: Db, ids: seq<Option<nat>>) {
    && |ids| == |ls| && r.lastId >= db.lastId && r.daily == db.daily && r.backups == db.backups
    && Stand(db, ls, r, ids) && Rising(ids) && NoneElse(db, r, ids)
  }

  lemma {:induction false} CreateManyAdds(db: Db, ls: seq<Link>)
    requires Valid(db)
    ensures Added(db, ls, CreateMany(db, ls).0, CreateMany(db, ls).1)
    decreases |ls|
  {
    if ls != [] {
      hide Create, Valid, HasLive, Added;
      var (next, status) := Create(db, ls[0]);
      var (r, ids) := CreateMany(next, ls[1..]);
      OneMoreLive(db, ls[0]);
      FirstRow(db, ls[0]);
      CreateManyAdds(next, ls[1..]);
      AddedBefore(db, next, ls, r, ids, if status.Done? then Some(next.lastId) else None);
    } else {
      NoneAdded(db);
    }
  }

  lemma NoneAdded(db: Db)
    ensures Added(db, [], db, [])
  {
  }

  lemma AddedBefore(db: Db, next: Db, ls: seq<Link>, r: Db, ids: seq<Option<nat>>, id: Option<nat>)
    requires ls != [] && Added(next, ls[1..], r, ids)
    requires id.None? ==> next == db
    requires id.Some? ==> (
      && id.value == db.lastId + 1 && id.value !in db.links
      && next == db.(links := db.links[id.value := ls[0].(id := id.value, deleted := false)], lastId := id.value))
    ensures Added(db, ls, r, [id] + ids)
  {
    if id.Some? {
      assert id.value in next.links;
    }
    hide Stand, Rising;
    StandBefore(db, next, ls, r, ids, id);
    RisingBefore(next, ls[1..], r, ids, id);
    NoneElseBefore(db, next, r, ids, id);
  }

  lemma StandBefore(db: Db, next: Db, ls: seq<Link>, r: Db, ids: seq<Option<nat>>, id: Option<nat>)
    requires ls != [] && |ids| == |ls| - 1 && Stand(next, ls[1..], r, ids)
    requires db.lastId <= next.lastId <= r.lastId
    requires id.Some? ==> db.lastId < id.value <= r.lastId && id.value in r.links && r.links[id.value] == ls[0].(id := id.value, deleted := false)
    ensures Stand(db, ls, r, [id] + ids)
  {
    var all := [id] + ids;
    forall i | 0 <= i < |ls| && all[i].Some?
      ensures db.lastId < all[i].value <= r.lastId && all[i].value in r.links
      ensures r.links[all[i].value] == ls[i].(id := all[i].value, deleted := false)
    {
      if i > 0 { assert all[i] == ids[i - 1] && ls[i] == ls[1..][i - 1]; }
    }
  }

  lemma RisingBefore(next: Db, rest: seq<Link>, r: Db, ids: seq<Option<nat>>, id: Option<nat>)
    requires |ids| == |rest| && Stand(next, rest, r, ids) && Rising(ids) && (id.Some? ==> id.value <= next.lastId)
    ensures Rising([id] + ids)
  {
    var all := [id] + ids;
    forall i, j | 0 <= i < j < |all| && all[i].Some? && all[j].Some? ensures all[i].value < all[j].value {
      assert all[j] == ids[j - 1];
      if i > 0 { assert all[i] == ids[i - 1]; }
    }
  }

  lemma NoneElseBefore(db: Db, next: Db, r: Db, ids: seq<Option<nat>>, id: Option<nat>)
    requires NoneElse(next, r, ids)
    requires forall k | k in db.links :: k in next.links && next.links[k] == db.links[k]
    requires forall k | k in next.links :: k in db.links || id == Some(k)
    ensures NoneElse(db, r, [id] + ids)
  {
    var all := [id] + ids;
    forall k | k in r.links && k !in db.links ensures exists i | 0 <= i < |all| :: all[i] == Some(k) {
      if k in next.links {
        assert all[0] == Some(k);
      } else {
        var i :| 0 <= i < |ids| && ids[i] == Some(k);
        assert all[i + 1] == Some(k);
      }
    }
  }

  ghost predicate FirstUse(db: Db, ls: seq<Link>, i: nat)
    requires i < |ls|
  {
    !HasLive(db.links, ls[i].code) && forall j | 0 <= j < i :: ls[j].code != ls[i].code
  }

  /** And exactly those get in whose code is free and not used by an earlier one. */
  lemma {:induction false} CreateManyTakesFirst(db: Db, ls: seq<Link>, i: nat)
    requires Valid(db) && i < |ls|
    ensures CreateMany(db, ls).1[i].Some? <==> FirstUse(db, ls, i)
    decreases |ls|
  {
    hide Create, Valid, HasLive;
    var next := Create(db, ls[0]).0;
    OneMoreLive(db, ls[0]);
    FirstRow(db, ls[0]);
    if i > 0 {
      CreateManyTakesFirst(next, ls[1..], i - 1);
      LaterUse(db, next, ls, i);
    }
  }

  lemma FirstRow(db: Db, l: Link)
    requires Valid(db)
    ensures var (r, status) := Create(db, l);
      if HasLive(db.links, l.code) then status.Taken? && r == db
      else
        && status.Done? && db.lastId + 1 !in db.links
        && r == db.(links := db.links[db.lastId + 1 := l.(id := db.lastId + 1, deleted := false)], lastId := db.lastId + 1)
  {
  }

  /** A create makes its own code live and no other. */
  lemma OneMoreLive(db: Db, l: Link)
    requires Valid(db)
    ensures var r := Create(db, l).0;
      Valid(r) && forall code :: HasLive(r.links, code) <==> HasLive(db.links, code) || code == l.code
  {
    CreateAdds(db, l);
    var r := Create(db, l).0;
    forall code ensures HasLive(r.links, code) <==> HasLive(db.links, code) || code == l.code {
      if HasLive(db.links, code) {
        var id :| id in db.links && Live(db.links[id], code);
        assert Live(r.links[id], code);
      }
      if !HasLive(db.links, l.code) {
        assert Live(r.links[r.lastId], l.code);
      }
    }
  }

  lemma LaterUse(db: Db, next: Db, ls: seq<Link>, i: nat)
    requires 0 < i < |ls| && forall code :: HasLive(next.links, code) <==> HasLive(db.links, code) || code == ls[0].code
    ensures FirstUse(next, ls[1..], i - 1) <==> FirstUse(db, ls, i)
  {
    hide HasLive;
    assert ls[1..][i - 1] == ls[i];
    assert forall j | 0 < j < i :: ls[1..][j - 1] == ls[j];
    if FirstUse(next, ls[1..], i - 1) {
      forall j | 0 <= j < i ensures ls[j].code != ls[i].code {
        if j > 0 { assert ls[1..][j - 1] == ls[j]; }
      }
    }
  }

  // ---- editing ----

  /** An edit gives the live row of its code the url, title, description, expiry and
      time that come with it, leaves its other fields, and touches no other row. */
  lemma UpdateWrites(db: Db, l: Link, id: nat)
    requires Valid(db) && id in db.links
    ensures var (r, status) := Update(db, l);
      && (status.Done? <==> HasLive(db.links, l.code)) && (status.NotFound? <==> !HasLive(db.links, l.code))
      && id in r.links && r.links.Keys == db.links.Keys && r == db.(links := r.links)
      && var was, row := db.links[id], r.links[id];
         if Live(was, l.code) then
           && row.url == l.url && row.title == l.title && row.description == l.description
           && row.expiresAt == l.expiresAt && row.updatedAt == l.updatedAt
           && row.id == was.id && row.code == was.code && row.clickCount == was.clickCount
           && row.createdAt == was.createdAt && !row.deleted
         else row == was
  {
  }

  /** Fetched text: an empty title never replaces one, a description only fills an
      empty one, and no other field but the time moves. */
  lemma MetaKeeps(db: Db, code: string, title: string, description: string, at: int, id: nat)
    requires id in db.links
    ensures var r := UpdateMeta(db, code, title, description, at);
      && r.links.Keys == db.links.Keys && r == db.(links := r.links)
      && var was, row := db.links[id], r.links[id];
         if Live(was, code) then
           && (title == "" ==> row.title == was.title) && (title != "" ==> row.title == title)
           && (was.description != "" ==> row.description == was.description)
           && (was.description == "" ==> row.description == description)
           && row == was.(title := row.title, description := row.description, updatedAt := at)
         else row == was
  {
  }

  // ---- renaming ----

  /** A rename finds no row, or finds the new code in use by another one, or moves
      exactly one row: the one that was live under the old code. Counts stay where
      they are; only labels follow. */
  lemma RenameMoves(db: Db, o: string, n: string, at: int, id: nat)
    requires Valid(db) && id in db.links
    ensures var (r, status) := Rename(db, o, n, at);
      && (status.NotFound? <==> !HasLive(db.links, o))
      && (status.Taken? <==> HasLive(db.links, o) && o != n && HasLive(db.links, n))
      && (!status.Done? ==> r == db)
      && (status.Done? ==>
           && id in r.links
           && r.links[id] == (if Live(db.links[id], o) then db.links[id].(code := n, updatedAt := at) else db.links[id])
           && HasLive(r.links, n) && (o != n ==> !HasLive(r.links, o))
           && r.links.Keys == db.links.Keys && r.daily.Keys == db.daily.Keys
           && r.lastId == db.lastId && r.backups == db.backups
           && forall k | k in db.daily :: r.daily[k].count == db.daily[k].count
                && r.daily[k].code == if db.daily[k].code == o then n else db.daily[k].code)
  {
    var (r, status) := Rename(db, o, n, at);
    if status.Done? {
      var k :| k in db.links && Live(db.links[k], o);
      assert Live(r.links[k], n);
      assert r.links.Keys == db.links.Keys;
    }
  }

  /** A code that a deletion freed can be renamed to; a row kept by a soft deletion stays as it is. */
  lemma FreedCodeCanBeTaken(db: Db, o: string, n: string, hard: bool, at: int, id: nat)
    requires Valid(db) && o != n && id in db.links && Live(db.links[id], o)
    ensures var d := Delete(db, n, hard).0;
      var (r, status) := Rename(d, o, n, at);
      && Valid(d) && status.Done? && Valid(r) && Find(r.links, n) == Some(db.links[id].(code := n, updatedAt := at))
      && forall k | k in d.links && k != id :: r.links[k] == d.links[k]
  {
    hide Delete, Rename, HasLive, Find, IdsBounded;
    var d := Delete(db, n, hard).0;
    DeleteLaw(db, n, hard);
    UniqueKept(db.links, d.links);
    DeleteIds(db, n, hard);
    LiveAt(d.links, o, id);
    RenameMoves(d, o, n, at, id);
    RenameOthers(d, o, n, at, id);
    LiveAt(Rename(d, o, n, at).0.links, n, id);
  }

  lemma DeleteIds(db: Db, code: string, hard: bool)
    requires IdsBounded(db)
    ensures IdsBounded(Delete(db, code, hard).0)
  {
  }

  lemma LiveAt(links: map<nat, Link>, code: string, id: nat)
    requires id in links && Live(links[id], code)
    ensures HasLive(links, code)
    ensures UniqueLive(links) ==> Find(links, code) == Some(links[id])
  {
  }

  lemma RenameOthers(db: Db, o: string, n: string, at: int, id: nat)
    requires Valid(db) && id in db.links && Live(db.links[id], o) && Rename(db, o, n, at).1.Done?
    ensures var r := Rename(db, o, n, at).0;
      Valid(r) && forall k | k in db.links && k != id :: k in r.links && r.links[k] == db.links[k]
  {
    if o == n || !HasLive(db.links, n) {
      UniqueAfterRename(db.links, o, n, at);
    }
  }

  // ---- deleting ----

  /** A deletion reports success exactly for a code in use. The code is free then,
      its row is gone or flagged, and every other row is as it was. */
  lemma DeleteLaw(db: Db, code: string, hard: bool)
    ensures var (r, status) := Delete(db, code, hard);
      && (status.Done? <==> HasLive(db.links, code)) && (status.NotFound? <==> !HasLive(db.links, code))
      && !HasLive(r.links, code)
      && (forall id :: id in r.links <==> id in db.links && !(hard && Live(db.links[id], code)))
      && (forall id | id in r.links :: r.links[id] == if Live(db.links[id], code) then db.links[id].(deleted := true) else db.links[id])
      && r == db.(links := r.links)
  {
  }

  predicate Listed(row: Link, codes: seq<string>) {
    !row.deleted && row.code in codes
  }

  /** Of the rows live under one of the codes nothing is left, or a flagged row;
      every other row is as it was. */
  ghost predicate Emptied(before: map<nat, Link>, after: map<nat, Link>, codes: seq<string>, hard: bool) {
    && (forall id :: id in after <==> id in before && !(hard && Listed(before[id], codes)))
    && (forall id | id in after :: after[id] == if Listed(before[id], codes) then before[id].(deleted := true) else before[id])
  }

  lemma EmptiedTwice(a: map<nat, Link>, b: map<nat, Link>, c: map<nat, Link>, codes: seq<string>, hard: bool)
    requires codes != [] && Emptied(a, b, [codes[0]], hard) && Emptied(b, c, codes[1..], hard)
    ensures Emptied(a, c, codes, hard)
  {
    assert codes == [codes[0]] + codes[1..];
    forall id | id in a ensures Listed(a[id], codes) <==> Listed(a[id], [codes[0]]) || Listed(a[id], codes[1..]) {
    }
  }

  /** Deleting many: no listed code is in use afterwards, rows live under one of them
      are gone or flagged, every other row is as it was, and the number reported is
      the number of links that are live no more. */
  lemma {:induction false} DeleteManyLaw(db: Db, codes: seq<string>, hard: bool)
    requires Valid(db)
    ensures var (r, n) := DeleteMany(db, codes, hard);
      && (forall code | code in codes :: !HasLive(r.links, code))
      && Emptied(db.links, r.links, codes, hard) && r == db.(links := r.links)
      && n == |LiveSet(db.links)| - |LiveSet(r.links)|
    decreases |codes|
  {
    var r := DeleteMany(db, codes, hard).0;
    if codes != [] {
      hide Delete, HasLive, Emptied;
      var next := Delete(db, codes[0], hard).0;
      DeleteOne(db, codes[0], hard);
      DeletedCount(db, codes[0], hard);
      DeleteManyLaw(next, codes[1..], hard);
      EmptiedTwice(db.links, next.links, r.links, codes, hard);
    }
    EmptiedIsFree(db.links, r.links, codes, hard);
  }

  lemma DeleteOne(db: Db, code: string, hard: bool)
    requires Valid(db)
    ensures var r := Delete(db, code, hard).0;
      Valid(r) && Emptied(db.links, r.links, [code], hard) && r == db.(links := r.links)
  {
    hide Delete;
    DeleteLaw(db, code, hard);
    DeleteIds(db, code, hard);
    UniqueKept(db.links, Delete(db, code, hard).0.links);
  }

  lemma EmptiedIsFree(before: map<nat, Link>, after: map<nat, Link>, codes: seq<string>, hard: bool)
    requires Emptied(before, after, codes, hard)
    ensures forall code | code in codes :: !HasLive(after, code)
  {
  }

  lemma DeletedCount(db: Db, code: string, hard: bool)
    requires Valid(db)
    ensures var (r, status) := Delete(db, code, hard);
      |LiveSet(db.links)| - |LiveSet(r.links)| == if status.Done? then 1 else 0
  {
    hide Delete;
    DeleteLaw(db, code, hard);
    var r := Delete(db, code, hard).0;
    if HasLive(db.links, code) {
      var id :| id in db.links && Live(db.links[id], code);
      forall k | k in db.links && Live(db.links[k], code) ensures k == id {
      }
      assert LiveSet(r.links) == LiveSet(db.links) - {id};
    } else {
      assert forall k | k in db.links :: !Live(db.links[k], code);
      assert LiveSet(r.links) == LiveSet(db.links);
    }
  }

  /** The sweep takes the expired live rows away, or flags them, and no others. */
  lemma SweepLaw(db: Db, now: int, hard: bool)
    ensures var (r, n) := DeleteExpired(db, now, hard);
      && (forall id :: id in r.links <==> id in db.links && !(hard && !db.links[id].deleted && 0 < db.links[id].expiresAt < now))
      && (forall id | id in r.links ::
            r.links[id] == if !db.links[id].deleted && 0 < db.links[id].expiresAt < now then db.links[id].(deleted := true) else db.links[id])
      && r == db.(links := r.links)
      && n == |LiveSet(db.links)| - |LiveSet(r.links)|
  {
    SweepCount(db.links, DeleteExpired(db, now, hard).0.links, ExpiredIds(db.links, now));
  }

  lemma SweepCount(before: map<nat, Link>, after: map<nat, Link>, doomed: set<nat>)
    requires doomed <= LiveSet(before)
    requires forall id :: id in LiveSet(after) <==> id in LiveSet(before) && id !in doomed
    ensures |doomed| == |LiveSet(before)| - |LiveSet(after)|
  {
    assert LiveSet(before) == LiveSet(after) + doomed;
  }

  // ---- counting ----

  /** A flush gives a live row the positive total of its code and the time, and leaves
      every other field and row. */
  lemma TotalsLaw(links: map<nat, Link>, totals: map<string, int>, now: int, id: nat)
    requires id in links
    ensures var was, r := links[id], ApplyTotals(links, totals, now);
      && r.Keys == links.Keys
      && r[id] == (if !was.deleted && was.code in totals && totals[was.code] > 0
                   then was.(clickCount := was.clickCount + totals[was.code], updatedAt := now) else was)
  {
  }

  // ---- snapshots ----

  /** The live row that a snapshot was taken of. */
  function RowOf(s: Snapshot): Link {
    Link(s.linkId, s.code, s.url, s.title, s.description, s.expiresAt, s.clickCount, s.createdAt, s.updatedAt, false)
  }

  /** A snapshot gives its row back, and says when it was taken. */
  lemma SnapshotGivesRowBack(l: Link, at: int)
    requires !l.deleted
    ensures RowOf(SnapshotOf(l, at)) == l && SnapshotOf(l, at).backedAt == at
  {
  }
}
