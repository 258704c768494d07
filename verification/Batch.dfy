/** Batch import (internal/api/batch.go): the phased handler and the one-by-one
    reading of it, proved to be the same. */
module Batch {
  import opened Tables
  import Counts
  import CS = CachedStore
  import ShortCode
  import Store

  const MAX_DESCRIPTION := 500

  datatype Policy = Fail | Skip | Refresh

  /** The conflict field of the request; no field at all reads as the empty text. */
  function PolicyOf(conflict: string): Option<Policy> {
    if conflict == "" || conflict == "error" then Some(Fail)
    else if conflict == "skip" then Some(Skip)
    else if conflict == "update" then Some(Refresh)
    else None
  }

  /** What url.Parse, the configuration, the random generator and the clock say about an item. */
  datatype Facts = Facts(
    absolute: bool, selfLink: bool, selfRoot: bool, reserved: bool, generated: Option<string>, backedAt: int, editedAt: int)

  datatype Item = Item(
    url: string, code: string, title: string, description: string,
    expiresAt: Option<int>, createdAt: Option<int>, deleted: bool, facts: Facts)

  datatype Resolved = Code(code: string) | Refused(error: string)

  /** What is reported for one item. */
  datatype Outcome =
    | Created(code: string, id: nat)
    | Updated(code: string)
    | Skipped(code: string)
    | Failed(code: string, error: string)

  /** The request as a whole: its policy, its time, and the backup setting. */
  datatype Request = Request(policy: Policy, now: int, backupOnEdit: bool)

  /** resolveCode and the self-root check after it, in their order. */
  function Resolve(item: Item): Resolved {
    if !item.facts.absolute then Refused("invalid_request")
    else if item.facts.selfLink then Refused("self_link_target")
    else if |item.description| > MAX_DESCRIPTION then Refused("description_too_long")
    else if item.expiresAt.Some? && item.expiresAt.value < 0 then Refused("invalid_request")
    else if item.code == "" && item.facts.generated.None? then Refused("internal_error")
    else if item.code != "" && !ShortCode.ValidCode(item.code) then Refused("invalid_code")
    else if item.code != "" && item.facts.reserved then Refused("reserved_code")
    else
      var code := if item.code == "" then item.facts.generated.value else item.code;
      if code == "/" && item.facts.selfRoot then Refused("self_root_target") else Code(code)
  }

  function NewRow(item: Item, code: string, now: int): Link {
    Link(0, code, item.url, item.title, item.description,
         if item.expiresAt.Some? then item.expiresAt.value else 0, 0,
         if item.createdAt.Some? then item.createdAt.value else now, now, false)
  }

  /** The existing row with the imported fields laid over it. */
  function Merged(l: Link, item: Item): Link {
    l.(url := item.url,
       title := if item.title != "" then item.title else l.title,
       description := if item.description != "" then item.description else l.description,
       expiresAt := if item.expiresAt.Some? then item.expiresAt.value else l.expiresAt,
       createdAt := if item.createdAt.Some? then item.createdAt.value else l.createdAt,
       updatedAt := item.facts.editedAt)
  }

  ghost function BackedUp(db: Db, l: Link, at: int): Db {
    db.(backups := db.backups[MaxKey(db.backups.Keys) + 1 := SnapshotOf(l, at)])
  }

  /** applyConflictUpdate: snapshot the live row, then write the merged one. */
  ghost function ConflictUpdate(db: Db, item: Item, code: string, backup: bool): (Db, bool)
    requires UniqueLive(db.links)
  {
    match Find(db.links, code)
    case None => (db, false)
    case Some(l) =>
      var kept := if backup then BackedUp(db, l, item.facts.backedAt) else db;
      var (r, status) := Update(kept, Merged(l, item));
      (r, status.Done?)
  }

  // ---- one item after another ----

  /** An item whose code is already settled: create it, or resolve the conflict. */
  ghost function PlaceOne(db: Db, item: Item, code: string, req: Request): (Db, Outcome)
    requires UniqueLive(db.links)
  {
    var (r, status) := Create(db, NewRow(item, code, req.now));
    if status.Done? then (r, Created(code, r.lastId)) else OnConflict(db, item, code, req)
  }

  ghost function OnConflict(db: Db, item: Item, code: string, req: Request): (Db, Outcome)
    requires UniqueLive(db.links)
  {
    match req.policy
    case Refresh =>
      var (r, ok) := ConflictUpdate(db, item, code, req.backupOnEdit);
      (r, if ok then Updated(code) else Failed(code, "internal_error"))
    case Skip => (db, Skipped(code))
    case Fail => (db, Failed(code, "code_taken"))
  }

  ghost function ImportOne(db: Db, item: Item, req: Request): (Db, Outcome)
    requires UniqueLive(db.links)
  {
    if item.deleted then (db, Skipped(item.code))
    else match Resolve(item)
      case Refused(error) => (db, Failed(item.code, error))
      case Code(code) => PlaceOne(db, item, code, req)
  }

  /** The import as its users read it: the items one at a time, in order. */
  ghost function OneByOne(db: Db, items: seq<Item>, req: Request): (r: (Db, seq<Outcome>))
    requires Valid(db)
    ensures |r.1| == |items| && Valid(r.0)
    decreases |items|
  {
    if items == [] then (db, []) else
      ImportValid(db, items[0], req);
      var (next, out) := ImportOne(db, items[0], req);
      var (last, outs) := OneByOne(next, items[1..], req);
      (last, [out] + outs)
  }

  // ---- the handler's phases ----

  datatype Pending = Pending(index: nat, item: Item, code: string)

  datatype Line = Line(index: nat, outcome: Outcome)

  predicate Early(item: Item) {
    item.deleted || Resolve(item).Refused?
  }

  function EarlyOutcome(item: Item): Outcome
    requires Early(item)
  {
    if item.deleted then Skipped(item.code) else Failed(item.code, Resolve(item).error)
  }

  /** Lines written while validating, numbered from n. */
  function EarlyLines(items: seq<Item>, n: nat): seq<Line> {
    if items == [] then [] else
      (if Early(items[0]) then [Line(n, EarlyOutcome(items[0]))] else []) + EarlyLines(items[1..], n + 1)
  }

  function Pendings(items: seq<Item>, n: nat): seq<Pending> {
    if items == [] then [] else
      (if Early(items[0]) then [] else [Pending(n, items[0], Resolve(items[0]).code)]) + Pendings(items[1..], n + 1)
  }

  function Rows(ps: seq<Pending>, now: int): (rows: seq<Link>)
    ensures |rows| == |ps|
  {
    if ps == [] then [] else [NewRow(ps[0].item, ps[0].code, now)] + Rows(ps[1..], now)
  }

  /** After the one insert transaction: report the new rows, settle the conflicts. */
  ghost function Settle(db: Db, ps: seq<Pending>, ids: seq<Option<nat>>, req: Request): (r: (Db, seq<Line>))
    requires Valid(db) && |ids| == |ps|
    ensures Valid(r.0)
    decreases |ps|
  {
    if ps == [] then (db, []) else
      ConflictValid(db, ps[0].item, ps[0].code, req);
      var (next, out) := if ids[0].Some? then (db, Created(ps[0].code, ids[0].value)) else OnConflict(db, ps[0].item, ps[0].code, req);
      var (last, lines) := Settle(next, ps[1..], ids[1..], req);
      (last, [Line(ps[0].index, out)] + lines)
  }

  lemma ConflictValid(db: Db, item: Item, code: string, req: Request)
    requires Valid(db)
    ensures Valid(OnConflict(db, item, code, req).0)
  {
    hide ShortCode.ValidCode;
    if HasLive(db.links, code) {
      var l := Find(db.links, code).value;
      UniqueKept(db.links, SetWhere(db.links, Merged(l, item).code, Edited(Merged(l, item))));
    }
  }

  lemma PlaceValid(db: Db, item: Item, code: string, req: Request)
    requires Valid(db)
    ensures Valid(PlaceOne(db, item, code, req).0)
  {
    hide OnConflict;
    if HasLive(db.links, code) {
      ConflictValid(db, item, code, req);
    } else {
      UniqueAfterInsert(db.links, db.lastId + 1, NewRow(item, code, req.now).(id := db.lastId + 1, deleted := false));
    }
  }

  lemma ImportValid(db: Db, item: Item, req: Request)
    requires Valid(db)
    ensures Valid(ImportOne(db, item, req).0)
  {
    hide PlaceOne, ShortCode.ValidCode;
    if !Early(item) {
      PlaceValid(db, item, Resolve(item).code, req);
    }
  }

  // ---- inserting first and updating later changes nothing ----

  /** A conflict update of a live code seen row by row. */
  lemma UpdateAt(db: Db, item: Item, code: string, backup: bool, id: nat)
    requires Valid(db) && id in db.links && Live(db.links[id], code)
    ensures var l := db.links[id];
      var kept := if backup then BackedUp(db, l, item.facts.backedAt) else db;
      ConflictUpdate(db, item, code, backup) == (kept.(links := db.links[id := Edited(Merged(l, item))(l)]), true)
  {
    var l := db.links[id];
    assert Find(db.links, code) == Some(l);
    assert SetWhere(db.links, code, Edited(Merged(l, item))) == db.links[id := Edited(Merged(l, item))(l)];
  }

  /** The row has every field the item gives. */
  predicate TakesFields(row: Link, item: Item) {
    && row.url == item.url
    && (item.title != "" ==> row.title == item.title)
    && (item.description != "" ==> row.description == item.description)
    && (item.expiresAt.Some? ==> row.expiresAt == item.expiresAt.value)
    && (item.createdAt.Some? ==> row.createdAt == item.createdAt.value)
  }

  /** A conflict update gives the existing link the item's fields if and only if the
      item gives no creation time or the one the link has: that time never moves. */
  lemma UpdateTakesFieldsIff(db: Db, item: Item, code: string, backup: bool, id: nat)
    requires Valid(db) && id in db.links && Live(db.links[id], code)
    ensures var r := ConflictUpdate(db, item, code, backup).0;
      && id in r.links && r.links[id].createdAt == db.links[id].createdAt
      && (TakesFields(r.links[id], item) <==> item.createdAt.None? || item.createdAt.value == db.links[id].createdAt)
      && (r.links[id].createdAt == Merged(db.links[id], item).createdAt
          <==> item.createdAt.None? || item.createdAt.value == db.links[id].createdAt)
  {
    UpdateAt(db, item, code, backup, id);
  }

  /** An item that is reported as updated and whose creation time the link does not take. */
  lemma CreatedAtNotTaken() returns (db: Db, item: Item)
    ensures Valid(db) && Resolve(item) == Code("a") && item.createdAt == Some(5)
    ensures var (r, out) := ImportOne(db, item, Request(Refresh, 9, false));
      out == Updated("a") && 1 in r.links && Live(r.links[1], "a") && r.links[1].createdAt == 7
  {
    var link := Link(1, "a", "https://old", "", "", 0, 0, 7, 7, false);
    db := Db(map[1 := link], map[], 1, map[]);
    item := Item("https://new", "a", "", "", None, Some(5), false, Facts(true, false, false, false, None, 9, 9));
    ShortCode.RandomCodesAreValid("a");
    assert Live(db.links[1], "a");
    UpdateAt(db, item, "a", false, 1);
  }

  lemma UpdateThenCreate(db: Db, item: Item, code: string, backup: bool, row: Link)
    requires Valid(db) && HasLive(db.links, code)
    ensures var u := ConflictUpdate(db, item, code, backup).0;
      var (c, status) := Create(db, row);
      && Valid(u) && Valid(c) && HasLive(c.links, code)
      && Create(u, row) == (ConflictUpdate(c, item, code, backup).0, status)
  {
    hide ConflictUpdate, Insert, Edited, Merged;
    var id :| id in db.links && Live(db.links[id], code);
    ConflictValid(db, item, code, Request(Refresh, 0, backup));
    UpdateAt(db, item, code, backup, id);
    UpdateKeepsCodes(db, item, code, backup, row.code);
    if !HasLive(db.links, row.code) {
      UpdateThenInsert(db, item, code, backup, row, id);
    }
  }

  lemma UpdateThenInsert(db: Db, item: Item, code: string, backup: bool, row: Link, id: nat)
    requires Valid(db) && id in db.links && Live(db.links[id], code) && !HasLive(db.links, row.code)
    ensures var c := Insert(db, row);
      && Valid(c) && HasLive(c.links, code)
      && Insert(ConflictUpdate(db, item, code, backup).0, row) == ConflictUpdate(c, item, code, backup).0
  {
    hide ConflictUpdate, Edited, Merged, MaxKey, ShortCode.ValidCode, SetWhere, UniqueLive;
    var c := Insert(db, row);
    UniqueAfterInsert(db.links, db.lastId + 1, row.(id := db.lastId + 1, deleted := false));
    assert id != db.lastId + 1;
    assert Live(c.links[id], code);
    UpdateAt(db, item, code, backup, id);
    UpdateAt(c, item, code, backup, id);
    var e := Edited(Merged(db.links[id], item))(db.links[id]);
    var added := row.(id := db.lastId + 1, deleted := false);
    assert db.links[id := e][db.lastId + 1 := added] == db.links[db.lastId + 1 := added][id := e];
  }

  lemma UpdateKeepsCodes(db: Db, item: Item, code: string, backup: bool, other: string)
    requires Valid(db) && HasLive(db.links, code)
    ensures HasLive(ConflictUpdate(db, item, code, backup).0.links, other) <==> HasLive(db.links, other)
  {
    hide ConflictUpdate;
    var id :| id in db.links && Live(db.links[id], code);
    UpdateAt(db, item, code, backup, id);
    SameCodes(db.links, id, ConflictUpdate(db, item, code, backup).0.links, other);
  }

  lemma SameCodes(links: map<nat, Link>, id: nat, after: map<nat, Link>, code: string)
    requires id in links && after.Keys == links.Keys
    requires forall i | i in links :: after[i].code == links[i].code && after[i].deleted == links[i].deleted
    ensures HasLive(after, code) <==> HasLive(links, code)
  {
    if HasLive(links, code) {
      var i :| i in links && Live(links[i], code);
      assert Live(after[i], code);
    }
  }

  lemma {:induction false} UpdateThenCreateMany(db: Db, item: Item, code: string, backup: bool, rows: seq<Link>)
    requires Valid(db) && HasLive(db.links, code)
    ensures var u := ConflictUpdate(db, item, code, backup).0;
      var (c, ids) := CreateMany(db, rows);
      && Valid(c)
      && CreateMany(u, rows) == (ConflictUpdate(c, item, code, backup).0, ids)
    decreases |rows|
  {
    hide ConflictUpdate, Create, HasLive;
    if rows != [] {
      UpdateThenCreate(db, item, code, backup, rows[0]);
      UpdateThenCreateMany(Create(db, rows[0]).0, item, code, backup, rows[1..]);
      CreateKeepsIds(db, rows[0]);
      CreateKeepsIds(ConflictUpdate(db, item, code, backup).0, rows[0]);
      UpdateKeepsLastId(Create(db, rows[0]).0, item, code, backup);
    }
  }

  lemma CreateKeepsIds(db: Db, row: Link)
    ensures Create(db, row).0.lastId == db.lastId + if Create(db, row).1.Done? then 1 else 0
  {
  }

  lemma UpdateKeepsLastId(db: Db, item: Item, code: string, backup: bool)
    requires UniqueLive(db.links)
    ensures ConflictUpdate(db, item, code, backup).0.lastId == db.lastId
  {
  }

  /** One item after another, for items whose codes are settled. */
  ghost function Place(db: Db, ps: seq<Pending>, req: Request): (r: (Db, seq<Line>))
    requires Valid(db)
    decreases |ps|
  {
    if ps == [] then (db, []) else
      PlaceValid(db, ps[0].item, ps[0].code, req);
      var (next, out) := PlaceOne(db, ps[0].item, ps[0].code, req);
      var (last, lines) := Place(next, ps[1..], req);
      (last, [Line(ps[0].index, out)] + lines)
  }

  /** The heart of it: one transaction of inserts followed by the conflict
      updates leaves the same links, ids and backups and the same outcomes as
      placing the items in turn, repeated codes included. */
  lemma {:induction false} PhasesCommute(db: Db, ps: seq<Pending>, req: Request)
    requires Valid(db)
    ensures var (c, ids) := CreateMany(db, Rows(ps, req.now));
      Valid(c) && Settle(c, ps, ids, req) == Place(db, ps, req)
    decreases |ps|
  {
    hide ConflictUpdate, HasLive, IdsBounded;
    CS.CreateManyValid(db, Rows(ps, req.now));
    if ps != [] {
      var p, rest := ps[0], ps[1..];
      PlaceValid(db, p.item, p.code, req);
      var (next, out) := PlaceOne(db, p.item, p.code, req);
      PhasesCommute(next, rest, req);
      if HasLive(db.links, p.code) && req.policy.Refresh? {
        UpdateThenCreateMany(db, p.item, p.code, req.backupOnEdit, Rows(rest, req.now));
        UpdateSucceeds(db, p.item, p.code, req.backupOnEdit);
        StillLive(db, p.code, Rows(rest, req.now));
        UpdateSucceeds(CreateMany(db, Rows(rest, req.now)).0, p.item, p.code, req.backupOnEdit);
      }
    }
  }

  lemma UpdateSucceeds(db: Db, item: Item, code: string, backup: bool)
    requires Valid(db) && HasLive(db.links, code)
    ensures ConflictUpdate(db, item, code, backup).1
  {
    var id :| id in db.links && Live(db.links[id], code);
    UpdateAt(db, item, code, backup, id);
  }

  lemma {:induction false} StillLive(db: Db, code: string, rows: seq<Link>)
    requires Valid(db) && HasLive(db.links, code)
    ensures Valid(CreateMany(db, rows).0) && HasLive(CreateMany(db, rows).0.links, code)
    decreases |rows|
  {
    CS.CreateManyValid(db, rows);
    if rows != [] {
      CS.CreateManyValid(db, [rows[0]]);
      var id :| id in db.links && Live(db.links[id], code);
      assert Live(Create(db, rows[0]).0.links[id], code);
      assert CreateMany(db, [rows[0]]).0 == Create(db, rows[0]).0 by { assert [rows[0]][1..] == []; }
      StillLive(Create(db, rows[0]).0, code, rows[1..]);
    }
  }

  // ---- from pending items back to the request ----

  function Numbered(outs: seq<Outcome>, n: nat): (lines: seq<Line>)
    ensures |lines| == |outs|
    ensures forall i | 0 <= i < |lines| :: lines[i] == Line(n + i, outs[i])
  {
    if outs == [] then [] else [Line(n, outs[0])] + Numbered(outs[1..], n + 1)
  }

  /** Items refused while validating never touch the tables, so leaving them out
      of the placing changes nothing but the order of the lines. */
  lemma {:induction false} EarlyItemsStandAside(db: Db, items: seq<Item>, n: nat, req: Request)
    requires Valid(db)
    ensures var (one, outs) := OneByOne(db, items, req);
      var (placed, lines) := Place(db, Pendings(items, n), req);
      one == placed && multiset(Numbered(outs, n)) == multiset(EarlyLines(items, n)) + multiset(lines)
    decreases |items|
  {
    if items != [] {
      hide PlaceOne, Resolve, IdsBounded, ImportOne, EarlyLines, Pendings, Numbered, Place;
      ImportValid(db, items[0], req);
      var (next, out) := ImportOne(db, items[0], req);
      EarlyItemsStandAside(next, items[1..], n + 1, req);
      OneLineMore(db, items, n, req);
      NumberedMore(out, OneByOne(next, items[1..], req).1, n);
    }
  }

  lemma NumberedMore(out: Outcome, outs: seq<Outcome>, n: nat)
    ensures Numbered([out] + outs, n) == [Line(n, out)] + Numbered(outs, n + 1)
  {
    assert ([out] + outs)[1..] == outs;
  }

  /** The first item adds its line to one of the two lists and nothing to the other. */
  lemma OneLineMore(db: Db, items: seq<Item>, n: nat, req: Request)
    requires Valid(db) && items != []
    ensures var (next, out) := ImportOne(db, items[0], req);
      && Valid(next)
      && var (placed, lines) := Place(db, Pendings(items, n), req);
         var (placed', lines') := Place(next, Pendings(items[1..], n + 1), req);
         var early, early' := EarlyLines(items, n), EarlyLines(items[1..], n + 1);
         placed == placed' && if Early(items[0]) then early == [Line(n, out)] + early' && lines == lines'
                              else early == early' && lines == [Line(n, out)] + lines'
  {
    hide PlaceOne, Resolve, IdsBounded;
    ImportValid(db, items[0], req);
    if Early(items[0]) {
      assert [] + Pendings(items[1..], n + 1) == Pendings(items[1..], n + 1);
    } else {
      assert [] + EarlyLines(items[1..], n + 1) == EarlyLines(items[1..], n + 1);
      assert Pendings(items, n)[1..] == Pendings(items[1..], n + 1);
    }
  }

  // ---- the reply is sorted back into request order ----

  predicate SortedByIndex(lines: seq<Line>) {
    |lines| <= 1 || (lines[0].index <= lines[1].index && SortedByIndex(lines[1..]))
  }

  function Place1(line: Line, sorted: seq<Line>): (r: seq<Line>)
    requires SortedByIndex(sorted)
    ensures SortedByIndex(r) && multiset(r) == multiset{line} + multiset(sorted)
    ensures r != [] && (r[0] == line || (sorted != [] && r[0] == sorted[0]))
  {
    if sorted == [] || line.index <= sorted[0].index then
      [line] + sorted
    else
      assert sorted == [sorted[0]] + sorted[1..];
      [sorted[0]] + Place1(line, sorted[1..])
  }

  /** sort.SliceStable by index. */
  function Sorted(lines: seq<Line>): (r: seq<Line>)
    ensures SortedByIndex(r) && multiset(r) == multiset(lines)
  {
    if lines == [] then [] else
      assert lines == [lines[0]] + lines[1..];
      Place1(lines[0], Sorted(lines[1..]))
  }

  lemma {:induction false} HeadIsLeast(sorted: seq<Line>, j: nat)
    requires SortedByIndex(sorted) && j < |sorted|
    ensures sorted[0].index <= sorted[j].index
  {
    if j > 0 {
      HeadIsLeast(sorted[1..], j - 1);
    }
  }

  lemma SortedHead(sorted: seq<Line>, want: seq<Line>, n: nat)
    requires SortedByIndex(sorted) && multiset(sorted) == multiset(want) && want != []
    requires forall i | 0 <= i < |want| :: want[i].index == n + i
    ensures sorted != [] && sorted[0] == want[0]
  {
    assert want[0] in multiset(sorted);
    var k :| 0 <= k < |sorted| && sorted[k] == want[0];
    HeadIsLeast(sorted, k);
    assert sorted[0] in multiset(want);
    var i :| 0 <= i < |want| && want[i] == sorted[0];
  }

  lemma SameTails<T>(a: seq<T>, b: seq<T>)
    requires a != [] && b != [] && a[0] == b[0] && multiset(a) == multiset(b)
    ensures multiset(a[1..]) == multiset(b[1..])
  {
    assert a == [a[0]] + a[1..] && b == [b[0]] + b[1..];
    assert multiset(a[1..]) == multiset(a) - multiset{a[0]};
    assert multiset(b[1..]) == multiset(b) - multiset{b[0]};
  }

  /** Numbered lines have one sorted order only. */
  lemma {:induction false} SortedIsNumbered(sorted: seq<Line>, outs: seq<Outcome>, n: nat)
    requires SortedByIndex(sorted) && multiset(sorted) == multiset(Numbered(outs, n))
    ensures sorted == Numbered(outs, n)
    decreases |outs|
  {
    var want := Numbered(outs, n);
    if outs == [] {
      assert |sorted| == |multiset(sorted)|;
    } else {
      SortedHead(sorted, want, n);
      SameTails(sorted, want);
      assert want[1..] == Numbered(outs[1..], n + 1);
      SortedIsNumbered(sorted[1..], outs[1..], n + 1);
    }
  }

  /** The whole import: phases and final sort give what one item after another gives. */
  lemma ImportIsOneByOne(db: Db, items: seq<Item>, req: Request)
    requires Valid(db)
    ensures var ps := Pendings(items, 0);
      var (c, ids) := CreateMany(db, Rows(ps, req.now));
      && Valid(c)
      && var (after, late) := Settle(c, ps, ids, req);
         var (one, outs) := OneByOne(db, items, req);
         after == one && Sorted(EarlyLines(items, 0) + late) == Numbered(outs, 0)
  {
    hide OneByOne, Settle, Place, Pendings, EarlyLines, Numbered, Sorted, CreateMany;
    PhasesCommute(db, Pendings(items, 0), req);
    EarlyItemsStandAside(db, items, 0, req);
    var (one, outs) := OneByOne(db, items, req);
    var late := Place(db, Pendings(items, 0), req).1;
    SortedIsNumbered(Sorted(EarlyLines(items, 0) + late), outs, 0);
  }

  // ---- the counters and code lists of the reply ----

  datatype Kind = KCreated | KUpdated | KSkipped | KFailed

  predicate Is(o: Outcome, kind: Kind) {
    match kind
    case KCreated => o.Created?
    case KUpdated => o.Updated?
    case KSkipped => o.Skipped?
    case KFailed => o.Failed?
  }

  function Codes(lines: seq<Line>, kind: Kind): seq<string> {
    if lines == [] then [] else CodeOf(lines[0], kind) + Codes(lines[1..], kind)
  }

  lemma {:induction false} CodesAppend(lines: seq<Line>, more: seq<Line>, kind: Kind)
    ensures Codes(lines + more, kind) == Codes(lines, kind) + Codes(more, kind)
  {
    if lines == [] {
      assert lines + more == more;
    } else {
      hide Codes, Is;
      CodesAppend(lines[1..], more, kind);
      assert (lines + more)[0] == lines[0] && (lines + more)[1..] == lines[1..] + more;
      CodesHead(lines, kind);
      CodesHead(lines + more, kind);
      Appended(CodeOf(lines[0], kind), Codes(lines[1..], kind), Codes(more, kind));
    }
  }

  function CodeOf(line: Line, kind: Kind): seq<string> {
    if Is(line.outcome, kind) then [line.outcome.code] else []
  }

  lemma CodesHead(lines: seq<Line>, kind: Kind)
    requires lines != []
    ensures Codes(lines, kind) == CodeOf(lines[0], kind) + Codes(lines[1..], kind)
  {
  }

  lemma Appended<T>(a: seq<T>, b: seq<T>, c: seq<T>)
    ensures a + (b + c) == a + b + c
  {
  }

  /** Sorting the lines shuffles a code list but loses none of it. */
  lemma {:induction false} CodesPermute(a: seq<Line>, b: seq<Line>, kind: Kind)
    requires multiset(a) == multiset(b)
    ensures multiset(Codes(a, kind)) == multiset(Codes(b, kind))
    decreases |a|
  {
    if a == [] {
      assert |b| == |multiset(b)|;
    } else {
      hide Codes, CodeOf;
      var j := Counts.HeadIn(a, b);
      CodesPermute(a[1..], b[..j] + b[j + 1..], kind);
      CodesHead(a, kind);
      CodesWithout(b, j, kind);
    }
  }

  lemma CodesWithout(b: seq<Line>, j: nat, kind: Kind)
    requires j < |b|
    ensures multiset(Codes(b, kind)) == multiset(CodeOf(b[j], kind)) + multiset(Codes(b[..j] + b[j + 1..], kind))
  {
    hide Codes, CodeOf;
    var tail := b[j..];
    assert b == b[..j] + tail && tail[1..] == b[j + 1..];
    CodesAppend(b[..j], tail, kind);
    CodesHead(tail, kind);
    CodesAppend(b[..j], b[j + 1..], kind);
  }

  // ---- the handler ----

  const BATCH_LIMIT := 500

  /** GetLink on a coherent store answers with the live row. */
  method LiveRow(store: Store.LinkStore, code: string, t: int) returns (l: Store.LinkRef?)
    requires Valid(store.db) && CS.Coherent(store.Abs())
    modifies store.cache
    ensures CS.Coherent(store.Abs())
    ensures (if l == null then None else Some(l.row)) == Find(store.db.links, code)
    ensures l != null ==> fresh(l) && l !in store.cache.Refs()
  {
    hide CS.Coherent, CS.Step, HasLive;
    CS.StepRefines(store.Abs(), CS.Get(code), t);
    l := store.GetLink(code, t);
  }

  method WriteRow(store: Store.LinkStore, l: Store.LinkRef, t: int) returns (status: Status)
    requires Valid(store.db) && CS.Coherent(store.Abs())
    modifies store`db, store.cache
    ensures (store.db, status) == Update(old(store.db), l.row)
    ensures l.row == old(l.row)
    ensures Valid(store.db) && CS.Coherent(store.Abs())
  {
    hide CS.Coherent, CS.Step, Update;
    CS.StepRefines(store.Abs(), CS.Update(l.row), t);
    status := store.UpdateLink(l, t);
  }

  method Snapshot(store: Store.LinkStore, l: Store.LinkRef, at: int)
    requires Valid(store.db) && CS.Coherent(store.Abs())
    modifies store`db
    ensures store.db == BackedUp(old(store.db), l.row, at)
    ensures Valid(store.db) && CS.Coherent(store.Abs())
  {
    ghost var s := store.Abs();
    var _ := store.BackupLink(l, at);
    BackupCoherent(s, store.db);
  }

  /** applyConflictUpdate on the live store: what it reads may come from the cache. */
  method ApplyConflict(store: Store.LinkStore, item: Item, code: string, backup: bool, t: int) returns (ok: bool)
    requires Valid(store.db) && CS.Coherent(store.Abs())
    modifies store`db, store.cache
    ensures (store.db, ok) == ConflictUpdate(old(store.db), item, code, backup)
    ensures Valid(store.db) && CS.Coherent(store.Abs())
  {
    hide Update, Merged, CS.Coherent, BackedUp, Valid, HasLive;
    var l := LiveRow(store, code, t);
    if l == null {
      return false;
    }
    ghost var row := l.row;
    if backup {
      Snapshot(store, l, item.facts.backedAt);
    }
    ghost var s := store.Abs();
    l.row := Merged(l.row, item);
    assert store.Abs() == s;
    var status := WriteRow(store, l, t);
    ok := status.Done?;
  }

  lemma BackupCoherent(s: CS.State, db: Db)
    requires CS.Coherent(s) && Valid(s.db) && db == s.db.(backups := db.backups)
    ensures CS.Coherent(CS.State(db, s.entries)) && Valid(db)
  {
  }

  /** The first link that was created, with its id. */
  function FirstCreated(lines: seq<Line>): Option<(string, nat)> {
    if lines == [] then None
    else if lines[0].outcome.Created? then Some((lines[0].outcome.code, lines[0].outcome.id))
    else FirstCreated(lines[1..])
  }

  /** The reply: lines in request order, the four counts and the three code lists;
      and the first created link, for the log. */
  datatype Reply = BadRequest | ServerError | Reply(
    lines: seq<Line>, created: nat, failed: nat, skipped: nat, updated: nat,
    failedCodes: seq<string>, skippedCodes: seq<string>, updatedCodes: seq<string>,
    first: Option<(string, nat)>)

  /** The counts and lists are about these lines. What was updated, and what was
      created first, is told in their order; the other lists hold the right codes. */
  ghost predicate Tallied(r: Reply, lines: seq<Line>)
    requires r.Reply?
  {
    && r.created == |Codes(lines, KCreated)|
    && r.failed == |Codes(lines, KFailed)| && multiset(r.failedCodes) == multiset(Codes(lines, KFailed))
    && r.skipped == |Codes(lines, KSkipped)| && multiset(r.skippedCodes) == multiset(Codes(lines, KSkipped))
    && r.updated == |Codes(lines, KUpdated)| && r.updatedCodes == Codes(lines, KUpdated)
    && r.first == FirstCreated(lines)
  }

  function Count(r: Reply, line: Line): (n: Reply)
    requires r.Reply?
    ensures n.Reply?
  {
    var lines := r.lines + [line];
    match line.outcome
    case Created(code, id) => r.(lines := lines, created := r.created + 1, first := if r.first.None? then Some((code, id)) else r.first)
    case Updated(code) => r.(lines := lines, updated := r.updated + 1, updatedCodes := r.updatedCodes + [code])
    case Skipped(code) => r.(lines := lines, skipped := r.skipped + 1, skippedCodes := r.skippedCodes + [code])
    case Failed(code, _) => r.(lines := lines, failed := r.failed + 1, failedCodes := r.failedCodes + [code])
  }

  /** The lists before the sort: the codes of the lines written so far, in order. */
  ghost predicate Listed(r: Reply) {
    && r.Reply?
    && r.created == |Codes(r.lines, KCreated)|
    && r.failed == |Codes(r.lines, KFailed)| && r.failedCodes == Codes(r.lines, KFailed)
    && r.skipped == |Codes(r.lines, KSkipped)| && r.skippedCodes == Codes(r.lines, KSkipped)
    && r.updated == |Codes(r.lines, KUpdated)| && r.updatedCodes == Codes(r.lines, KUpdated)
    && r.first == FirstCreated(r.lines)
  }

  lemma CodesOne(lines: seq<Line>, line: Line, kind: Kind)
    ensures Codes(lines + [line], kind) == Codes(lines, kind) + if Is(line.outcome, kind) then [line.outcome.code] else []
  {
    CodesAppend(lines, [line], kind);
    assert [line][1..] == [];
  }

  lemma CountListed(r: Reply, line: Line)
    requires Listed(r)
    ensures Listed(Count(r, line))
  {
    hide Codes, FirstCreated;
    CodesOne(r.lines, line, KCreated);
    CodesOne(r.lines, line, KUpdated);
    CodesOne(r.lines, line, KSkipped);
    CodesOne(r.lines, line, KFailed);
    FirstOne(r.lines, line);
  }

  lemma {:induction false} FirstOne(lines: seq<Line>, line: Line)
    ensures FirstCreated(lines + [line])
         == if FirstCreated(lines).Some? then FirstCreated(lines)
            else if line.outcome.Created? then Some((line.outcome.code, line.outcome.id)) else None
  {
    if lines == [] {
      assert lines + [line] == [line] && [line][1..] == [];
    } else {
      assert (lines + [line])[0] == lines[0] && (lines + [line])[1..] == lines[1..] + [line];
      FirstOne(lines[1..], line);
    }
  }

  /** The lines that tell of a created or updated link. */
  function Done(lines: seq<Line>): seq<Line> {
    if lines == [] then []
    else (if lines[0].outcome.Created? || lines[0].outcome.Updated? then [lines[0]] else []) + Done(lines[1..])
  }

  lemma {:induction false} DoneTells(lines: seq<Line>)
    ensures Codes(lines, KUpdated) == Codes(Done(lines), KUpdated) && FirstCreated(lines) == FirstCreated(Done(lines))
  {
    if lines != [] {
      DoneTells(lines[1..]);
      if lines[0].outcome.Created? || lines[0].outcome.Updated? {
        assert Done(lines)[1..] == Done(lines[1..]);
      } else {
        assert [] + Done(lines[1..]) == Done(lines[1..]);
      }
    }
  }

  lemma {:induction false} DoneAppend(lines: seq<Line>, more: seq<Line>)
    ensures Done(lines + more) == Done(lines) + Done(more)
  {
    if lines == [] {
      assert lines + more == more;
    } else {
      assert (lines + more)[0] == lines[0] && (lines + more)[1..] == lines[1..] + more;
      DoneAppend(lines[1..], more);
    }
  }

  /** Nothing is created or updated early, and what is done later is done in request order. */
  lemma {:induction false} DoneInOrder(db: Db, items: seq<Item>, n: nat, req: Request)
    requires Valid(db)
    ensures Done(EarlyLines(items, n)) == []
    ensures Done(Place(db, Pendings(items, n), req).1) == Done(Numbered(OneByOne(db, items, req).1, n))
    decreases |items|
  {
    if items != [] {
      hide PlaceOne, Resolve, IdsBounded, ImportOne, EarlyLines, Pendings, Numbered, Place, Done;
      ImportValid(db, items[0], req);
      var (next, out) := ImportOne(db, items[0], req);
      var outs := OneByOne(next, items[1..], req).1;
      DoneInOrder(next, items[1..], n + 1, req);
      OneLineMore(db, items, n, req);
      NumberedMore(out, outs, n);
      DoneHead(Line(n, out), Numbered(outs, n + 1));
      DoneHead(Line(n, out), Place(next, Pendings(items[1..], n + 1), req).1);
      DoneHead(Line(n, out), EarlyLines(items[1..], n + 1));
      EarlyIsNotDone(db, items[0], req);
    }
  }

  lemma DoneHead(line: Line, lines: seq<Line>)
    ensures Done([line] + lines) == (if line.outcome.Created? || line.outcome.Updated? then [line] else []) + Done(lines)
    ensures [] + Done(lines) == Done(lines)
  {
    assert ([line] + lines)[1..] == lines;
  }

  lemma EarlyIsNotDone(db: Db, item: Item, req: Request)
    requires Valid(db)
    ensures Early(item) ==> !ImportOne(db, item, req).1.Created? && !ImportOne(db, item, req).1.Updated?
  {
    hide Resolve, PlaceOne;
  }

  /** So the order in which the phases write these lines is the order of the request. */
  lemma PhasesInOrder(db: Db, items: seq<Item>, req: Request)
    requires Valid(db)
    ensures Done(PhaseLines(db, items, req)) == Done(Numbered(OneByOne(db, items, req).1, 0))
  {
    hide OneByOne, Settle, Place, Pendings, EarlyLines, Numbered, CreateMany, Done;
    PhasesCommute(db, Pendings(items, 0), req);
    DoneInOrder(db, items, 0, req);
    var late := Place(db, Pendings(items, 0), req).1;
    DoneAppend(EarlyLines(items, 0), late);
    assert [] + Done(late) == Done(late);
  }

  lemma SortTallied(r: Reply)
    requires Listed(r) && Done(Sorted(r.lines)) == Done(r.lines)
    ensures Tallied(r, Sorted(r.lines))
  {
    hide Sorted, Codes, Done, FirstCreated;
    DoneTells(r.lines);
    DoneTells(Sorted(r.lines));
    forall kind ensures multiset(Codes(r.lines, kind)) == multiset(Codes(Sorted(r.lines), kind))
      && |Codes(r.lines, kind)| == |Codes(Sorted(r.lines), kind)| {
      CodesPermute(r.lines, Sorted(r.lines), kind);
      assert |multiset(Codes(r.lines, kind))| == |multiset(Codes(Sorted(r.lines), kind))|;
    }
  }

  /** The validation pass: early lines at once, the rest put aside. */
  method Screen(items: seq<Item>) returns (r: Reply, pending: seq<Pending>)
    ensures Listed(r)
    ensures r.lines == EarlyLines(items, 0) && pending == Pendings(items, 0)
  {
    hide Resolve, Codes, EarlyLines, Pendings, Listed;
    r, pending := Reply([], 0, 0, 0, 0, [], [], [], None), [];
    NothingListed(r);
    assert items[0..] == items;
    for i := 0 to |items|
      invariant Listed(r) && r.Reply?
      invariant EarlyLines(items, 0) == r.lines + EarlyLines(items[i..], i)
      invariant Pendings(items, 0) == pending + Pendings(items[i..], i)
    {
      ScreenStep(items[i..], i);
      assert items[i..][1..] == items[i + 1..];
      var item := items[i];
      if Early(item) {
        var line := Line(i, EarlyOutcome(item));
        CountListed(r, line);
        r := Count(r, line);
      } else {
        pending := pending + [Pending(i, item, Resolve(item).code)];
      }
    }
    assert items[|items|..] == [];
    NothingToScreen(|items|);
  }

  lemma ScreenStep(items: seq<Item>, n: nat)
    requires items != []
    ensures EarlyLines(items, n)
         == (if Early(items[0]) then [Line(n, EarlyOutcome(items[0]))] else []) + EarlyLines(items[1..], n + 1)
    ensures Pendings(items, n)
         == (if Early(items[0]) then [] else [Pending(n, items[0], Resolve(items[0]).code)]) + Pendings(items[1..], n + 1)
  {
  }

  lemma NothingToScreen(n: nat)
    ensures EarlyLines([], n) == [] && Pendings([], n) == []
  {
  }

  lemma NothingListed(r: Reply)
    requires r == Reply([], 0, 0, 0, 0, [], [], [], None)
    ensures Listed(r)
  {
  }

  /** The lines in the order they are written, before the sort. */
  ghost function PhaseLines(db: Db, items: seq<Item>, req: Request): seq<Line>
    requires Valid(db)
  {
    var ps := Pendings(items, 0);
    CS.CreateManyValid(db, Rows(ps, req.now));
    var (c, ids) := CreateMany(db, Rows(ps, req.now));
    EarlyLines(items, 0) + Settle(c, ps, ids, req).1
  }

  /** POST /api/v1/links/batch: screen, insert in one transaction, settle the
      conflicts, sort. Its effect and its reply are those of one item after another;
      if the insert transaction fails, nothing happens at all. */
  method BatchCreate(store: Store.LinkStore, items: seq<Item>, conflict: string, now: int, backupOnEdit: bool, commits: bool, t: int)
    returns (r: Reply)
    requires Valid(store.db) && CS.Coherent(store.Abs())
    modifies store`db, store.cache
    ensures r.BadRequest? <==> items == [] || |items| > 500 || PolicyOf(conflict).None?
    ensures r.ServerError? <==> !r.BadRequest? && !commits
    ensures !r.Reply? ==> store.Abs() == old(store.Abs())
    ensures r.Reply? ==>
      var req := Request(PolicyOf(conflict).value, now, backupOnEdit);
      var (after, outs) := OneByOne(old(store.db), items, req);
      && store.db == after && r.lines == Numbered(outs, 0) && Tallied(r, r.lines)
      && Listed(r.(lines := PhaseLines(old(store.db), items, req)))
    ensures Valid(store.db) && CS.Coherent(store.Abs())
  {
    if items == [] || |items| > BATCH_LIMIT || PolicyOf(conflict).None? {
      return BadRequest;
    }
    var req := Request(PolicyOf(conflict).value, now, backupOnEdit);
    hide OneByOne, Sorted, Codes, Listed, Tallied, CS.Coherent, Numbered, Valid, PhaseLines, PhaseDb, Done, FirstCreated;
    ImportIsOneByOne(store.db, items, req);
    PhasesInOrder(store.db, items, req);
    PhasesAre(store.db, items, req);
    r := RunPhases(store, items, req, commits, t);
    if !commits {
      return;
    }
    SortTallied(r);
    ListedIsReply(r);
    ghost var unsorted := r;
    r := r.(lines := Sorted(r.lines));
    assert r.(lines := unsorted.lines) == unsorted;
  }

  ghost function PhaseDb(db: Db, items: seq<Item>, req: Request): Db
    requires Valid(db)
  {
    var ps := Pendings(items, 0);
    CS.CreateManyValid(db, Rows(ps, req.now));
    var (c, ids) := CreateMany(db, Rows(ps, req.now));
    Settle(c, ps, ids, req).0
  }

  lemma PhasesAre(db: Db, items: seq<Item>, req: Request)
    requires Valid(db)
    ensures var ps := Pendings(items, 0);
      var (c, ids) := CreateMany(db, Rows(ps, req.now));
      && Valid(c)
      && PhaseDb(db, items, req) == Settle(c, ps, ids, req).0
      && PhaseLines(db, items, req) == EarlyLines(items, 0) + Settle(c, ps, ids, req).1
  {
    CS.CreateManyValid(db, Rows(Pendings(items, 0), req.now));
  }

  /** The three phases, up to the sort. */
  method RunPhases(store: Store.LinkStore, items: seq<Item>, req: Request, commits: bool, t: int) returns (r: Reply)
    requires Valid(store.db) && CS.Coherent(store.Abs())
    modifies store`db, store.cache
    ensures !commits ==> r.ServerError? && store.Abs() == old(store.Abs())
    ensures commits ==> Listed(r) && r.lines == PhaseLines(old(store.db), items, req) && store.db == PhaseDb(old(store.db), items, req)
    ensures Valid(store.db) && CS.Coherent(store.Abs())
  {
    hide Pendings, EarlyLines, Rows, Codes, Listed, Settle, CS.Coherent, CreateMany, PhaseLines, PhaseDb;
    PhasesAre(store.db, items, req);
    ghost var s := store.Abs();
    var pending;
    r, pending := Screen(items);
    assert store.Abs() == s;
    var ids := InsertPending(store, pending, req.now, commits, t);
    if !commits {
      return ServerError;
    }
    r := SettleAll(store, pending, ids, req, r, t);
    ListedIsReply(r);
  }

  lemma ListedIsReply(r: Reply)
    requires Listed(r)
    ensures r.Reply?
    ensures forall lines :: Tallied(r.(lines := lines), lines) == Tallied(r, lines)
  {
  }

  /** The conflict pass over the insert results. */
  method SettleAll(store: Store.LinkStore, pending: seq<Pending>, ids: seq<Option<nat>>, req: Request, early: Reply, t: int) returns (r: Reply)
    requires Valid(store.db) && CS.Coherent(store.Abs()) && Listed(early) && |ids| == |pending|
    modifies store`db, store.cache
    ensures Listed(r)
    ensures (store.db, r.lines) == (Settle(old(store.db), pending, ids, req).0, early.lines + Settle(old(store.db), pending, ids, req).1)
    ensures Valid(store.db) && CS.Coherent(store.Abs())
  {
    hide Codes, CS.Coherent, OnConflict, Listed, Settle, IdsBounded;
    ghost var start := store.db;
    r := early;
    ListedIsReply(r);
    assert pending[0..] == pending && ids[0..] == ids;
    for i := 0 to |pending|
      invariant Valid(store.db) && CS.Coherent(store.Abs())
      invariant Listed(r) && r.Reply?
      invariant early.lines + Settle(start, pending, ids, req).1 == r.lines + Settle(store.db, pending[i..], ids[i..], req).1
      invariant Settle(start, pending, ids, req).0 == Settle(store.db, pending[i..], ids[i..], req).0
    {
      assert pending[i..][1..] == pending[i + 1..] && ids[i..][1..] == ids[i + 1..];
      SettleStep(store.db, pending[i..], ids[i..], req);
      var out := SettleOne(store, pending[i], ids[i], req, t);
      var line := Line(pending[i].index, out);
      CountListed(r, line);
      r := Count(r, line);
    }
    assert pending[|pending|..] == [] && ids[|ids|..] == [];
    NoneToSettle(store.db, req);
    assert r.lines + [] == r.lines;
  }

  lemma SettleStep(db: Db, ps: seq<Pending>, ids: seq<Option<nat>>, req: Request)
    requires Valid(db) && |ids| == |ps| > 0
    ensures var (next, out) := if ids[0].Some? then (db, Created(ps[0].code, ids[0].value)) else OnConflict(db, ps[0].item, ps[0].code, req);
      && Valid(next)
      && Settle(db, ps, ids, req).0 == Settle(next, ps[1..], ids[1..], req).0
      && Settle(db, ps, ids, req).1 == [Line(ps[0].index, out)] + Settle(next, ps[1..], ids[1..], req).1
  {
    hide OnConflict;
    ConflictValid(db, ps[0].item, ps[0].code, req);
  }

  lemma NoneToSettle(db: Db, req: Request)
    requires Valid(db)
    ensures Settle(db, [], [], req) == (db, [])
  {
  }

  method InsertPending(store: Store.LinkStore, pending: seq<Pending>, now: int, commits: bool, t: int) returns (ids: seq<Option<nat>>)
    requires Valid(store.db) && CS.Coherent(store.Abs())
    modifies store`db, store.cache
    ensures commits ==> (store.db, ids) == CreateMany(old(store.db), Rows(pending, now))
    ensures !commits ==> store.Abs() == old(store.Abs())
    ensures Valid(store.db) && CS.Coherent(store.Abs())
  {
    hide CS.Coherent, CS.Step, Rows;
    ghost var s := store.Abs();
    var rows := Rows(pending, now);
    RowsUndeleted(pending, now);
    var links := new Link[|rows|](i requires 0 <= i < |rows| => rows[i]);
    assert links[..] == rows && store.Abs() == s;
    CS.StepRefines(s, CS.CreateMany(rows), t);
    ids := store.CreateLinks(links, commits, t);
  }

  lemma {:induction false} RowsUndeleted(ps: seq<Pending>, now: int)
    ensures forall i | 0 <= i < |Rows(ps, now)| :: !Rows(ps, now)[i].deleted
  {
    if ps != [] {
      RowsUndeleted(ps[1..], now);
    }
  }

  method SettleOne(store: Store.LinkStore, p: Pending, id: Option<nat>, req: Request, t: int) returns (out: Outcome)
    requires Valid(store.db) && CS.Coherent(store.Abs())
    modifies store`db, store.cache
    ensures (store.db, out) == if id.Some? then (old(store.db), Created(p.code, id.value)) else OnConflict(old(store.db), p.item, p.code, req)
    ensures Valid(store.db) && CS.Coherent(store.Abs())
  {
    hide CS.Coherent, ConflictUpdate;
    if id.Some? {
      return Created(p.code, id.value);
    }
    match req.policy {
      case Refresh =>
        var ok := ApplyConflict(store, p.item, p.code, req.backupOnEdit, t);
        return if ok then Updated(p.code) else Failed(p.code, "internal_error");
      case Skip => return Skipped(p.code);
      case Fail => return Failed(p.code, "code_taken");
    }
  }
}
