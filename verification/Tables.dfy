/** The SQLite tables and one pure step for every statement of
    internal/store/store.go, internal/store/counts.go and internal/store/backups.go. */
module Tables {
  import opened MapSum

  datatype Option<T> = None | Some(value: T)

  datatype Link = Link(
    id: nat, code: string, url: string, title: string, description: string,
    expiresAt: int, clickCount: int, createdAt: int, updatedAt: int, deleted: bool)

  /** A row of daily_clicks under its primary key (link id, date); the code is a label. */
  datatype DailyRow = DailyRow(code: string, count: int)

  datatype Snapshot = Snapshot(
    linkId: nat, code: string, url: string, title: string, description: string,
    expiresAt: int, clickCount: int, createdAt: int, updatedAt: int, backedAt: int)

  /** lastId is the AUTOINCREMENT high-water mark: it survives deletions. */
  datatype Db = Db(
    links: map<nat, Link>, daily: map<(nat, string), DailyRow>, lastId: nat, backups: map<nat, Snapshot>)

  const EMPTY := Db(map[], map[], 0, map[])

  datatype DailyCount = DailyCount(code: string, date: string, count: int)

  datatype Status = Done | NotFound | Taken

  predicate Live(l: Link, code: string) { l.code == code && !l.deleted }

  function LiveSet(links: map<nat, Link>): set<nat> {
    set id | id in links && !links[id].deleted
  }

  predicate HasLive(links: map<nat, Link>, code: string) {
    exists id | id in links :: Live(links[id], code)
  }

  /** The partial unique index: at most one live row for a code. */
  ghost predicate UniqueLive(links: map<nat, Link>) {
    forall i, j | i in links && j in links && !links[i].deleted && !links[j].deleted && links[i].code == links[j].code :: i == j
  }

  ghost predicate IdsBounded(db: Db) {
    && (forall i | i in db.links :: 1 <= i <= db.lastId && db.links[i].id == i)
    && (forall k | k in db.daily :: 1 <= k.0 <= db.lastId)
  }

  ghost predicate Valid(db: Db) {
    UniqueLive(db.links) && IdsBounded(db)
  }

  /** SELECT ... WHERE code = ? AND deleted = 0 */
  function Find(links: map<nat, Link>, code: string): (r: Option<Link>)
    requires UniqueLive(links)
    ensures r.Some? <==> HasLive(links, code)
    ensures r.Some? ==> Live(r.value, code) && exists id | id in links :: links[id] == r.value
    ensures forall id | id in links && Live(links[id], code) :: r == Some(links[id])
  {
    if HasLive(links, code) then
      var id :| id in links && Live(links[id], code);
      Some(links[id])
    else None
  }

  /** UPDATE links SET ... WHERE code = ? AND deleted = 0 */
  function SetWhere(links: map<nat, Link>, code: string, f: Link -> Link): map<nat, Link> {
    map id | id in links :: if Live(links[id], code) then f(links[id]) else links[id]
  }

  function Insert(db: Db, l: Link): Db {
    db.(links := db.links[db.lastId + 1 := l.(id := db.lastId + 1, deleted := false)], lastId := db.lastId + 1)
  }

  function Create(db: Db, l: Link): (Db, Status) {
    if HasLive(db.links, l.code) then (db, Taken) else (Insert(db, l), Done)
  }

  /** One INSERT after another inside one transaction; the result lists the new
      ids, None where the code was taken. */
  function CreateMany(db: Db, ls: seq<Link>): (r: (Db, seq<Option<nat>>))
    ensures |r.1| == |ls|
    decreases |ls|
  {
    if ls == [] then (db, []) else
      var (next, status) := Create(db, ls[0]);
      var (last, ids) := CreateMany(next, ls[1..]);
      (last, [if status.Done? then Some(next.lastId) else None] + ids)
  }

  function Edited(l: Link): Link -> Link {
    (row: Link) => row.(url := l.url, title := l.title, description := l.description,
                expiresAt := l.expiresAt, updatedAt := l.updatedAt)
  }

  function Update(db: Db, l: Link): (Db, Status) {
    if HasLive(db.links, l.code) then (db.(links := SetWhere(db.links, l.code, Edited(l))), Done)
    else (db, NotFound)
  }

  function WithMeta(title: string, description: string, at: int): Link -> Link {
    (row: Link) => row.(title := if title != "" then title else row.title,
                description := if row.description == "" then description else row.description,
                updatedAt := at)
  }

  function UpdateMeta(db: Db, code: string, title: string, description: string, at: int): Db {
    db.(links := SetWhere(db.links, code, WithMeta(title, description, at)))
  }

  function Recoded(code: string, at: int): Link -> Link {
    (row: Link) => row.(code := code, updatedAt := at)
  }

  /** No row to rename goes before the uniqueness check: SQLite only raises it for a row it writes. */
  function Rename(db: Db, oldCode: string, newCode: string, at: int): (Db, Status) {
    if !HasLive(db.links, oldCode) then (db, NotFound)
    else if newCode != oldCode && HasLive(db.links, newCode) then (db, Taken)
    else (db.(links := SetWhere(db.links, oldCode, Recoded(newCode, at)),
              daily := map k | k in db.daily ::
                if db.daily[k].code == oldCode then db.daily[k].(code := newCode) else db.daily[k]), Done)
  }

  /** Deletes the chosen live rows: physically, or by raising their flag. */
  function DeleteWhere(links: map<nat, Link>, doomed: set<nat>, hard: bool): map<nat, Link> {
    if hard then links - doomed
    else map id | id in links :: if id in doomed then links[id].(deleted := true) else links[id]
  }

  function LiveIds(links: map<nat, Link>, code: string): set<nat> {
    set id | id in links && Live(links[id], code)
  }

  function Delete(db: Db, code: string, hard: bool): (Db, Status) {
    if HasLive(db.links, code) then (db.(links := DeleteWhere(db.links, LiveIds(db.links, code), hard)), Done)
    else (db, NotFound)
  }

  function DeleteMany(db: Db, codes: seq<string>, hard: bool): (Db, nat)
    decreases |codes|
  {
    if codes == [] then (db, 0) else
      var (next, status) := Delete(db, codes[0], hard);
      var (last, n) := DeleteMany(next, codes[1..], hard);
      (last, n + if status.Done? then 1 else 0)
  }

  predicate Expired(l: Link, now: int) { l.expiresAt > 0 && l.expiresAt < now }

  function ExpiredIds(links: map<nat, Link>, now: int): set<nat> {
    set id | id in links && !links[id].deleted && Expired(links[id], now)
  }

  function CountExpired(db: Db, now: int): nat {
    |ExpiredIds(db.links, now)|
  }

  function DeleteExpired(db: Db, now: int, hard: bool): (Db, nat) {
    (db.(links := DeleteWhere(db.links, ExpiredIds(db.links, now), hard)), CountExpired(db, now))
  }

  /** UPDATE links SET click_count = click_count + n, updated_at = now WHERE code = ? AND deleted = 0 */
  function AddTotal(links: map<nat, Link>, code: string, n: int, now: int): map<nat, Link> {
    SetWhere(links, code, (row: Link) => row.(clickCount := row.clickCount + n, updatedAt := now))
  }

  function DailyKeys(links: map<nat, Link>, code: string, date: string): set<(nat, string)> {
    set id | id in links && Live(links[id], code) :: (id, date)
  }

  /** INSERT INTO daily_clicks SELECT ... ON CONFLICT DO UPDATE SET count = count + excluded.count */
  function AddDaily(links: map<nat, Link>, daily: map<(nat, string), DailyRow>, d: DailyCount): map<(nat, string), DailyRow> {
    var keys := DailyKeys(links, d.code, d.date);
    map k | k in daily.Keys + keys ::
      if k !in keys then daily[k]
      else if k in daily then daily[k].(count := daily[k].count + d.count)
      else DailyRow(d.code, d.count)
  }

  /** COALESCE(MAX(b_id), 0) */
  ghost function MaxKey(s: set<nat>): (m: nat)
    ensures forall k | k in s :: k <= m
    ensures if s == {} then m == 0 else m in s
  {
    if s == {} then 0 else
      var k :| k in s;
      var rest := MaxKey(s - {k});
      assert forall j | j in s :: j == k || j in s - {k};
      if k <= rest then rest else k
  }

  function SnapshotOf(l: Link, at: int): Snapshot {
    Snapshot(l.id, l.code, l.url, l.title, l.description, l.expiresAt, l.clickCount, l.createdAt, l.updatedAt, at)
  }

  // ---- what keeps the unique index satisfied ----

  lemma UniqueKept(was: map<nat, Link>, links: map<nat, Link>)
    requires UniqueLive(was)
    requires forall id | id in links && !links[id].deleted :: id in was && !was[id].deleted && was[id].code == links[id].code
    ensures UniqueLive(links)
  {
  }

  lemma UniqueAfterInsert(links: map<nat, Link>, id: nat, l: Link)
    requires UniqueLive(links) && id !in links && !HasLive(links, l.code)
    ensures UniqueLive(links[id := l])
  {
    var after := links[id := l];
    forall i, j | i in after && j in after && !after[i].deleted && !after[j].deleted && after[i].code == after[j].code
      ensures i == j
    {
      var k := if i == id then j else i;
      assert k != id && k in links && links[k].code == l.code && !links[k].deleted ==> Live(links[k], l.code);
    }
  }

  lemma UniqueAfterRename(links: map<nat, Link>, oldCode: string, newCode: string, at: int)
    requires UniqueLive(links) && (newCode == oldCode || !HasLive(links, newCode))
    ensures UniqueLive(SetWhere(links, oldCode, Recoded(newCode, at)))
  {
    var after := SetWhere(links, oldCode, Recoded(newCode, at));
    forall i, j | i in after && j in after && !after[i].deleted && !after[j].deleted && after[i].code == after[j].code
      ensures i == j
    {
      if newCode != oldCode {
        assert !Live(links[i], newCode) && !Live(links[j], newCode);
      }
    }
  }
}
