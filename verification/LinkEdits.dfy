/** PATCH of a link (internal/api/links.go) and the journal of snapshots that edits
    leave behind (internal/store/backups.go). */
module LinkEdits {
  import opened Tables
  import Batch
  import CS = CachedStore
  import ShortCode
  import Store

  /** The fields a PATCH provides, and what url.Parse and the configuration say
      about the new URL and the new code. */
  datatype Patch = Patch(
    code: Option<string>, url: Option<string>, title: Option<string>, description: Option<string>, expiresAt: Option<int>,
    absolute: bool, selfLink: bool, selfRoot: bool, reserved: bool)

  datatype Result = Patched(link: Link) | Missing | Rejected(error: string)

  /** A PATCH under the address it names, with the two clock readings it makes. */
  datatype Request = Request(address: string, patch: Patch, backedAt: int, editedAt: int)

  predicate Renames(q: Request) {
    q.patch.code.Some? && q.patch.code.value != q.address
  }

  /** Whether a snapshot is due: some field is given, or a different code. */
  predicate Mutating(q: Request) {
    q.patch.url.Some? || q.patch.title.Some? || q.patch.description.Some? || q.patch.expiresAt.Some? || Renames(q)
  }

  /** The first check a PATCH fails, in the order of the handler. */
  function FieldError(p: Patch): Option<string> {
    if p.url.Some? && !p.absolute then Some("invalid_request")
    else if p.url.Some? && p.selfLink then Some("self_link_target")
    else if p.description.Some? && |p.description.value| > Batch.MAX_DESCRIPTION then Some("description_too_long")
    else if p.expiresAt.Some? && p.expiresAt.value < 0 then Some("invalid_request")
    else None
  }

  function CodeError(q: Request): Option<string> {
    if Renames(q) then
      if !ShortCode.ValidCode(q.patch.code.value) then Some("invalid_code")
      else if q.patch.reserved then Some("reserved_code")
      else if q.patch.code.value == "/" && q.patch.selfRoot then Some("self_root_target")
      else None
    else if q.address == "/" && q.patch.url.Some? && q.patch.selfRoot then Some("self_root_target")
    else None
  }

  function Laid(l: Link, q: Request): Link {
    l.(url := if q.patch.url.Some? then q.patch.url.value else l.url,
       title := if q.patch.title.Some? then q.patch.title.value else l.title,
       description := if q.patch.description.Some? then q.patch.description.value else l.description,
       expiresAt := if q.patch.expiresAt.Some? then q.patch.expiresAt.value else l.expiresAt,
       updatedAt := q.editedAt)
  }

  /** The whole handler: look up, snapshot, check, rename, write. */
  ghost function PatchLink(db: Db, q: Request, backup: bool): (Db, Result)
    requires Valid(db)
  {
    match Find(db.links, q.address)
    case None => (db, Missing)
    case Some(l) =>
      var kept := if backup && Mutating(q) then Batch.BackedUp(db, l, q.backedAt) else db;
      if FieldError(q.patch).Some? then (kept, Rejected(FieldError(q.patch).value))
      else if CodeError(q).Some? then (kept, Rejected(CodeError(q).value))
      else
        var (moved, status) := if Renames(q) then Rename(kept, q.address, q.patch.code.value, q.editedAt) else (kept, Done);
        if status.Taken? then (kept, Rejected("code_taken"))
        else if status.NotFound? then (kept, Rejected("internal_error"))
        else
          var row := Laid(l, q).(code := if Renames(q) then q.patch.code.value else l.code);
          var (r, s) := Update(moved, row);
          (r, if s.Done? then Patched(row) else Missing)
  }

  // ---- the handler on the live store ----

  method RenameRow(store: Store.LinkStore, o: string, n: string, at: int, t: int) returns (status: Status)
    requires Valid(store.db) && CS.Coherent(store.Abs())
    modifies store`db, store.cache
    ensures (store.db, status) == Rename(old(store.db), o, n, at)
    ensures Valid(store.db) && CS.Coherent(store.Abs())
    ensures store.cache.Refs() <= old(store.cache.Refs())
  {
    hide CS.Coherent, CS.Step, Rename;
    CS.StepRefines(store.Abs(), CS.Rename(o, n, at), t);
    status := store.RenameLink(o, n, at, t);
  }

  /** updateLink. The row it edits is its own copy, wherever it came from. */
  method UpdateLink(store: Store.LinkStore, q: Request, backup: bool, t: int) returns (r: Result)
    requires Valid(store.db) && CS.Coherent(store.Abs())
    modifies store`db, store.cache
    ensures (store.db, r) == PatchLink(old(store.db), q, backup)
    ensures Valid(store.db) && CS.Coherent(store.Abs())
  {
    hide Valid, CS.Coherent, HasLive, Rename, Update, Batch.BackedUp, FieldError, CodeError, Mutating, Laid;
    var l := Batch.LiveRow(store, q.address, t);
    if l == null {
      return Missing;
    }
    if Mutating(q) && backup {
      Batch.Snapshot(store, l, q.backedAt);
    }
    if FieldError(q.patch).Some? {
      return Rejected(FieldError(q.patch).value);
    }
    if CodeError(q).Some? {
      return Rejected(CodeError(q).value);
    }
    ghost var s := store.Abs();
    LaidCode(l.row, q);
    l.row := Laid(l.row, q);
    assert store.Abs() == s;
    if Renames(q) {
      var status := RenameRow(store, q.address, q.patch.code.value, q.editedAt, t);
      if status.Taken? {
        RenameFailed(s.db, q);
        return Rejected("code_taken");
      }
      if status.NotFound? {
        RenameFailed(s.db, q);
        return Rejected("internal_error");
      }
      ghost var s2 := store.Abs();
      l.row := l.row.(code := q.patch.code.value);
      assert store.Abs() == s2;
    }
    var status := Batch.WriteRow(store, l, t);
    r := if status.Done? then Patched(l.row) else Missing;
  }

  lemma RenameFailed(db: Db, q: Request)
    requires Renames(q)
    ensures !Rename(db, q.address, q.patch.code.value, q.editedAt).1.Done? ==> Rename(db, q.address, q.patch.code.value, q.editedAt).0 == db
  {
  }

  lemma LaidCode(l: Link, q: Request)
    ensures Laid(l, q).code == l.code
    ensures Laid(l, q) == Laid(l, q).(code := l.code)
  {
  }

  // ---- the journal ----

  /** Snapshots are numbered 1, 2, ... without a gap. */
  ghost predicate Gapless(db: Db) {
    forall k :: k in db.backups <==> 1 <= k <= |db.backups|
  }

  /** The snapshots in the order of their numbers. */
  ghost function Journal(db: Db): (j: seq<Snapshot>)
    requires Gapless(db)
    ensures |j| == |db.backups| && forall i | 0 <= i < |j| :: j[i] == db.backups[i + 1]
  {
    seq(|db.backups|, i requires 0 <= i < |db.backups| => db.backups[i + 1])
  }

  /** A snapshot goes to the end of the journal; the ones before it stay as they are. */
  lemma BackedUpAppends(db: Db, l: Link, at: int)
    requires Gapless(db)
    ensures Gapless(Batch.BackedUp(db, l, at))
    ensures Journal(Batch.BackedUp(db, l, at)) == Journal(db) + [SnapshotOf(l, at)]
  {
    var n := |db.backups|;
    var m := MaxKey(db.backups.Keys);
    assert m == n by {
      if n == 0 {
        assert db.backups.Keys == {};
      } else {
        assert n in db.backups && 1 <= n <= m;
      }
    }
    assert n + 1 !in db.backups;
    var r := Batch.BackedUp(db, l, at);
    assert |r.backups| == n + 1;
    forall k ensures k in r.backups <==> 1 <= k <= n + 1 {
    }
  }

  lemma SameBackups(a: Db, b: Db)
    requires Gapless(a) && b.backups == a.backups
    ensures Gapless(b) && Journal(b) == Journal(a)
  {
    assert |Journal(b)| == |Journal(a)|;
  }

  datatype Event =
    | Edit(q: Request, backup: bool)
    | Import(item: Batch.Item, code: string, backup: bool)
    | Other(op: CS.Op)

  ghost function Step(db: Db, e: Event): Db
    requires Valid(db)
  {
    match e
    case Edit(q, backup) => PatchLink(db, q, backup).0
    case Import(item, code, backup) => Batch.ConflictUpdate(db, item, code, backup).0
    case Other(op) => CS.Plain(db, op).0
  }

  /** The snapshot an event owes: the row as it was, if the event edits a link it finds. */
  ghost function Owed(db: Db, e: Event): seq<Snapshot>
    requires Valid(db)
  {
    match e
    case Edit(q, backup) =>
      var found := Find(db.links, q.address);
      if backup && Mutating(q) && found.Some? then [SnapshotOf(found.value, q.backedAt)] else []
    case Import(item, code, backup) =>
      var found := Find(db.links, code);
      if backup && found.Some? then [SnapshotOf(found.value, item.facts.backedAt)] else []
    case Other(_) => []
  }

  ghost predicate Succeeds(db: Db, e: Event)
    requires Valid(db)
  {
    match e
    case Edit(q, backup) => PatchLink(db, q, backup).1.Patched?
    case Import(item, code, backup) => Batch.ConflictUpdate(db, item, code, backup).1
    case Other(_) => true
  }

  lemma PatchValid(db: Db, q: Request, backup: bool)
    requires Valid(db)
    ensures Valid(PatchLink(db, q, backup).0)
    ensures Find(db.links, q.address).Some? && backup && Mutating(q) ==>
      PatchLink(db, q, backup).0.backups == Batch.BackedUp(db, Find(db.links, q.address).value, q.backedAt).backups
    ensures !(Find(db.links, q.address).Some? && backup && Mutating(q)) ==> PatchLink(db, q, backup).0.backups == db.backups
  {
    hide ShortCode.ValidCode, FieldError, CodeError, Mutating, Laid, Batch.BackedUp, Rename, Update, HasLive, IdsBounded;
    var found := Find(db.links, q.address);
    if found.Some? {
      var kept := if backup && Mutating(q) then Batch.BackedUp(db, found.value, q.backedAt) else db;
      BackedUpValid(db, found.value, q.backedAt);
      RenameValid(kept, q);
      var moved := if Renames(q) then Rename(kept, q.address, q.patch.code.value, q.editedAt).0 else kept;
      WriteValid(moved, Laid(found.value, q).(code := if Renames(q) then q.patch.code.value else found.value.code));
    }
  }

  lemma BackedUpValid(db: Db, l: Link, at: int)
    requires Valid(db)
    ensures Valid(Batch.BackedUp(db, l, at))
  {
  }

  lemma RenameValid(db: Db, q: Request)
    requires Valid(db)
    ensures Renames(q) ==> Valid(Rename(db, q.address, q.patch.code.value, q.editedAt).0)
    ensures Renames(q) ==> Rename(db, q.address, q.patch.code.value, q.editedAt).0.backups == db.backups
  {
    if Renames(q) && !HasLive(db.links, q.patch.code.value) {
      UniqueAfterRename(db.links, q.address, q.patch.code.value, q.editedAt);
    }
  }

  lemma WriteValid(db: Db, l: Link)
    requires Valid(db)
    ensures Valid(Update(db, l).0) && Update(db, l).0.backups == db.backups
  {
    UniqueKept(db.links, SetWhere(db.links, l.code, Edited(l)));
  }

  lemma {:induction false} PlainKeepsBackups(db: Db, op: CS.Op)
    requires UniqueLive(db.links)
    ensures CS.Plain(db, op).0.backups == db.backups
  {
    match op {
      case CreateMany(ls) => CreateManyKeepsBackups(db, ls);
      case DeleteMany(codes, hard) => DeleteManyKeepsBackups(db, codes, hard);
      case _ =>
    }
  }

  lemma {:induction false} CreateManyKeepsBackups(db: Db, ls: seq<Link>)
    ensures CreateMany(db, ls).0.backups == db.backups
    decreases |ls|
  {
    if ls != [] {
      CreateManyKeepsBackups(Create(db, ls[0]).0, ls[1..]);
    }
  }

  lemma {:induction false} DeleteManyKeepsBackups(db: Db, codes: seq<string>, hard: bool)
    ensures DeleteMany(db, codes, hard).0.backups == db.backups
    decreases |codes|
  {
    if codes != [] {
      DeleteManyKeepsBackups(Delete(db, codes[0], hard).0, codes[1..], hard);
    }
  }

  /** One event adds to the journal exactly the snapshot it owes. */
  lemma StepJournals(db: Db, e: Event)
    requires Valid(db) && Gapless(db)
    ensures Valid(Step(db, e)) && Gapless(Step(db, e))
    ensures Journal(Step(db, e)) == Journal(db) + Owed(db, e)
  {
    hide PatchLink, Batch.ConflictUpdate, CS.Plain, Journal, Gapless, Mutating, Batch.BackedUp, IdsBounded, HasLive;
    var r := Step(db, e);
    var kept := db;
    match e {
      case Edit(q, backup) =>
        PatchValid(db, q, backup);
        if Owed(db, e) != [] {
          BackedUpAppends(db, Find(db.links, q.address).value, q.backedAt);
          kept := Batch.BackedUp(db, Find(db.links, q.address).value, q.backedAt);
        }
      case Import(item, code, backup) =>
        ImportBacksUp(db, item, code, backup);
        if Owed(db, e) != [] {
          BackedUpAppends(db, Find(db.links, code).value, item.facts.backedAt);
          kept := Batch.BackedUp(db, Find(db.links, code).value, item.facts.backedAt);
        }
      case Other(op) =>
        CS.PlainValid(db, op);
        PlainKeepsBackups(db, op);
    }
    SameBackups(kept, r);
    assert Journal(db) + [] == Journal(db);
  }

  lemma ImportBacksUp(db: Db, item: Batch.Item, code: string, backup: bool)
    requires Valid(db)
    ensures Valid(Batch.ConflictUpdate(db, item, code, backup).0)
    ensures Find(db.links, code).Some? && backup ==>
      Batch.ConflictUpdate(db, item, code, backup).0.backups == Batch.BackedUp(db, Find(db.links, code).value, item.facts.backedAt).backups
    ensures !(Find(db.links, code).Some? && backup) ==> Batch.ConflictUpdate(db, item, code, backup).0.backups == db.backups
  {
    Batch.ConflictValid(db, item, code, Batch.Request(Batch.Refresh, 0, backup));
  }

  ghost function Run(db: Db, events: seq<Event>): (r: Db)
    requires Valid(db) && Gapless(db)
    ensures Valid(r) && Gapless(r)
    decreases |events|
  {
    if events == [] then db else
      StepJournals(db, events[0]);
      Run(Step(db, events[0]), events[1..])
  }

  /** What a run owes, event by event. */
  ghost function AllOwed(db: Db, events: seq<Event>): seq<Snapshot>
    requires Valid(db) && Gapless(db)
    decreases |events|
  {
    if events == [] then [] else
      StepJournals(db, events[0]);
      Owed(db, events[0]) + AllOwed(Step(db, events[0]), events[1..])
  }

  /** The journal is complete and exact: over any run without a clearing it grows
      by the pre-edit row of every attempted edit, in order, and nothing else. */
  lemma {:induction false} JournalIsExact(db: Db, events: seq<Event>)
    requires Valid(db) && Gapless(db)
    ensures Journal(Run(db, events)) == Journal(db) + AllOwed(db, events)
    decreases |events|
  {
    hide Journal, Owed, Step, Gapless, Valid;
    if events == [] {
      assert Journal(db) + [] == Journal(db);
    } else {
      StepJournals(db, events[0]);
      JournalIsExact(Step(db, events[0]), events[1..]);
      var tail := AllOwed(Step(db, events[0]), events[1..]);
      assert Journal(db) + (Owed(db, events[0]) + tail) == Journal(db) + Owed(db, events[0]) + tail;
    }
  }

  // ---- nothing an edit replaces is missing from the journal ----

  /** An edit or conflict update made while snapshots are on. */
  predicate Backed(e: Event) {
    !e.Other? && e.backup
  }

  function BackedAt(e: Event): int
    requires !e.Other?
  {
    if e.Edit? then e.q.backedAt else e.item.facts.backedAt
  }

  /** More than updated_at is different. */
  predicate Rewritten(was: Link, row: Link) {
    row != was.(updatedAt := row.updatedAt)
  }

  /** The row of a link, when the tables say that an event made with snapshots on has rewritten it. */
  ghost function ReplacedRow(db: Db, e: Event, id: nat): seq<Snapshot>
    requires Valid(db)
  {
    if Backed(e) && id in db.links && (id in Step(db, e).links ==> Rewritten(db.links[id], Step(db, e).links[id]))
    then [SnapshotOf(db.links[id], BackedAt(e))] else []
  }

  ghost function AllReplaced(db: Db, events: seq<Event>, id: nat): seq<Snapshot>
    requires Valid(db) && Gapless(db)
    decreases |events|
  {
    if events == [] then [] else
      StepJournals(db, events[0]);
      ReplacedRow(db, events[0], id) + AllReplaced(Step(db, events[0]), events[1..], id)
  }

  /** Whatever row an edit rewrites, it owes the snapshot of exactly that row as it was. */
  lemma ReplacedIsOwed(db: Db, e: Event, id: nat)
    requires Valid(db)
    ensures ReplacedRow(db, e, id) != [] ==> Owed(db, e) == ReplacedRow(db, e, id)
    ensures ReplacedRow(db, e, id) == [] || ReplacedRow(db, e, id)[0].linkId == id
  {
    hide PatchLink, Batch.ConflictUpdate, Mutating;
    if ReplacedRow(db, e, id) != [] {
      match e {
        case Edit(q, _) => PatchRewrites(db, q, true, id);
        case Import(item, code, _) => ImportRewrites(db, item, code, true, id);
      }
    }
  }

  /** A PATCH removes no row, and rewrites only the live row under its address, and
      that only if it gives a field or a different code. */
  lemma PatchRewrites(db: Db, q: Request, backup: bool, id: nat)
    requires Valid(db) && id in db.links
    ensures id in PatchLink(db, q, backup).0.links
    ensures Rewritten(db.links[id], PatchLink(db, q, backup).0.links[id]) ==> Live(db.links[id], q.address) && Mutating(q)
  {
    hide ShortCode.ValidCode, FieldError, CodeError, Batch.BackedUp, HasLive, Find;
    var found := Find(db.links, q.address);
    if found.Some? {
      BackedUpLinks(db, found.value, q.backedAt);
      FoundLive(db.links, q.address);
      if Renames(q) {
        NoneLive(db.links, q.patch.code.value, id);
      } else if Live(db.links[id], q.address) {
        LaidCode(found.value, q);
        SameLive(db.links, q.address, id);
        if !Mutating(q) {
          PlainLaid(db.links[id], found.value, q);
        }
      }
    }
  }

  lemma BackedUpLinks(db: Db, l: Link, at: int)
    ensures Batch.BackedUp(db, l, at).links == db.links && Batch.BackedUp(db, l, at).daily == db.daily
  {
  }

  lemma FoundLive(links: map<nat, Link>, code: string)
    requires UniqueLive(links)
    ensures Find(links, code).Some? ==> Live(Find(links, code).value, code)
  {
  }

  lemma NoneLive(links: map<nat, Link>, code: string, id: nat)
    requires id in links
    ensures !HasLive(links, code) ==> !Live(links[id], code)
  {
  }

  lemma SameLive(links: map<nat, Link>, code: string, id: nat)
    requires UniqueLive(links) && id in links && Live(links[id], code)
    ensures Find(links, code) == Some(links[id])
  {
  }

  /** A PATCH that gives nothing lays nothing but the time over a row. */
  lemma PlainLaid(row: Link, l: Link, q: Request)
    requires !Mutating(q) && row == l
    ensures !Rewritten(row, Edited(Laid(l, q))(row))
  {
  }

  lemma ImportRewrites(db: Db, item: Batch.Item, code: string, backup: bool, id: nat)
    requires Valid(db) && id in db.links
    ensures id in Batch.ConflictUpdate(db, item, code, backup).0.links
    ensures Rewritten(db.links[id], Batch.ConflictUpdate(db, item, code, backup).0.links[id]) ==> Live(db.links[id], code)
  {
    hide Batch.BackedUp, HasLive;
    var found := Find(db.links, code);
    if found.Some? {
      BackedUpLinks(db, found.value, item.facts.backedAt);
    }
  }

  lemma FailedImport(db: Db, item: Batch.Item, code: string, backup: bool)
    requires Valid(db) && !Batch.ConflictUpdate(db, item, code, backup).1
    ensures Batch.ConflictUpdate(db, item, code, backup).0 == db
  {
    hide Batch.BackedUp;
    FoundHasLive(db.links, code);
    var found := Find(db.links, code);
    if found.Some? {
      BackedUpLinks(db, found.value, item.facts.backedAt);
    }
  }

  /** a can be had from b by leaving entries out. */
  predicate Subsequence(a: seq<Snapshot>, b: seq<Snapshot>) {
    if a == [] then true else if b == [] then false
    else (a[0] == b[0] && Subsequence(a[1..], b[1..])) || Subsequence(a, b[1..])
  }

  function OfLink(j: seq<Snapshot>, id: nat): seq<Snapshot> {
    if j == [] then [] else (if j[0].linkId == id then [j[0]] else []) + OfLink(j[1..], id)
  }

  lemma {:induction false} SubsequenceSkip(pre: seq<Snapshot>, a: seq<Snapshot>, b: seq<Snapshot>)
    requires Subsequence(a, b)
    ensures Subsequence(a, pre + b)
  {
    if pre == [] {
      assert pre + b == b;
    } else {
      SubsequenceSkip(pre[1..], a, b);
      assert (pre + b)[1..] == pre[1..] + b;
    }
  }

  lemma {:induction false} SubsequenceBoth(pre: seq<Snapshot>, a: seq<Snapshot>, b: seq<Snapshot>)
    requires Subsequence(a, b)
    ensures Subsequence(pre + a, pre + b)
  {
    if pre == [] {
      assert pre + b == b && pre + a == a;
    } else {
      SubsequenceBoth(pre[1..], a, b);
      assert (pre + b)[1..] == pre[1..] + b && (pre + a)[1..] == pre[1..] + a;
    }
  }

  lemma OfLinkHead(j: seq<Snapshot>, id: nat, head: seq<Snapshot>)
    requires j != [] && head == if j[0].linkId == id then [j[0]] else []
    ensures OfLink(j, id) == head + OfLink(j[1..], id)
  {
  }

  lemma {:induction false} OfLinkAppend(a: seq<Snapshot>, b: seq<Snapshot>, id: nat)
    ensures OfLink(a + b, id) == OfLink(a, id) + OfLink(b, id)
  {
    if a == [] {
      assert a + b == b;
      assert [] + OfLink(b, id) == OfLink(b, id);
    } else {
      hide OfLink;
      OfLinkAppend(a[1..], b, id);
      assert (a + b)[0] == a[0] && (a + b)[1..] == a[1..] + b;
      var head: seq<Snapshot> := if a[0].linkId == id then [a[0]] else [];
      OfLinkHead(a, id, head);
      OfLinkHead(a + b, id, head);
      Batch.Appended(head, OfLink(a[1..], id), OfLink(b, id));
    }
  }

  /** For every link: the rows that edits rewrote stand among its snapshots, in
      order, possibly between those of edits that changed nothing. */
  lemma {:induction false} ReplacedRowsAreOwed(db: Db, events: seq<Event>, id: nat)
    requires Valid(db) && Gapless(db)
    ensures Subsequence(AllReplaced(db, events, id), OfLink(AllOwed(db, events), id))
    decreases |events|
  {
    if events != [] {
      hide Owed, Step, Gapless, Valid, ReplacedRow, Subsequence, OfLink;
      var e := events[0];
      StepJournals(db, e);
      var next := Step(db, e);
      var some, all := AllReplaced(next, events[1..], id), AllOwed(next, events[1..]);
      ReplacedRowsAreOwed(next, events[1..], id);
      OfLinkAppend(Owed(db, e), all, id);
      ReplacedIsOwed(db, e, id);
      if ReplacedRow(db, e, id) == [] {
        assert [] + some == some;
        SubsequenceSkip(OfLink(Owed(db, e), id), some, OfLink(all, id));
      } else {
        OneOfLink(ReplacedRow(db, e, id), id);
        SubsequenceBoth(ReplacedRow(db, e, id), some, OfLink(all, id));
      }
    }
  }

  lemma OneOfLink(j: seq<Snapshot>, id: nat)
    requires |j| == 1 && j[0].linkId == id
    ensures OfLink(j, id) == j
  {
    assert j[1..] == [];
  }

  /** From an empty journal: every row of a link that an edit or conflict update
      rewrote in the tables, in anything but updated_at, stands as it was among the
      snapshots of that link, in the order of the edits. */
  lemma JournalHoldsReplacedRows(db: Db, events: seq<Event>, id: nat)
    requires Valid(db) && db.backups == map[]
    ensures Gapless(db)
    ensures Subsequence(AllReplaced(db, events, id), OfLink(Journal(Run(db, events)), id))
  {
    hide AllOwed, AllReplaced, Run, Subsequence, OfLink;
    JournalIsExact(db, events);
    assert Journal(db) + AllOwed(db, events) == AllOwed(db, events);
    ReplacedRowsAreOwed(db, events, id);
  }

  /** An edit that is answered with an error leaves links and daily counts as they were. */
  lemma FailedEditsChangeNoLink(db: Db, e: Event)
    requires Valid(db) && !Succeeds(db, e)
    ensures Step(db, e).links == db.links && Step(db, e).daily == db.daily
  {
    hide ShortCode.ValidCode, FieldError, CodeError, Batch.BackedUp, Mutating, HasLive;
    match e {
      case Edit(q, backup) => FailedPatch(db, q, backup);
      case Import(item, code, backup) => FailedImport(db, item, code, backup);
      case Other(_) =>
    }
  }

  /** The one failure that would come after a rename cannot happen: the renamed row is there. */
  lemma FailedPatch(db: Db, q: Request, backup: bool)
    requires Valid(db) && !PatchLink(db, q, backup).1.Patched?
    ensures PatchLink(db, q, backup).0.links == db.links && PatchLink(db, q, backup).0.daily == db.daily
  {
    hide ShortCode.ValidCode, FieldError, CodeError, Batch.BackedUp, Mutating, Find;
    var found := Find(db.links, q.address);
    if found.Some? {
      BackedUpLinks(db, found.value, q.backedAt);
      LaidCode(found.value, q);
      FoundLive(db.links, q.address);
      if Renames(q) {
        RenamedIsLive(db.links, q.address, q.patch.code.value, q.editedAt);
      } else {
        FoundHasLive(db.links, q.address);
      }
    }
  }

  lemma FoundHasLive(links: map<nat, Link>, code: string)
    requires UniqueLive(links)
    ensures Find(links, code).Some? <==> HasLive(links, code)
  {
  }

  lemma RenamedIsLive(links: map<nat, Link>, o: string, n: string, at: int)
    requires HasLive(links, o)
    ensures HasLive(SetWhere(links, o, Recoded(n, at)), n)
  {
    var id :| id in links && Live(links[id], o);
    assert Live(SetWhere(links, o, Recoded(n, at))[id], n);
  }

  /** Exactly which successful PATCHes leave no snapshot although snapshots are on:
      those that give no field and no different code. They still write: the row's
      updated_at moves, and nothing else does. */
  lemma SnapshotIff(db: Db, q: Request)
    requires Valid(db) && Gapless(db) && PatchLink(db, q, true).1.Patched?
    ensures Gapless(PatchLink(db, q, true).0)
    ensures |Journal(PatchLink(db, q, true).0)| == |Journal(db)| <==> !Mutating(q)
    ensures !Mutating(q) ==> PatchLink(db, q, true).1.link == Find(db.links, q.address).value.(updatedAt := q.editedAt)
  {
    hide PatchLink, Journal, Gapless, ShortCode.ValidCode;
    StepJournals(db, Edit(q, true));
    PatchedRow(db, q);
  }

  lemma PatchedRow(db: Db, q: Request)
    requires Valid(db) && PatchLink(db, q, true).1.Patched?
    ensures Find(db.links, q.address).Some?
    ensures !Mutating(q) ==> PatchLink(db, q, true).1.link == Find(db.links, q.address).value.(updatedAt := q.editedAt)
  {
    hide ShortCode.ValidCode, CodeError, FieldError, HasLive;
  }
}
