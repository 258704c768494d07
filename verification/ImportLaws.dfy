/** What a batch import does to the tables, item by item and as a whole, without
    its phases (internal/api/batch.go). */
module ImportLaws {
  import opened Tables
  import opened Batch
  import ShortCode
  import TableLaws
  import World

  // ---- which items are refused, and why ----

  function Fault(present: bool, error: string): seq<string> {
    if present then [error] else []
  }

  /** The code an item asks for: its own, or a generated one. */
  function Wanted(item: Item): Option<string> {
    if item.code != "" then Some(item.code) else item.facts.generated
  }

  /** Everything that is wrong with an item, in the order of the checks. */
  function Faults(item: Item): seq<string> {
    Fault(!item.facts.absolute, "invalid_request")
    + Fault(item.facts.selfLink, "self_link_target")
    + Fault(|item.description| > 500, "description_too_long")
    + Fault(item.expiresAt.Some? && item.expiresAt.value < 0, "invalid_request")
    + Fault(Wanted(item).None?, "internal_error")
    + Fault(item.code != "" && !ShortCode.ValidCode(item.code), "invalid_code")
    + Fault(item.code != "" && item.facts.reserved, "reserved_code")
    + Fault(Wanted(item) == Some("/") && item.facts.selfRoot, "self_root_target")
  }

  /** An item is accepted, with the code it wants, if and only if nothing is wrong
      with it; otherwise the first thing wrong is reported. */
  lemma FirstFaultIsReported(item: Item)
    ensures Faults(item) == [] ==> Wanted(item).Some? && Resolve(item) == Code(Wanted(item).value)
    ensures Faults(item) != [] ==> Resolve(item) == Refused(Faults(item)[0])
  {
    hide ShortCode.ValidCode;
  }

  // ---- one item ----

  /** The row of a created link: all that the item gives, no expiry and the time of
      the request where it gives none, no clicks. */
  predicate NewRowOf(row: Link, id: nat, code: string, item: Item, now: int) {
    && row.id == id && row.code == code && !row.deleted && row.clickCount == 0
    && row.url == item.url && row.title == item.title && row.description == item.description
    && row.expiresAt == (if item.expiresAt.Some? then item.expiresAt.value else 0)
    && row.createdAt == (if item.createdAt.Some? then item.createdAt.value else now)
    && row.updatedAt == now
  }

  /** The row of an updated link: what the item gives, and the old row's fields where
      it gives nothing; its creation time is always the old one. */
  predicate UpdatedRowOf(row: Link, was: Link, item: Item) {
    && row.id == was.id && row.code == was.code && row.deleted == was.deleted
    && row.clickCount == was.clickCount && row.createdAt == was.createdAt
    && row.url == item.url
    && row.title == (if item.title != "" then item.title else was.title)
    && row.description == (if item.description != "" then item.description else was.description)
    && row.expiresAt == (if item.expiresAt.Some? then item.expiresAt.value else was.expiresAt)
    && row.updatedAt == item.facts.editedAt
  }

  /** Two states that differ in one link row at most, and not in daily counts. */
  ghost predicate OnlyRow(a: Db, b: Db, id: nat) {
    && b.daily == a.daily
    && (forall k | k != id :: k in b.links <==> k in a.links)
    && (forall k | k != id && k in a.links :: b.links[k] == a.links[k])
  }

  /** What becomes of one item: skipped or refused without a trace, created under a new
      id, or settled with the link that has its code as the policy says. */
  lemma ImportOneLaw(db: Db, item: Item, req: Request, id: nat)
    requires Valid(db)
    ensures var (r, out) := ImportOne(db, item, req);
      if item.deleted then out == Skipped(item.code) && r == db
      else if Faults(item) != [] then out == Failed(item.code, Faults(item)[0]) && r == db
      else Wanted(item).Some? && CodeLaw(db, item, Wanted(item).value, req, r, out, id)
  {
    hide ShortCode.ValidCode, Faults, PlaceOne, Resolve, CodeLaw;
    FirstFaultIsReported(item);
    if !item.deleted && Faults(item) == [] {
      PlaceOneLaw(db, item, Wanted(item).value, req, id);
    }
  }

  ghost predicate CodeLaw(db: Db, item: Item, code: string, req: Request, r: Db, out: Outcome, id: nat) {
    if !HasLive(db.links, code) then
      && out == Created(code, db.lastId + 1) && r.lastId == db.lastId + 1 && r.backups == db.backups
      && r.lastId !in db.links && r.lastId in r.links && OnlyRow(db, r, r.lastId)
      && NewRowOf(r.links[r.lastId], r.lastId, code, item, req.now)
    else
      match req.policy
      case Fail => out == Failed(code, "code_taken") && r == db
      case Skip => out == Skipped(code) && r == db
      case Refresh =>
        && out == Updated(code) && r.lastId == db.lastId
        && (id in db.links && Live(db.links[id], code) ==>
             && id in r.links && OnlyRow(db, r, id) && UpdatedRowOf(r.links[id], db.links[id], item)
             && r.backups == if req.backupOnEdit
                             then db.backups[MaxKey(db.backups.Keys) + 1 := SnapshotOf(db.links[id], item.facts.backedAt)]
                             else db.backups)
  }

  lemma PlaceOneLaw(db: Db, item: Item, code: string, req: Request, id: nat)
    requires Valid(db)
    ensures var (r, out) := PlaceOne(db, item, code, req);
      CodeLaw(db, item, code, req, r, out, id)
  {
    if !HasLive(db.links, code) {
      assert db.lastId + 1 !in db.links;
    } else if req.policy.Refresh? {
      RefreshLaw(db, item, code, req, id);
    }
  }

  lemma RefreshLaw(db: Db, item: Item, code: string, req: Request, id: nat)
    requires Valid(db) && HasLive(db.links, code) && req.policy.Refresh?
    ensures var (r, out) := OnConflict(db, item, code, req);
      CodeLaw(db, item, code, req, r, out, id)
  {
    hide ConflictUpdate, HasLive, IdsBounded;
    UpdateSucceeds(db, item, code, req.backupOnEdit);
    RefreshKeepsIds(db, item, code, req.backupOnEdit);
    if id in db.links && Live(db.links[id], code) {
      UpdateAt(db, item, code, req.backupOnEdit, id);
    }
  }

  lemma RefreshKeepsIds(db: Db, item: Item, code: string, backup: bool)
    requires Valid(db)
    ensures ConflictUpdate(db, item, code, backup).0.lastId == db.lastId
  {
  }

  /** The texts of the conflict policy, and no others. */
  lemma PolicyTexts(conflict: string)
    ensures PolicyOf("") == PolicyOf("error") == Some(Fail) && PolicyOf("skip") == Some(Skip) && PolicyOf("update") == Some(Refresh)
    ensures PolicyOf(conflict).Some? <==> conflict in {"", "error", "skip", "update"}
  {
  }

  // ---- the whole import ----

  /** What no import does to a row that is there. */
  predicate SameLink(was: Link, row: Link) {
    && row.id == was.id && row.code == was.code && row.deleted == was.deleted
    && row.clickCount == was.clickCount && row.createdAt == was.createdAt
  }

  /** An import removes no row, renames, deletes and restores none, and moves no click;
      unless its policy is to update, it changes no row and takes no snapshot. */
  lemma {:induction false} ImportKeepsLinks(db: Db, items: seq<Item>, req: Request, id: nat)
    requires Valid(db) && id in db.links
    ensures var r := OneByOne(db, items, req).0;
      && r.daily == db.daily && id in r.links && SameLink(db.links[id], r.links[id])
      && (!req.policy.Refresh? ==> r.links[id] == db.links[id] && r.backups == db.backups)
    decreases |items|
  {
    if items != [] {
      hide ImportOne, HasLive, ShortCode.ValidCode, Faults, NewRowOf, Valid;
      var (next, _) := ImportOne(db, items[0], req);
      ImportValid(db, items[0], req);
      OneKeepsLink(db, items[0], req, id);
      ImportKeepsLinks(next, items[1..], req, id);
    }
  }

  lemma OneKeepsLink(db: Db, item: Item, req: Request, id: nat)
    requires Valid(db) && id in db.links
    ensures var r := ImportOne(db, item, req).0;
      && r.daily == db.daily && id in r.links && SameLink(db.links[id], r.links[id])
      && (!req.policy.Refresh? ==> r.links[id] == db.links[id] && r.backups == db.backups)
  {
    hide ImportOne, Faults, NewRowOf, ShortCode.ValidCode;
    var live := if Wanted(item).Some? && HasLive(db.links, Wanted(item).value) then LiveId(db, Wanted(item).value) else 0;
    ImportOneLaw(db, item, req, live);
  }

  ghost function LiveId(db: Db, code: string): (id: nat)
    requires HasLive(db.links, code)
    ensures id in db.links && Live(db.links[id], code)
  {
    var id :| id in db.links && Live(db.links[id], code);
    id
  }

  /** Rows that an import brings are as the other handlers would have let them in, if
      the generated codes are: so an import is among the runs of the service. */
  lemma {:induction false} ImportedRowsAreAdmissible(db: Db, items: seq<Item>, req: Request, id: nat)
    requires Valid(db) && (forall i | 0 <= i < |items| && items[i].facts.generated.Some? :: ShortCode.ValidCode(items[i].facts.generated.value))
    requires id in OneByOne(db, items, req).0.links && (id in db.links ==> World.Admissible(db.links[id]))
    ensures World.Admissible(OneByOne(db, items, req).0.links[id])
    ensures id !in db.links ==> OneByOne(db, items, req).0.links[id].clickCount == 0
    decreases |items|
  {
    if items != [] {
      hide ImportOne, HasLive, ShortCode.ValidCode, Valid, World.Admissible;
      var (next, _) := ImportOne(db, items[0], req);
      ImportValid(db, items[0], req);
      if id in next.links {
        OneIsAdmissible(db, items[0], req, id);
      }
      if id in db.links {
        OneKeepsLink(db, items[0], req, id);
      }
      ImportedRowsAreAdmissible(next, items[1..], req, id);
      if id in next.links {
        ImportKeepsLinks(next, items[1..], req, id);
      }
    }
  }

  lemma OneIsAdmissible(db: Db, item: Item, req: Request, id: nat)
    requires Valid(db) && (item.facts.generated.Some? ==> ShortCode.ValidCode(item.facts.generated.value))
    requires id in ImportOne(db, item, req).0.links && (id in db.links ==> World.Admissible(db.links[id]))
    ensures World.Admissible(ImportOne(db, item, req).0.links[id])
    ensures id !in db.links ==> ImportOne(db, item, req).0.links[id].clickCount == 0
  {
    hide ImportOne, ShortCode.ValidCode;
    var live := if Wanted(item).Some? && HasLive(db.links, Wanted(item).value) then LiveId(db, Wanted(item).value) else 0;
    ImportOneLaw(db, item, req, live);
  }
}
