/** What a PATCH leaves in the tables, and when it is answered with what
    (internal/api/links.go). */
module EditLaws {
  import opened Tables
  import opened LinkEdits
  import Batch
  import ImportLaws
  import ShortCode
  import TableLaws

  /** Everything that is wrong with a PATCH, in the order of the checks. */
  function Faults(q: Request): seq<string> {
    var p := q.patch;
    ImportLaws.Fault(p.url.Some? && !p.absolute, "invalid_request")
    + ImportLaws.Fault(p.url.Some? && p.selfLink, "self_link_target")
    + ImportLaws.Fault(p.description.Some? && |p.description.value| > 500, "description_too_long")
    + ImportLaws.Fault(p.expiresAt.Some? && p.expiresAt.value < 0, "invalid_request")
    + ImportLaws.Fault(Renames(q) && !ShortCode.ValidCode(p.code.value), "invalid_code")
    + ImportLaws.Fault(Renames(q) && p.reserved, "reserved_code")
    + ImportLaws.Fault(Renames(q) && p.code.value == "/" && p.selfRoot, "self_root_target")
    + ImportLaws.Fault(!Renames(q) && q.address == "/" && p.url.Some? && p.selfRoot, "self_root_target")
  }

  /** A PATCH succeeds if and only if there is the link, nothing is wrong with it and a
      different code it gives is not in use; otherwise it names the first thing wrong. */
  lemma PatchedIff(db: Db, q: Request, backup: bool)
    requires Valid(db)
    ensures var result := PatchLink(db, q, backup).1;
      var free := Renames(q) ==> !HasLive(db.links, q.patch.code.value);
      && (result.Missing? <==> !HasLive(db.links, q.address))
      && (result.Patched? <==> HasLive(db.links, q.address) && Faults(q) == [] && free)
      && (result.Rejected? ==> result.error == if Faults(q) != [] then Faults(q)[0] else "code_taken")
  {
    hide ShortCode.ValidCode, Find, FieldError, CodeError, Batch.BackedUp, Faults, Mutating, Rename, HasLive, IdsBounded;
    FirstFault(q);
    FoundHasLive(db.links, q.address);
    var found := Find(db.links, q.address);
    if found.Some? {
      BackedUpLinks(db, found.value, q.backedAt);
      LaidCode(found.value, q);
      FoundLive(db.links, q.address);
      var kept := if backup && Mutating(q) then Batch.BackedUp(db, found.value, q.backedAt) else db;
      assert kept.links == db.links;
      if Renames(q) {
        RenameStatus(kept, q.address, q.patch.code.value, q.editedAt);
      }
      if Faults(q) == [] {
        if !Renames(q) {
          assert Update(kept, Laid(found.value, q).(code := found.value.code)).1.Done?;
        } else if !HasLive(db.links, q.patch.code.value) {
          var moved := Rename(kept, q.address, q.patch.code.value, q.editedAt).0;
          assert Update(moved, Laid(found.value, q).(code := q.patch.code.value)).1.Done?;
        }
      }
    }
  }

  lemma RenameStatus(db: Db, o: string, n: string, at: int)
    requires HasLive(db.links, o) && o != n
    ensures var (r, status) := Rename(db, o, n, at);
      (status.Taken? <==> HasLive(db.links, n)) && !status.NotFound? && (status.Done? ==> HasLive(r.links, n))
  {
    RenamedIsLive(db.links, o, n, at);
  }

  lemma FirstFault(q: Request)
    ensures FieldError(q.patch).Some? || CodeError(q).Some? <==> Faults(q) != []
    ensures FieldError(q.patch).Some? ==> FieldError(q.patch).value == Faults(q)[0]
    ensures FieldError(q.patch).None? && CodeError(q).Some? ==> CodeError(q).value == Faults(q)[0]
  {
    hide ShortCode.ValidCode;
  }

  function Given<T>(field: Option<T>, was: T): T {
    if field.Some? then field.value else was
  }

  /** After a successful PATCH the link's row is the one in the answer. Every field
      given has the value given, code included, every other one the value it had, the
      time apart; no other row changes, and no count moves. */
  lemma PatchWrites(db: Db, q: Request, backup: bool, id: nat)
    requires Valid(db) && id in db.links && Live(db.links[id], q.address) && PatchLink(db, q, backup).1.Patched?
    ensures var (r, result) := PatchLink(db, q, backup);
      var was := db.links[id];
      && id in r.links && r.links[id] == result.link
      && result.link.url == Given(q.patch.url, was.url)
      && result.link.title == Given(q.patch.title, was.title)
      && result.link.description == Given(q.patch.description, was.description)
      && result.link.expiresAt == Given(q.patch.expiresAt, was.expiresAt)
      && result.link.code == Given(q.patch.code, was.code)
      && result.link.updatedAt == q.editedAt
      && result.link.id == was.id && result.link.clickCount == was.clickCount
      && result.link.createdAt == was.createdAt && !result.link.deleted
      && r.links.Keys == db.links.Keys && r.lastId == db.lastId
      && (forall k | k in db.links && k != id :: r.links[k] == db.links[k])
      && r.daily.Keys == db.daily.Keys && (forall k | k in db.daily :: r.daily[k].count == db.daily[k].count)
  {
    hide ShortCode.ValidCode, FieldError, CodeError, Batch.BackedUp, Mutating, HasLive, Find, Rename, Update, IdsBounded;
    SameLive(db.links, q.address, id);
    BackedUpLinks(db, db.links[id], q.backedAt);
    BackedUpValid(db, db.links[id], q.backedAt);
    var kept := if backup && Mutating(q) then Batch.BackedUp(db, db.links[id], q.backedAt) else db;
    assert kept.lastId == db.lastId by { BackedUpId(db, db.links[id], q.backedAt); }
    var moved := if Renames(q) then Rename(kept, q.address, q.patch.code.value, q.editedAt).0 else kept;
    var row := PatchLink(db, q, backup).1.link;
    if Renames(q) {
      RenameValid(kept, q);
      MovedRow(kept, q, id);
    }
    WrittenRow(moved, row, id);
  }

  lemma BackedUpId(db: Db, l: Link, at: int)
    ensures Batch.BackedUp(db, l, at).lastId == db.lastId
  {
  }

  lemma MovedRow(db: Db, q: Request, id: nat)
    requires Valid(db) && id in db.links && Live(db.links[id], q.address) && Renames(q)
    requires Rename(db, q.address, q.patch.code.value, q.editedAt).1.Done?
    ensures var r := Rename(db, q.address, q.patch.code.value, q.editedAt).0;
      && r.links.Keys == db.links.Keys && r.lastId == db.lastId
      && r.links[id] == db.links[id].(code := q.patch.code.value, updatedAt := q.editedAt)
      && (forall k | k in db.links && k != id :: r.links[k] == db.links[k])
      && r.daily.Keys == db.daily.Keys && (forall k | k in db.daily :: r.daily[k].count == db.daily[k].count)
  {
    hide HasLive, IdsBounded;
    TableLaws.RenameMoves(db, q.address, q.patch.code.value, q.editedAt, id);
  }

  /** Writing a row under the code of a live row changes that row only. */
  lemma WrittenRow(db: Db, row: Link, id: nat)
    requires Valid(db) && id in db.links && Live(db.links[id], row.code)
    ensures var r := Update(db, row).0;
      && r == db.(links := r.links) && r.links.Keys == db.links.Keys
      && r.links[id] == Edited(row)(db.links[id])
      && forall k | k in db.links && k != id :: r.links[k] == db.links[k]
  {
    assert Update(db, row).1.Done?;
  }
}
