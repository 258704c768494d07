/** When the lookup cache answers and what it forgets, beyond never being wrong
    (internal/store/cache.go, internal/store/store.go). */
module CacheLaws {
  import opened Tables
  import opened CachedStore
  import TableLaws

  /** From the fill on, for sixty seconds and not a nanosecond longer, the cache answers with the row. */
  ghost predicate Answers(entries: Entries, code: string, l: Link, t: int) {
    forall now :: Hit(entries, code, now) == if now <= t + 60_000_000_000 then Some(l) else None
  }

  /** A lookup that misses fills the cache with what it found; one that hits, or finds
      nothing, leaves the cache alone. */
  lemma LookupFills(s: State, code: string, t: int)
    requires UniqueLive(s.db.links)
    ensures var r := Step(s, Get(code), t).0;
      var found := Find(s.db.links, code);
      if Hit(s.entries, code, t).None? && found.Some? then Answers(r.entries, code, found.value, t) else r == s
  {
  }

  /** A created link is answered from the cache at once. */
  lemma CreateFills(s: State, l: Link, t: int)
    requires UniqueLive(s.db.links)
    ensures var (r, out) := Step(s, Create(l), t);
      if HasLive(s.db.links, l.code) then r == s else Answers(r.entries, l.code, l.(id := out.id), t)
  {
  }

  lemma {:induction false} PutAllAt(entries: Entries, ls: seq<Link>, ids: seq<Option<nat>>, t: int, i: nat)
    requires |ls| == |ids| && i < |ls| && ids[i].Some?
    requires forall j | i < j < |ls| && ids[j].Some? :: ls[j].code != ls[i].code
    ensures Answers(PutAll(entries, ls, ids, t), ls[i].code, ls[i].(id := ids[i].value), t)
    decreases |ls|
  {
    var next := if ids[0].Some? then Put(entries, ls[0].code, ls[0].(id := ids[0].value), t) else entries;
    if i > 0 {
      assert ls[1..][i - 1] == ls[i] && ids[1..][i - 1] == ids[i];
      PutAllAt(next, ls[1..], ids[1..], t, i - 1);
    } else {
      PutAllElse(next, ls[1..], ids[1..], t, ls[0].code);
    }
  }

  lemma {:induction false} PutAllElse(entries: Entries, ls: seq<Link>, ids: seq<Option<nat>>, t: int, code: string)
    requires |ls| == |ids| && forall j | 0 <= j < |ls| && ids[j].Some? :: ls[j].code != code
    ensures code in PutAll(entries, ls, ids, t) <==> code in entries
    ensures code in entries ==> PutAll(entries, ls, ids, t)[code] == entries[code]
    decreases |ls|
  {
    if ls != [] {
      var next := if ids[0].Some? then Put(entries, ls[0].code, ls[0].(id := ids[0].value), t) else entries;
      PutAllElse(next, ls[1..], ids[1..], t, code);
    }
  }

  /** So is every link that an import created. */
  lemma CreateManyFills(s: State, ls: seq<Link>, t: int, i: nat)
    requires Valid(s.db) && i < |ls|
    ensures var (r, out) := Step(s, CreateMany(ls), t);
      out.NewMany? && |out.ids| == |ls| && (out.ids[i].Some? ==> Answers(r.entries, ls[i].code, ls[i].(id := out.ids[i].value), t))
  {
    hide Valid, Answers, Tables.CreateMany;
    var ids := Tables.CreateMany(s.db, ls).1;
    if ids[i].Some? {
      forall j | i < j < |ls| && ids[j].Some? ensures ls[j].code != ls[i].code {
        TableLaws.CreateManyTakesFirst(s.db, ls, j);
      }
      PutAllAt(s.entries, ls, ids, t, i);
    }
  }

  /** The codes a call names. */
  predicate Names(op: Op, code: string) {
    match op
    case Create(l) => l.code == code
    case CreateMany(ls) => exists i | 0 <= i < |ls| :: ls[i].code == code
    case Meta(c, _, _, _) => c == code
    case Get(c) => c == code
    case Update(l) => l.code == code
    case Rename(o, n, _) => o == code || n == code
    case Delete(c, _) => c == code
    case DeleteMany(codes, _) => code in codes
    case CountExpired(_) => false
    case DeleteExpired(_, _) => true
    case Counts(totals, _, _) => code in totals
    case Invalidate => true
  }

  /** A call forgets, or learns, only entries it names; the sweep and an explicit
      invalidation name them all and forget them all. */
  lemma OthersStay(s: State, op: Op, t: int, code: string)
    requires UniqueLive(s.db.links)
    ensures var r := Step(s, op, t).0;
      && (!Names(op, code) ==>
            (code in r.entries <==> code in s.entries) && (code in s.entries ==> r.entries[code] == s.entries[code]))
      && (op.DeleteExpired? || op.Invalidate? ==> r.entries == map[])
  {
    hide Find, HasLive, Tables.CreateMany, Tables.DeleteMany, UniqueLive;
    if op.CreateMany? && !Names(op, code) {
      PutAllElse(s.entries, op.links, Tables.CreateMany(s.db, op.links).1, t, code);
    }
  }
}
