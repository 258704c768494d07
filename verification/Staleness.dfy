/** The lookup cache under concurrency: table commits, row reads, cache fills and
    invalidations as separate steps that may come in any order
    (internal/store/cache.go, and GetLink and the writers of internal/store/store.go). */
module Staleness {
  import opened Tables
  import CS = CachedStore

  /** A committed version of the live rows, and when it was committed. */
  datatype Version = Version(at: int, live: map<string, Link>)

  /** A row read from the tables by a call that has not filled the cache yet. */
  datatype Fill = Fill(code: string, link: Link, readAt: int)

  datatype State = State(now: int, versions: seq<Version>, fills: seq<Fill>, entries: CS.Entries)

  datatype Event =
    | Tick(d: nat)
    | Commit(live: map<string, Link>)
    | Read(code: string)
    | PutFill(i: nat)
    | Drop(codes: set<string>)

  function Start(live: map<string, Link>): State {
    State(0, [Version(0, live)], [], map[])
  }

  function Current(s: State): map<string, Link>
    requires s.versions != []
  {
    s.versions[|s.versions| - 1].live
  }

  /** Writers commit anything and invalidate any codes, sooner or later or never;
      a create fills what it committed, which is a read at its commit. */
  function Step(s: State, e: Event): State
    requires s.versions != []
  {
    match e
    case Tick(d) => s.(now := s.now + d)
    case Commit(live) => s.(versions := s.versions + [Version(s.now, live)])
    case Read(code) =>
      if code in Current(s) then s.(fills := s.fills + [Fill(code, Current(s)[code], s.now)]) else s
    case PutFill(i) =>
      if i >= |s.fills| then s else
        var f := s.fills[i];
        s.(fills := s.fills[..i] + s.fills[i + 1..], entries := CS.Put(s.entries, f.code, f.link, s.now))
    case Drop(codes) => s.(entries := s.entries - codes)
  }

  ghost function Run(s: State, events: seq<Event>): (r: State)
    requires s.versions != []
    ensures r.versions != []
    decreases |events|
  {
    if events == [] then s else Run(Step(s, events[0]), events[1..])
  }

  /** No fill comes more than gap after its read. */
  ghost predicate Prompt(s: State, events: seq<Event>, gap: nat)
    requires s.versions != []
    decreases |events|
  {
    events == [] || (
      && (events[0].PutFill? && events[0].i < |s.fills| ==> s.now - s.fills[events[0].i].readAt <= gap)
      && Prompt(Step(s, events[0]), events[1..], gap))
  }

  /** Version i held this row for this code, and was still current at `since` or later. */
  predicate Held(versions: seq<Version>, i: nat, code: string, link: Link, since: int) {
    && i < |versions| && code in versions[i].live && versions[i].live[code] == link
    && (i + 1 < |versions| ==> versions[i + 1].at >= since)
  }

  /** The row was the committed live row of its code at `since` or later. */
  ghost predicate WasLive(s: State, code: string, link: Link, since: int) {
    exists i :: Held(s.versions, i, code, link, since)
  }

  ghost predicate Inv(s: State, gap: nat) {
    && s.versions != []
    && (forall i | 0 <= i < |s.fills| :: s.fills[i].readAt <= s.now && WasLive(s, s.fills[i].code, s.fills[i].link, s.fills[i].readAt))
    && (forall code | code in s.entries ::
          && s.entries[code].expiresAt <= s.now + CS.TTL
          && WasLive(s, code, s.entries[code].link, s.entries[code].expiresAt - CS.TTL - gap))
  }

  lemma CommitKeeps(s: State, live: map<string, Link>, code: string, link: Link, since: int)
    requires WasLive(s, code, link, since) && since <= s.now
    ensures WasLive(s.(versions := s.versions + [Version(s.now, live)]), code, link, since)
  {
    var i :| Held(s.versions, i, code, link, since);
    assert Held(s.versions + [Version(s.now, live)], i, code, link, since);
  }

  lemma StepKeeps(s: State, e: Event, gap: nat)
    requires Inv(s, gap) && Prompt(s, [e], gap)
    ensures Inv(Step(s, e), gap)
  {
    hide Held;
    var r := Step(s, e);
    match e {
      case Tick(_) =>
      case Commit(live) =>
        forall code, link, since | since <= s.now && WasLive(s, code, link, since) ensures WasLive(r, code, link, since) {
          CommitKeeps(s, live, code, link, since);
        }
      case Read(code) => if code in Current(s) { ReadIsLive(s, code); }
      case PutFill(i) => if i < |s.fills| { FillIsLive(s, i, gap); }
      case Drop(_) =>
    }
  }

  lemma ReadIsLive(s: State, code: string)
    requires s.versions != [] && code in Current(s)
    ensures WasLive(s, code, Current(s)[code], s.now)
  {
    assert Held(s.versions, |s.versions| - 1, code, Current(s)[code], s.now);
  }

  lemma FillIsLive(s: State, i: nat, gap: nat)
    requires i < |s.fills| && WasLive(s, s.fills[i].code, s.fills[i].link, s.fills[i].readAt)
    requires s.now - s.fills[i].readAt <= gap
    ensures WasLive(s, s.fills[i].code, s.fills[i].link, s.now - gap)
  {
    var f := s.fills[i];
    var k :| Held(s.versions, k, f.code, f.link, f.readAt);
    assert Held(s.versions, k, f.code, f.link, s.now - gap);
  }

  lemma {:induction false} RunKeeps(s: State, events: seq<Event>, gap: nat)
    requires Inv(s, gap) && Prompt(s, events, gap)
    ensures Inv(Run(s, events), gap)
    decreases |events|
  {
    if events != [] {
      hide Inv, Step, Run;
      assert Prompt(s, [events[0]], gap);
      StepKeeps(s, events[0], gap);
      RunKeeps(Step(s, events[0]), events[1..], gap);
      RunUnfolds(s, events);
    }
  }

  lemma RunUnfolds(s: State, events: seq<Event>)
    requires s.versions != [] && events != []
    ensures Run(s, events) == Run(Step(s, events[0]), events[1..])
  {
  }

  /** Bounded staleness: whatever the interleaving, a hit returns a row that was
      the committed live row of its code no earlier than sixty seconds and the
      largest read-to-fill gap ago. */
  lemma HitsAreRecent(live: map<string, Link>, events: seq<Event>, gap: nat, code: string)
    requires Prompt(Start(live), events, gap)
    ensures var s := Run(Start(live), events);
      var hit := CS.Hit(s.entries, code, s.now);
      hit.Some? ==> WasLive(s, code, hit.value, s.now - (CS.TTL + gap))
  {
    RunKeeps(Start(live), events, gap);
    var s := Run(Start(live), events);
    if CS.Hit(s.entries, code, s.now).Some? {
      var e := s.entries[code];
      var i :| Held(s.versions, i, code, e.link, e.expiresAt - CS.TTL - gap);
      assert Held(s.versions, i, code, e.link, s.now - (CS.TTL + gap));
    }
  }

  /** A read, a delete with its invalidation, and only then the fill. */
  function LateFill(code: string, gap: nat): seq<Event> {
    [Read(code), Commit(map[]), Drop({code}), Tick(gap), PutFill(0), Tick(CS.TTL)]
  }

  /** The bound cannot be improved, and so the cache is not coherent under
      concurrency: after a late fill, a deleted row is still served at the very end
      of the interval, and at no later moment had it been live. */
  lemma BoundIsReached(link: Link, gap: nat)
    ensures var live := map[link.code := link];
      var events := LateFill(link.code, gap);
      && Prompt(Start(live), events, gap)
      && var s := Run(Start(live), events);
         && CS.Hit(s.entries, link.code, s.now) == Some(link)
         && link.code !in Current(s)
         && (forall since | since > s.now - (60_000_000_000 + gap) :: !WasLive(s, link.code, link, since))
  {
    hide Run, Prompt;
    var code := link.code;
    var s0 := Start(map[code := link]);
    var s1 := Step(s0, Read(code));
    var s2 := Step(s1, Commit(map[]));
    var s3 := Step(s2, Drop({code}));
    var s4 := Step(s3, Tick(gap));
    var s5 := Step(s4, PutFill(0));
    var s6 := Step(s5, Tick(CS.TTL));
    var e1: seq<Event> := [Tick(CS.TTL)];
    var e2, e3 := [PutFill(0)] + e1, [Tick(gap), PutFill(0)] + e1;
    var e4, e5 := [Drop({code})] + e3, [Commit(map[]), Drop({code})] + e3;
    assert LateFill(code, gap) == [Read(code)] + e5 && e5 == [Commit(map[])] + e4;
    assert e3 == [Tick(gap)] + e2 && e1 == e1 + [];
    RunOne(s0, Read(code), e5, gap);
    RunOne(s1, Commit(map[]), e4, gap);
    RunOne(s2, Drop({code}), e3, gap);
    RunOne(s3, Tick(gap), e2, gap);
    RunOne(s4, PutFill(0), e1, gap);
    RunOne(s5, Tick(CS.TTL), [], gap);
    RunNone(s6, gap);
    assert s4.fills[0] == Fill(code, link, 0) && s4.now == gap;
    assert s6.versions == [Version(0, map[code := link]), Version(0, map[])];
  }

  lemma RunOne(s: State, e: Event, rest: seq<Event>, gap: nat)
    requires s.versions != []
    ensures Run(s, [e] + rest) == Run(Step(s, e), rest)
    ensures Prompt(s, [e] + rest, gap)
       <==> Prompt(Step(s, e), rest, gap) && (e.PutFill? && e.i < |s.fills| ==> s.now - s.fills[e.i].readAt <= gap)
  {
    assert ([e] + rest)[1..] == rest;
  }

  lemma RunNone(s: State, gap: nat)
    requires s.versions != []
    ensures Run(s, []) == s && Prompt(s, [], gap)
  {
  }
}
