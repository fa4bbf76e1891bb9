/** Runs of the pending Interest table: any interests, data and cleanings, one after the other. */
module PITRuns {
  import opened Collections
  import opened Names
  import opened PendingEntries
  import opened PITable

  datatype Event = Came(now: real, r: Request) | DataIn(now: real, ifid: nat, data: Data) | CleanUp(now: real)

  ghost function Step(t: Table, e: Event): Table {
    match e
    case Came(now, r) => AfterRequest(t, r, now)
    case DataIn(now, ifid, data) => AfterData(t, ifid, data, now)
    case CleanUp(now) => Cleaned(t, now)
  }

  ghost function Run(t: Table, es: seq<Event>): (u: Table)
    ensures u.timer == t.timer && u.filtering == t.filtering
    decreases |es|
  {
    if es == [] then t else Run(Step(t, es[0]), es[1..])
  }

  ghost predicate Covered(recorded: seq<Entry>, live: seq<Entry>, sent: seq<Entry>) {
    forall kind: Entry -> bool :: Tally(live, kind) + Tally(sent, kind) <= Tally(recorded, kind)
  }

  ghost predicate Older(es: seq<Entry>, next: nat) {
    forall e :: e in es ==> e.node < next && e.timer < next
  }

  /** The entries are distinct and older than the next one, and none has left or stays that did not come. */
  ghost predicate Sound(t: Table) {
    && KeysOk(t.byName) && DistinctEntries(t.byName) && Older(t.byName, t.next) && Older(t.sent, t.next)
    && Covered(t.recorded, t.byName, t.sent)
  }

  lemma {:induction false} TallyLive(es: seq<Entry>, now: real, kind: Entry -> bool)
    ensures Tally(Live(es, now), kind) <= Tally(es, kind)
  {
    if es != [] {
      TallyLive(es[1..], now, kind);
      var rest := Live(es[1..], now);
      assert ([es[0]] + rest)[1..] == rest;
      assert [] + rest == rest;
      assert Live(es, now) == if now < es[0].expiry then [es[0]] + rest else rest;
    }
  }

  lemma {:induction false} TallyConcat(a: seq<Entry>, b: seq<Entry>, kind: Entry -> bool)
    ensures Tally(a + b, kind) == Tally(a, kind) + Tally(b, kind)
  {
    if a == [] {
      assert a + b == b;
    } else {
      assert (a + b)[1..] == a[1..] + b;
      TallyConcat(a[1..], b, kind);
    }
  }

  lemma {:induction false} TallyRemoveAll(es: seq<Entry>, gone: seq<Entry>, kind: Entry -> bool)
    requires DistinctEntries(es) && DistinctEntries(gone) && forall e :: e in gone ==> e in es
    ensures Tally(es, kind) == Tally(RemoveAll(es, gone), kind) + Tally(gone, kind)
  {
    if gone != [] {
      var n := |gone| - 1;
      var before, e := gone[..n], gone[n];
      TallyRemoveAll(es, before, kind);
      RemoveAllMembers(es, before);
      assert gone == before + [e] && e in RemoveAll(es, before);
      RemoveNodeMembers(RemoveAll(es, before), e);
      TallyWithout(RemoveAll(es, before), EntryAt(RemoveAll(es, before), e.node), kind);
      TallyAppend(before, e, kind);
    }
  }

  lemma CleanedIsSound(t: Table, now: real)
    requires Sound(t)
    ensures Sound(Cleaned(t, now))
  {
    LiveDistinct(t.byName, now);
    LiveMembers(t.byName, now);
    forall kind: Entry -> bool
      ensures Tally(Live(t.byName, now), kind) + Tally(t.sent, kind) <= Tally(t.recorded, kind)
    {
      TallyLive(t.byName, now, kind);
    }
  }

  lemma RecordedIsSound(t: Table, e: Entry, at: nat)
    requires Sound(t) && e.node == e.timer == t.next && e.key == ChunkName(e.content, e.chunkId)
    ensures Sound(Recorded(t, e, at)) && e in Recorded(t, e, at).byName
  {
    var k := if at <= |t.byName| then at else |t.byName|;
    DistinctAfterInsert(t.byName, k, e, t.next);
    InsertedMembers(t.byName, k, e);
    forall kind: Entry -> bool
      ensures Tally(InsertAt(t.byName, k, e), kind) + Tally(t.sent, kind) <= Tally(t.recorded + [e], kind)
    {
      TallyInsert(t.byName, k, e, kind);
      TallyAppend(t.recorded, e, kind);
    }
  }

  /** What data answers are entries of the table, each once. */
  lemma AnsweredFromLive(t: Table, ifid: nat, data: Data, now: real)
    requires Sound(t)
    ensures var live, answered := Live(t.byName, now), AnsweredBy(t, ifid, data, now);
      && DistinctEntries(live) && DistinctEntries(answered) && (forall e :: e in answered ==> e in live)
  {
    var key := ChunkName(data.content, data.answer.chunkId);
    LiveDistinct(t.byName, now);
    SelectDistinct(Live(t.byName, now), key);
    AnsweredDistinct(RangeOf(t, key, now), ifid, data.answer, t.filtering);
    AnsweredFacts(RangeOf(t, key, now), ifid, data.answer, t.filtering);
  }

  lemma DataIsSound(t: Table, ifid: nat, data: Data, now: real)
    requires Sound(t)
    ensures Sound(AfterData(t, ifid, data, now))
  {
    CleanedIsSound(t, now);
    AnsweredFromLive(t, ifid, data, now);
    var live, answered := Live(t.byName, now), AnsweredBy(t, ifid, data, now);
    RemoveAllMembers(live, answered);
    forall kind: Entry -> bool
      ensures Tally(RemoveAll(live, answered), kind) + Tally(t.sent + answered, kind) <= Tally(t.recorded, kind)
    {
      assert Tally(live, kind) + Tally(t.sent, kind) <= Tally(t.recorded, kind);
      TallyRemoveAll(live, answered, kind);
      TallyConcat(t.sent, answered, kind);
    }
  }

  lemma StepIsSound(t: Table, e: Event)
    requires Sound(t)
    ensures Sound(Step(t, e))
  {
    match e
    case Came(now, r) =>
      CleanedIsSound(t, now);
      var c := Cleaned(t, now);
      RecordedIsSound(c, EntryFor(c, RangeOf(t, r.Key(), now), r, now), r.at);
    case DataIn(now, ifid, data) => DataIsSound(t, ifid, data, now);
    case CleanUp(now) => CleanedIsSound(t, now);
  }

  lemma {:induction false} RunIsSound(t: Table, es: seq<Event>)
    requires Sound(t)
    ensures Sound(Run(t, es))
    decreases |es|
  {
    if es != [] {
      StepIsSound(t, es[0]);
      RunIsSound(Step(t, es[0]), es[1..]);
    }
  }

  /** In every run, the data sent to an interface for a chunk never exceeds the interests recorded from there. */
  lemma SentNeverExceedsRecorded(timer: real, filtering: bool, es: seq<Event>, ifid: nat, key: string)
    ensures var here := (e: Entry) => e.ifid == ifid && e.key == key;
      Tally(Run(Empty(timer, filtering), es).sent, here) <= Tally(Run(Empty(timer, filtering), es).recorded, here)
  {
    RunIsSound(Empty(timer, filtering), es);
  }

  // The filter.

  /** x is in the table, or data has answered it, or its time has come. */
  ghost predicate Tracked(t: Table, x: Entry, now: real) {
    x in t.byName || x in t.sent || x.expiry <= now
  }

  lemma StepTracks(t: Table, e: Event, x: Entry, now: real)
    requires Sound(t) && Tracked(t, x, now) && e.now <= now
    ensures Tracked(Step(t, e), x, now)
  {
    LiveMembers(t.byName, e.now);
    match e
    case Came(_, r) =>
      var c := Cleaned(t, e.now);
      InsertedMembers(c.byName, if r.at <= |c.byName| then r.at else |c.byName|,
                      EntryFor(c, RangeOf(t, r.Key(), e.now), r, e.now));
    case DataIn(_, ifid, data) =>
      AnsweredFromLive(t, ifid, data, e.now);
      RemoveAllMembers(Live(t.byName, e.now), AnsweredBy(t, ifid, data, e.now));
    case CleanUp(_) =>
  }

  lemma {:induction false} RunTracks(t: Table, es: seq<Event>, x: Entry, now: real)
    requires Sound(t) && Tracked(t, x, now) && forall e :: e in es ==> e.now <= now
    ensures Tracked(Run(t, es), x, now)
    decreases |es|
  {
    if es != [] {
      StepIsSound(t, es[0]);
      StepTracks(t, es[0], x, now);
      RunTracks(Step(t, es[0]), es[1..], x, now);
    }
  }

  /** The entry of the interest r that comes at time now. */
  ghost function EntryOf(t: Table, r: Request, now: real): Entry {
    EntryFor(Cleaned(t, now), RangeOf(t, r.Key(), now), r, now)
  }

  lemma GoneOnIsRecorded(t: Table, r: Request, now: real)
    requires Sound(t) && GoesOn(t, r, now)
    ensures var x, u := EntryOf(t, r, now), AfterRequest(t, r, now);
      && x in u.byName && x !in u.sent && x.expiry == now + t.timer
      && x.ifid == r.ifid && x.content == r.interest.content && x.chunkId == r.interest.chunkId
  {
    var c := Cleaned(t, now);
    CleanedIsSound(t, now);
    MatchedUnlessGoesOn(t, r, now);
    RecordedIsSound(c, EntryOf(t, r, now), r.at);
  }

  /**
   * In every run with filtering: once an interest for a chunk has gone on, whatever happens, a remote
   * interest for the same chunk goes on only after the period of the first one has ended, or after data
   * has answered the first one.
   */
  lemma GoesOnAgainOnlyAfter(t: Table, a: Request, start: real, between: seq<Event>, b: Request, now: real)
    requires Sound(t) && GoesOn(t, a, start) && forall e :: e in between ==> e.now <= now
    requires b.interest.content == a.interest.content && b.interest.chunkId == a.interest.chunkId
    requires t.filtering && b.interest.chunkId != 0 && b.ifid != 0
    requires GoesOn(Run(AfterRequest(t, a, start), between), b, now)
    ensures var x, u := EntryOf(t, a, start), AfterRequest(t, a, start);
      && x in u.byName && x !in u.sent && x.ifid == a.ifid
      && x.content == a.interest.content && x.chunkId == a.interest.chunkId
      && (start + t.timer <= now || x in Run(u, between).sent)
  {
    var x, u := EntryOf(t, a, start), AfterRequest(t, a, start);
    GoneOnIsRecorded(t, a, start);
    StepIsSound(t, Came(start, a));
    RunTracks(u, between, x, now);
    assert now < x.expiry ==> WaitsFor(x, b.interest.content, b.interest.chunkId, now);
  }
}
