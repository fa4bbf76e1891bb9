/** The pending Interest table as an object. */
module PITable {
  import opened Collections
  import opened Names
  import opened PendingEntries

  /** chunkId 0 asks for the content's description. */
  datatype Interest = Interest(content: string, chunkId: nat, issued: real, port: nat)

  function NewEntry(node: nat, key: string, ifid: nat, expiry: real, i: Interest): Entry {
    Entry(node, key, ifid, expiry, i.content, i.chunkId, i.issued, i.port, node)
  }

  datatype Data = Data(content: string, answer: Answer)

  /** Where data goes: an interface, and the port of the interest it answers. */
  datatype Match = Match(ifid: nat, port: nat)

  ghost function Matches(es: seq<Entry>): (r: seq<Match>)
    ensures |r| == |es| && forall i :: 0 <= i < |es| ==> r[i].ifid == es[i].ifid && r[i].port == es[i].port
  {
    if es == [] then [] else Matches(es[..|es| - 1]) + [Match(es[|es| - 1].ifid, es[|es| - 1].port)]
  }

  ghost predicate KeysOk(es: seq<Entry>) {
    forall e :: e in es ==> e.key == ChunkName(e.content, e.chunkId)
  }

  /** All entries of a chunk expire one period after the last interest for it that went on. */
  ghost predicate OnePeriod(es: seq<Entry>, asked: map<string, real>, timer: real) {
    forall e :: e in es ==> e.key in asked && e.expiry == asked[e.key] + timer
  }

  /** A remote interest for a chunk of the content, with filtering, shares the entries that are there. */
  predicate Shares(filtering: bool, ifid: nat, interest: Interest) {
    filtering && interest.chunkId != 0 && ifid != 0
  }

  /** A shared entry is valid as long as the first one that is there, any other for a whole period. */
  function Until(range: seq<Entry>, shares: bool, otherwise: real): real {
    if shares && range != [] then range[0].expiry else otherwise
  }

  ghost predicate SamePort(range: seq<Entry>, socket: Option<nat>) {
    socket.Some? && exists e :: e in range && e.port == socket.value
  }

  // What the operations do to the table as a value.

  /** The entries in the order of the hash table, all that were recorded and all that were answered, and when
      the last interest for a chunk went on to the next node. */
  datatype Table = Table(timer: real, filtering: bool, byName: seq<Entry>, next: nat,
                         recorded: seq<Entry>, sent: seq<Entry>, asked: map<string, real>)

  /** An interest, the interface and the socket that it comes from, and the place for its entry. */
  datatype Request = Request(ifid: nat, interest: Interest, socket: Option<nat>, at: nat) {
    function Key(): string { ChunkName(interest.content, interest.chunkId) }
  }

  function Empty(timer: real, filtering: bool): Table {
    Table(timer, filtering, [], 0, [], [], map[])
  }

  ghost function Cleaned(t: Table, now: real): Table {
    t.(byName := Live(t.byName, now))
  }

  /** A local interest whose port waits already is not recorded. */
  ghost predicate Refused(range: seq<Entry>, r: Request) {
    r.ifid == 0 && SamePort(range, r.socket)
  }

  /** The interest does not go on. */
  ghost predicate Matched(filtering: bool, range: seq<Entry>, r: Request) {
    (Shares(filtering, r.ifid, r.interest) && range != []) || Refused(range, r)
  }

  ghost function EntryFor(t: Table, range: seq<Entry>, r: Request, now: real): Entry {
    NewEntry(t.next, r.Key(), r.ifid, Until(range, Shares(t.filtering, r.ifid, r.interest), now + t.timer), r.interest)
  }

  ghost function Recorded(t: Table, e: Entry, at: nat): Table {
    t.(byName := InsertAt(t.byName, if at <= |t.byName| then at else |t.byName|, e), next := t.next + 1,
       recorded := t.recorded + [e])
  }

  ghost function Asked(t: Table, matched: bool, key: string, now: real): Table {
    if matched then t else t.(asked := t.asked[key := now])
  }

  /** What an interest does to a table that has been cleaned, with the chunk's entries in range. */
  ghost function RequestIn(t: Table, range: seq<Entry>, r: Request, now: real): Table {
    Asked(if Refused(range, r) then t else Recorded(t, EntryFor(t, range, r, now), r.at),
          Matched(t.filtering, range, r), r.Key(), now)
  }

  ghost function RangeOf(t: Table, key: string, now: real): seq<Entry> {
    Select(Live(t.byName, now), key)
  }

  ghost function AfterRequest(t: Table, r: Request, now: real): Table {
    RequestIn(Cleaned(t, now), RangeOf(t, r.Key(), now), r, now)
  }

  // What an interest meets, told by the table alone.

  /** The entry is of the chunk, and its time has not come. */
  predicate WaitsFor(e: Entry, content: string, chunkId: nat, now: real) {
    e.content == content && e.chunkId == chunkId && now < e.expiry
  }

  ghost predicate Waiting(es: seq<Entry>, i: Interest, now: real) {
    exists e :: e in es && WaitsFor(e, i.content, i.chunkId, now)
  }

  ghost predicate WaitingAt(es: seq<Entry>, i: Interest, port: nat, now: real) {
    exists e :: e in es && WaitsFor(e, i.content, i.chunkId, now) && e.port == port
  }

  /**
   * The interest goes on to the next node: one from another node, if nothing is filtered, or it asks for the
   * description, or nobody waits for its chunk; a local one, if its port does not wait for the chunk yet.
   */
  ghost predicate GoesOn(t: Table, r: Request, now: real) {
    if r.ifid != 0 then !t.filtering || r.interest.chunkId == 0 || !Waiting(t.byName, r.interest, now)
    else r.socket.None? || !WaitingAt(t.byName, r.interest, r.socket.value, now)
  }

  /** Both orders are linked, the keys are those of the chunks, and the account of the interests balances. */
  ghost predicate Consistent(t: Table, ts: seq<Timer>, expired: seq<Entry>) {
    match t
    case Table(_, _, byName, next, recorded, sent, _) =>
      && Linked(byName, ts, next)
      && KeysOk(byName)
      && Numbered(recorded, next)
      && Balanced(recorded, byName, expired, sent)
  }

  lemma RecordedConsistent(t: Table, ts: seq<Timer>, expired: seq<Entry>, e: Entry, at: nat)
    requires Consistent(t, ts, expired) && at <= |t.byName| && e.node == e.timer == t.next
    requires e.key == ChunkName(e.content, e.chunkId)
    ensures Consistent(Recorded(t, e, at), InsertAt(ts, PlaceOf(ts, e.expiry), TimerOf(e)), expired)
  {
    LinkedInsert(t.byName, ts, t.next, at, e);
    BalancedRecord(t.recorded, t.byName, expired, t.sent, at, e);
    KeysInsert(t.byName, at, e);
  }

  lemma KeysInsert(es: seq<Entry>, at: nat, e: Entry)
    requires KeysOk(es) && at <= |es| && e.key == ChunkName(e.content, e.chunkId)
    ensures KeysOk(InsertAt(es, at, e))
  {
    InsertedMembers(es, at, e);
  }

  lemma RangeMembers(es: seq<Entry>, i: Interest, now: real)
    requires KeysOk(es)
    ensures forall e :: e in Select(Live(es, now), ChunkName(i.content, i.chunkId)) <==>
      e in es && WaitsFor(e, i.content, i.chunkId, now)
  {
    LiveMembers(es, now);
    forall e | e in es
      ensures e.key == ChunkName(i.content, i.chunkId) <==> e.content == i.content && e.chunkId == i.chunkId
    {
      if e.key == ChunkName(i.content, i.chunkId) { ChunkNameInjective(e.content, e.chunkId, i.content, i.chunkId); }
    }
  }

  lemma NoneInRange(es: seq<Entry>, i: Interest, now: real)
    requires KeysOk(es)
    ensures Select(Live(es, now), ChunkName(i.content, i.chunkId)) == [] <==> !Waiting(es, i, now)
  {
    RangeMembers(es, i, now);
    var range := Select(Live(es, now), ChunkName(i.content, i.chunkId));
    if range != [] { assert range[0] in range; }
  }

  /** What the table's operation answers is just that. */
  lemma MatchedUnlessGoesOn(t: Table, r: Request, now: real)
    requires KeysOk(t.byName)
    ensures Matched(t.filtering, RangeOf(t, r.Key(), now), r) <==> !GoesOn(t, r, now)
  {
    RangeMembers(t.byName, r.interest, now);
    NoneInRange(t.byName, r.interest, now);
  }

  /** The first entry that waits for the chunk. */
  ghost predicate FirstWaiting(es: seq<Entry>, k: nat, i: Interest, now: real) {
    && k < |es| && WaitsFor(es[k], i.content, i.chunkId, now)
    && forall j :: 0 <= j < k ==> !WaitsFor(es[j], i.content, i.chunkId, now)
  }

  /** Among these entries the key stands for the chunk. */
  ghost predicate KeyMeans(es: seq<Entry>, key: string, content: string, chunkId: nat) {
    forall e :: e in es ==> (e.key == key <==> e.content == content && e.chunkId == chunkId)
  }

  lemma KeysMean(es: seq<Entry>, content: string, chunkId: nat)
    requires KeysOk(es)
    ensures KeyMeans(es, ChunkName(content, chunkId), content, chunkId)
  {
    forall e | e in es ensures e.key == ChunkName(content, chunkId) <==> e.content == content && e.chunkId == chunkId {
      if e.key == ChunkName(content, chunkId) { ChunkNameInjective(e.content, e.chunkId, content, chunkId); }
    }
  }

  /** The live entries of a chunk: the first entry of the table, if it is one, and those of the rest. */
  lemma RangeHead(es: seq<Entry>, key: string, content: string, chunkId: nat, now: real)
    requires es != [] && KeyMeans(es, key, content, chunkId)
    ensures Select(Live(es, now), key) ==
        if WaitsFor(es[0], content, chunkId, now) then [es[0]] + Select(Live(es[1..], now), key)
        else Select(Live(es[1..], now), key)
  {
    var rest := Live(es[1..], now);
    assert es[0] in es;
    if now < es[0].expiry {
      assert ([es[0]] + rest)[1..] == rest;
      assert [] + Select(rest, key) == Select(rest, key);
    } else {
      assert [] + rest == rest;
    }
  }

  /** The range starts with the first entry that waits. */
  lemma {:induction false} RangeStarts(es: seq<Entry>, key: string, k: nat, i: Interest, now: real)
    requires KeyMeans(es, key, i.content, i.chunkId) && FirstWaiting(es, k, i, now)
    ensures Select(Live(es, now), key) != [] && Select(Live(es, now), key)[0] == es[k]
    decreases k
  {
    RangeHead(es, key, i.content, i.chunkId, now);
    if k > 0 {
      FirstOfRest(es, key, k, i, now);
      RangeStarts(es[1..], key, k - 1, i, now);
    }
  }

  lemma FirstOfRest(es: seq<Entry>, key: string, k: nat, i: Interest, now: real)
    requires KeyMeans(es, key, i.content, i.chunkId) && FirstWaiting(es, k, i, now) && k > 0
    ensures !WaitsFor(es[0], i.content, i.chunkId, now) && es[1..][k - 1] == es[k]
    ensures KeyMeans(es[1..], key, i.content, i.chunkId) && FirstWaiting(es[1..], k - 1, i, now)
  {
    assert forall j :: 0 <= j < k ==> es[1..][j] == es[j + 1];
  }

  lemma FirstExists(es: seq<Entry>, i: Interest, now: real) returns (k: nat)
    requires Waiting(es, i, now)
    ensures FirstWaiting(es, k, i, now)
  {
    k := 0;
    while !WaitsFor(es[k], i.content, i.chunkId, now)
      invariant k < |es| && forall j :: 0 <= j < k ==> !WaitsFor(es[j], i.content, i.chunkId, now)
      decreases |es| - k
    {
      k := k + 1;
    }
  }

  /** Until when the entry of an interest is valid: with filtering a remote one for a chunk that is waited for
      shares the time of the first entry, any other gets a whole period. */
  ghost predicate ValidUntil(t: Table, r: Request, now: real, expiry: real) {
    if t.filtering && r.interest.chunkId != 0 && r.ifid != 0 && Waiting(t.byName, r.interest, now)
    then exists k: nat :: FirstWaiting(t.byName, k, r.interest, now) && expiry == t.byName[k].expiry
    else expiry == now + t.timer
  }

  ghost predicate IsEntryOf(t: Table, r: Request, now: real, e: Entry) {
    && e.node == e.timer == t.next && e.key == ChunkName(e.content, e.chunkId) && e.ifid == r.ifid
    && e.content == r.interest.content && e.chunkId == r.interest.chunkId
    && e.issued == r.interest.issued && e.port == r.interest.port && ValidUntil(t, r, now, e.expiry)
  }

  lemma EntryIsOf(t: Table, r: Request, now: real)
    requires KeysOk(t.byName)
    ensures IsEntryOf(t, r, now, EntryFor(Cleaned(t, now), RangeOf(t, r.Key(), now), r, now))
  {
    NoneInRange(t.byName, r.interest, now);
    if Waiting(t.byName, r.interest, now) {
      var k := FirstExists(t.byName, r.interest, now);
      KeysMean(t.byName, r.interest.content, r.interest.chunkId);
      RangeStarts(t.byName, r.Key(), k, r.interest, now);
    }
  }

  /** Expired entries go; a remote interest, or a local one whose port does not wait yet, gets an entry; nothing else
      changes. */
  lemma RequestRecords(t: Table, r: Request, now: real)
    requires KeysOk(t.byName)
    ensures var u := AfterRequest(t, r, now);
      && u.sent == t.sent && KeysOk(u.byName)
      && if r.ifid != 0 || GoesOn(t, r, now) then
           exists e :: IsEntryOf(t, r, now, e) && u.recorded == t.recorded + [e] && u.next == t.next + 1 &&
             (r.at < |u.byName| ==> u.byName[r.at] == e) &&
             forall x :: x in u.byName <==> x == e || (x in t.byName && now < x.expiry)
         else
           u.recorded == t.recorded && u.next == t.next &&
           forall x :: x in u.byName <==> x in t.byName && now < x.expiry
  {
    var c, e := Cleaned(t, now), EntryFor(Cleaned(t, now), RangeOf(t, r.Key(), now), r, now);
    LiveMembers(t.byName, now);
    MatchedUnlessGoesOn(t, r, now);
    EntryIsOf(t, r, now);
    InsertedMembers(c.byName, if r.at <= |c.byName| then r.at else |c.byName|, e);
  }

  ghost function AnsweredIn(es: seq<Entry>, ifid: nat, data: Data, now: real, filtering: bool): seq<Entry> {
    Answered(Select(Live(es, now), ChunkName(data.content, data.answer.chunkId)), ifid, data.answer, filtering)
  }

  ghost function AnsweredBy(t: Table, ifid: nat, data: Data, now: real): seq<Entry> {
    AnsweredIn(t.byName, ifid, data, now, t.filtering)
  }

  ghost function AfterData(t: Table, ifid: nat, data: Data, now: real): Table {
    var answered := AnsweredBy(t, ifid, data, now);
    t.(byName := RemoveAll(Live(t.byName, now), answered), sent := t.sent + answered)
  }

  class PITable {
    const timer: real
    const filtering: bool
    /** Entries in the order of the hash table. */
    var byName: seq<Entry>
    var byTime: seq<Timer>
    var next: nat
    /** All entries ever recorded, those that expired, and those that were answered. */
    ghost var recorded: seq<Entry>
    ghost var expired: seq<Entry>
    ghost var sent: seq<Entry>
    /** When the last interest for a chunk went on to the next node. */
    ghost var asked: map<string, real>

    constructor (timer: real, filtering: bool)
      ensures Valid() && Now() == Empty(timer, filtering) && expired == []
      ensures OnePeriod(byName, asked, timer)
    {
      this.timer, this.filtering := timer, filtering;
      byName, byTime, next, recorded, expired, sent, asked := [], [], 0, [], [], [], map[];
    }

    ghost predicate Valid()
      reads this
    {
      Consistent(Now(), byTime, expired)
    }

    ghost function Now(): Table
      reads this
    {
      Table(timer, filtering, byName, next, recorded, sent, asked)
    }

    method ExpireFirst(now: real)
      requires Valid() && byTime != [] && byTime[0].expiry <= now
      modifies this`byName, this`byTime, this`expired
      ensures Valid() && |byTime| < |old(byTime)|
      ensures Live(byName, now) == Live(old(byName), now) && forall e :: e in byName ==> e in old(byName)
    {
      assert byTime[0] in byTime;
      FirstEntry(byName, byTime, next);
      var i := EntryAt(byName, byTime[0].entry);
      LinkedWithout(byName, byTime, next, i, 0);
      BalancedLeave(recorded, byName, expired, sent, i);
      LiveWithout(byName, i, now);
      WithoutMembers(byName, i);
      expired := expired + [byName[i]];
      byName := RemoveAt(byName, i);
      byTime := RemoveAt(byTime, 0);
    }

    /** Entries whose time has come go; the others stay, in their order. */
    method PITClean(now: real)
      requires Valid()
      modifies this`byName, this`byTime, this`expired
      ensures Valid() && Now() == Cleaned(old(Now()), now)
      ensures forall e :: e in byName ==> now < e.expiry
    {
      while byTime != [] && byTime[0].expiry <= now
        invariant Valid() && Live(byName, now) == Live(old(byName), now)
        decreases |byTime|
      {
        ExpireFirst(now);
      }
      AllLater(byName, byTime, next, now);
      LiveAll(byName, now);
    }

    /** The entries of a chunk that have not expired. */
    method Lookup(content: string, chunkId: nat, now: real) returns (range: seq<Entry>)
      requires Valid()
      modifies this`byName, this`byTime, this`expired
      ensures Valid() && Now() == Cleaned(old(Now()), now)
      ensures range == Select(byName, ChunkName(content, chunkId))
      ensures forall e :: e in byName ==> now < e.expiry
      ensures forall e :: e in range ==> e.content == content && e.chunkId == chunkId
    {
      PITClean(now);
      range := Select(byName, ChunkName(content, chunkId));
      forall e | e in range ensures e.content == content && e.chunkId == chunkId {
        ChunkNameInjective(e.content, e.chunkId, content, chunkId);
      }
    }

    /** Until when a new entry is valid, and whether the interest finds an entry that makes it needless. */
    method Scan(range: seq<Entry>, ifid: nat, interest: Interest, socket: Option<nat>, now: real)
      returns (matched: bool, record: bool, expiry: real)
      requires forall e :: e in range ==> e.chunkId == interest.chunkId
      ensures matched == if ifid == 0 then SamePort(range, socket)
                         else filtering && interest.chunkId != 0 && range != []
      ensures record == !(ifid == 0 && SamePort(range, socket))
      ensures expiry == if ifid != 0 && matched then range[0].expiry else now + timer
    {
      matched, record, expiry := false, true, now + timer;
      var i := 0;
      while i < |range|
        invariant 0 <= i <= |range| && expiry == now + timer
        invariant !(filtering && interest.chunkId != 0 && ifid != 0 && i > 0)
        invariant matched == !record == (ifid == 0 && SamePort(range[..i], socket))
      {
        assert range[i] in range;
        if range[i].chunkId != 0 && filtering && ifid != 0 {
          expiry, matched := range[i].expiry, true;
          break;
        }
        assert range[..i + 1] == range[..i] + [range[i]];
        if ifid == 0 && socket.Some? {
          if range[i].port == socket.value {
            record, matched := false, true;
          }
        }
        i := i + 1;
      }
      assert i == |range| ==> range[..i] == range;
    }

    /** at is the place that the hash table gives the entry. */
    method Record(e: Entry, at: nat)
      requires Valid() && at <= |byName| && e.node == e.timer == next && e.key == ChunkName(e.content, e.chunkId)
      modifies this`byName, this`byTime, this`next, this`recorded
      ensures Valid() && Now() == Recorded(old(Now()), e, at)
    {
      RecordedConsistent(Now(), byTime, expired, e, at);
      recorded := recorded + [e];
      byTime := InsertAt(byTime, PlaceOf(byTime, e.expiry), TimerOf(e));
      byName := InsertAt(byName, at, e);
      next := next + 1;
    }

    /**
     * A remote interest for a chunk is matched just if the table has a live entry for it, and shares its expiry;
     * a local one, if some live entry has its socket's port, and then it is not recorded.
     */
    method RecordInterest(ifid: nat, interest: Interest, socket: Option<nat>, now: real, at: nat)
        returns (matched: bool)
      requires Valid() && at <= |Live(byName, now)|
      modifies this
      ensures Valid() && Now() == AfterRequest(old(Now()), Request(ifid, interest, socket, at), now)
      ensures matched == !GoesOn(old(Now()), Request(ifid, interest, socket, at), now)
      ensures old(OnePeriod(byName, asked, timer)) && filtering && interest.chunkId != 0 && ifid != 0
        ==> OnePeriod(byName, asked, timer)
    {
      var range := Lookup(interest.content, interest.chunkId, now);
      MatchedUnlessGoesOn(old(Now()), Request(ifid, interest, socket, at), now);
      matched := RecordAfter(range, ifid, interest, socket, now, at);
      if filtering && interest.chunkId != 0 && ifid != 0 {
        PeriodAfterRequest(old(Now()), Request(ifid, interest, socket, at), now);
      }
    }

    /** The rest of recording, when the table has been cleaned and the chunk's entries are known. */
    method RecordAfter(range: seq<Entry>, ifid: nat, interest: Interest, socket: Option<nat>, now: real, at: nat)
      returns (matched: bool)
      requires Valid() && at <= |byName| && range == Select(byName, ChunkName(interest.content, interest.chunkId))
      requires forall e :: e in range ==> e.chunkId == interest.chunkId
      modifies this`byName, this`byTime, this`next, this`recorded, this`asked
      ensures Valid() && Now() == RequestIn(old(Now()), range, Request(ifid, interest, socket, at), now)
      ensures matched == Matched(filtering, range, Request(ifid, interest, socket, at))
    {
      var key := ChunkName(interest.content, interest.chunkId);
      var record, expiry;
      matched, record, expiry := Scan(range, ifid, interest, socket, now);
      ghost var r := Request(ifid, interest, socket, at);
      assert !record <==> Refused(range, r);
      if record {
        assert NewEntry(next, key, ifid, expiry, interest) == EntryFor(Now(), range, r, now);
        Record(NewEntry(next, key, ifid, expiry, interest), at);
      }
      NoteAsked(matched, key, now);
    }

    ghost method NoteAsked(matched: bool, key: string, now: real)
      requires Valid()
      modifies this`asked
      ensures Valid() && Now() == Asked(old(Now()), matched, key, now)
    {
      if !matched {
        asked := asked[key := now];
      }
    }

    method ConsumePITEntry(e: Entry)
      requires Valid() && e in byName
      modifies this`byName, this`byTime, this`sent
      ensures Valid() && byName == RemoveNode(old(byName), e.node) && sent == old(sent) + [e]
    {
      RemoveNodeMembers(byName, e);
      var i := EntryAt(byName, e.node);
      TimerFound(byName, byTime, next, i);
      var k := TimerAt(byTime, byName[i].timer);
      LinkedWithout(byName, byTime, next, i, k);
      BalancedLeave(recorded, byName, expired, sent, i);
      sent := sent + [e];
      byTime := RemoveAt(byTime, k);
      byName := RemoveAt(byName, i);
    }

    /** Data answers interests that wait for it, and their entries leave the table. */
    method ProcessOut(ifid: nat, data: Data, now: real) returns (out: seq<Match>)
      requires Valid()
      modifies this`byName, this`byTime, this`expired, this`sent
      ensures Valid() && Now() == AfterData(old(Now()), ifid, data, now)
      ensures out == Matches(AnsweredBy(old(Now()), ifid, data, now))
      ensures old(OnePeriod(byName, asked, timer)) ==> OnePeriod(byName, asked, timer)
    {
      PeriodLeft(byName, asked, timer, now, data, ifid, filtering);
      var range := Lookup(data.content, data.answer.chunkId, now);
      SelectDistinct(byName, ChunkName(data.content, data.answer.chunkId));
      out := AnswerRange(range, ifid, data.answer);
    }

    method AnswerRange(range: seq<Entry>, ifid: nat, d: Answer) returns (out: seq<Match>)
      requires Valid() && DistinctEntries(range) && forall e :: e in range ==> e in byName
      modifies this`byName, this`byTime, this`sent
      ensures Valid()
      ensures var answered := Answered(range, ifid, d, filtering);
        out == Matches(answered) && sent == old(sent) + answered && byName == RemoveAll(old(byName), answered)
    {
      out := [];
      ghost var done: seq<Entry> := [];
      var i, stop := 0, false;
      while i < |range| && !stop
        invariant 0 <= i <= |range| && Valid() && out == Matches(done) && sent == old(sent) + done
        invariant if stop then done == Answered(range, ifid, d, filtering)
                  else SoFar(range, i, done, ifid, d, filtering)
        invariant byName == RemoveAll(old(byName), done)
        invariant forall j :: i <= j < |range| ==> range[j] in byName
      {
        AppendMore(old(sent), done, range[i]);
        out, stop, done := AnswerEntry(range, i, ifid, d, out, old(byName), done);
        i := i + 1;
      }
      if !stop { AnswerEnd(range, done, ifid, d, filtering); }
    }

    method AnswerEntry(range: seq<Entry>, i: nat, ifid: nat, d: Answer, out: seq<Match>,
                       ghost live: seq<Entry>, ghost done: seq<Entry>)
      returns (more: seq<Match>, stop: bool, ghost all: seq<Entry>)
      requires Valid() && byName == RemoveAll(live, done) && out == Matches(done)
      requires i < |range| && SoFar(range, i, done, ifid, d, filtering)
      requires DistinctEntries(range) && forall j :: i <= j < |range| ==> range[j] in byName
      modifies this`byName, this`byTime, this`sent
      ensures Valid() && byName == RemoveAll(live, all) && more == Matches(all)
      ensures (all == done && sent == old(sent)) || (all == done + [range[i]] && sent == old(sent) + [range[i]])
      ensures if stop then all == Answered(range, ifid, d, filtering) else SoFar(range, i + 1, all, ifid, d, filtering)
      ensures forall j :: i < j < |range| ==> range[j] in byName
    {
      AnswerStep(range, i, done, ifid, d, filtering);
      var verdict := VerdictOf(range[i], ifid, d, filtering);
      stop, more, all := verdict == AnswerLast, out, done;
      if verdict != Leave {
        RemoveOneMore(live, done, range[i]);
        StillThere(byName, range, i);
        ConsumePITEntry(range[i]);
        all := done + [range[i]];
        assert all[..|done|] == done;
        more := out + [Match(range[i].ifid, range[i].port)];
      }
    }
  }

  // What data answers, told by the table alone.

  ghost predicate WaitsForData(e: Entry, data: Data, now: real) {
    WaitsFor(e, data.content, data.answer.chunkId, now)
  }

  /** Before entry k there is one of the chunk that ends the search. */
  ghost predicate Finishes(es: seq<Entry>, k: int, ifid: nat, data: Data, now: real, filtering: bool) {
    exists j :: 0 <= j < k && j < |es| && WaitsForData(es[j], data, now) && Ends(es[j], ifid, data.answer, filtering)
  }

  lemma FinishesInRest(es: seq<Entry>, k: nat, ifid: nat, data: Data, now: real, filtering: bool)
    requires 0 < k < |es|
    ensures Finishes(es, k, ifid, data, now, filtering) <==>
      || (WaitsForData(es[0], data, now) && Ends(es[0], ifid, data.answer, filtering))
      || Finishes(es[1..], k - 1, ifid, data, now, filtering)
  {
    var rest := es[1..];
    if Finishes(rest, k - 1, ifid, data, now, filtering) {
      var j :| 0 <= j < k - 1 && j < |rest| && WaitsForData(rest[j], data, now)
               && Ends(rest[j], ifid, data.answer, filtering);
      assert es[j + 1] == rest[j];
    }
    if Finishes(es, k, ifid, data, now, filtering) {
      var j :| 0 <= j < k && j < |es| && WaitsForData(es[j], data, now) && Ends(es[j], ifid, data.answer, filtering);
      if j > 0 { assert rest[j - 1] == es[j]; }
    }
  }

  lemma AnsweredRest(es: seq<Entry>, ifid: nat, data: Data, now: real, filtering: bool)
    requires es != [] && KeysOk(es)
    ensures AnsweredIn(es, ifid, data, now, filtering) ==
      if !WaitsForData(es[0], data, now) then AnsweredIn(es[1..], ifid, data, now, filtering)
      else (if Takes(es[0], ifid, data.answer, filtering) then [es[0]] else [])
           + (if Ends(es[0], ifid, data.answer, filtering) then [] else AnsweredIn(es[1..], ifid, data, now, filtering))
  {
    var rest := Select(Live(es[1..], now), ChunkName(data.content, data.answer.chunkId));
    KeysMean(es, data.content, data.answer.chunkId);
    RangeHead(es, ChunkName(data.content, data.answer.chunkId), data.content, data.answer.chunkId, now);
    if WaitsForData(es[0], data, now) {
      assert ([es[0]] + rest)[1..] == rest;
      AnsweredHead([es[0]] + rest, ifid, data.answer, filtering);
    }
  }

  lemma AnsweredFromTable(es: seq<Entry>, ifid: nat, data: Data, now: real, filtering: bool)
    ensures forall e :: e in AnsweredIn(es, ifid, data, now, filtering) ==> e in es
  {
    LiveMembers(es, now);
    AnsweredFacts(Select(Live(es, now), ChunkName(data.content, data.answer.chunkId)), ifid, data.answer, filtering);
  }

  /** Data answers exactly the entries that wait for its chunk and may be answered, before the search ends. */
  lemma {:induction false} DataAnswers(es: seq<Entry>, ifid: nat, data: Data, now: real, filtering: bool, k: nat)
    requires KeysOk(es) && DistinctEntries(es) && k < |es|
    ensures es[k] in AnsweredIn(es, ifid, data, now, filtering) <==>
      && WaitsForData(es[k], data, now) && Takes(es[k], ifid, data.answer, filtering)
      && !Finishes(es, k, ifid, data, now, filtering)
    decreases |es|
  {
    var rest := es[1..];
    AnsweredRest(es, ifid, data, now, filtering);
    AnsweredFromTable(rest, ifid, data, now, filtering);
    assert es[0] !in rest;
    if k > 0 {
      DataAnswers(rest, ifid, data, now, filtering, k - 1);
      assert es[k] == rest[k - 1];
      FinishesInRest(es, k, ifid, data, now, filtering);
    }
  }

  /** And it answers them in the order of the table. */
  lemma DataAnswersInOrder(es: seq<Entry>, ifid: nat, data: Data, now: real, filtering: bool)
    ensures InOrder(AnsweredIn(es, ifid, data, now, filtering), es)
  {
    var live, key := Live(es, now), ChunkName(data.content, data.answer.chunkId);
    LiveInOrder(es, now);
    SelectInOrder(live, key);
    AnsweredInOrder(Select(live, key), ifid, data.answer, filtering);
    InOrderTrans(Select(live, key), live, es);
    InOrderTrans(AnsweredIn(es, ifid, data, now, filtering), Select(live, key), es);
  }

  /** With filtering, a remote interest keeps the one period of each chunk. */
  lemma PeriodKept(es: seq<Entry>, asked: map<string, real>, timer: real, now: real, at: nat, e: Entry)
    requires OnePeriod(es, asked, timer) && at <= |es|
    requires e.expiry == Until(Select(es, e.key), true, now + timer)
    ensures var range := Select(es, e.key);
      OnePeriod(InsertAt(es, at, e), if range == [] then asked[e.key := now] else asked, timer)
  {
    var range := Select(es, e.key);
    var asked' := if range == [] then asked[e.key := now] else asked;
    InsertedMembers(es, at, e);
    if range != [] { assert range[0] in range; }
    forall x | x in InsertAt(es, at, e) ensures x.key in asked' && x.expiry == asked'[x.key] + timer {
      if x != e && range == [] { assert x.key != e.key; }
    }
  }

  lemma PeriodAfterRequest(t: Table, r: Request, now: real)
    requires r.at <= |Live(t.byName, now)| && t.filtering && r.interest.chunkId != 0 && r.ifid != 0
    ensures var u := AfterRequest(t, r, now);
      OnePeriod(t.byName, t.asked, t.timer) ==> OnePeriod(u.byName, u.asked, u.timer)
  {
    LiveMembers(t.byName, now);
    if OnePeriod(t.byName, t.asked, t.timer) {
      var c := Cleaned(t, now);
      PeriodKept(c.byName, t.asked, t.timer, now, r.at, EntryFor(c, RangeOf(t, r.Key(), now), r, now));
    }
  }

  /** What data answers leaves the table, and nothing else does. */
  lemma AnsweredLeave(es: seq<Entry>, key: string, ifid: nat, d: Answer, filtering: bool)
    requires DistinctEntries(es)
    ensures var answered := Answered(Select(es, key), ifid, d, filtering);
      forall e :: e in RemoveAll(es, answered) <==> e in es && e !in answered
  {
    var range := Select(es, key);
    SelectDistinct(es, key);
    AnsweredFacts(range, ifid, d, filtering);
    AnsweredDistinct(range, ifid, d, filtering);
    RemoveAllMembers(es, Answered(range, ifid, d, filtering));
  }

  lemma {:induction false} LiveDistinct(es: seq<Entry>, now: real)
    requires DistinctEntries(es)
    ensures DistinctEntries(Live(es, now))
  {
    if es != [] {
      LiveDistinct(es[1..], now);
      LiveMembers(es[1..], now);
      forall x | x in Live(es[1..], now) ensures x.node != es[0].node && x.timer != es[0].timer {
        var k :| 0 <= k < |es| - 1 && es[1..][k] == x;
        assert es[k + 1] == x;
      }
    }
  }

  lemma PeriodLeft(es: seq<Entry>, asked: map<string, real>, timer: real, now: real, data: Data,
                   ifid: nat, filtering: bool)
    requires DistinctEntries(es)
    ensures var live := Live(es, now);
      var range := Select(live, ChunkName(data.content, data.answer.chunkId));
      var answered := Answered(range, ifid, data.answer, filtering);
      OnePeriod(es, asked, timer) ==> OnePeriod(RemoveAll(live, answered), asked, timer)
  {
    LiveMembers(es, now);
    LiveDistinct(es, now);
    AnsweredLeave(Live(es, now), ChunkName(data.content, data.answer.chunkId), ifid, data.answer, filtering);
  }

  /** done holds what data answers among the first i entries of the range. */
  ghost predicate SoFar(range: seq<Entry>, i: nat, done: seq<Entry>, ifid: nat, d: Answer, filtering: bool) {
    i <= |range| && Answered(range, ifid, d, filtering) == done + Answered(range[i..], ifid, d, filtering)
  }

  lemma AppendMore(a: seq<Entry>, b: seq<Entry>, e: Entry)
    ensures a + (b + [e]) == (a + b) + [e]
  {
  }

  lemma AnswerEnd(range: seq<Entry>, done: seq<Entry>, ifid: nat, d: Answer, filtering: bool)
    requires SoFar(range, |range|, done, ifid, d, filtering)
    ensures done == Answered(range, ifid, d, filtering)
  {
    assert range[|range|..] == [];
  }

  lemma AnswerStep(range: seq<Entry>, i: nat, done: seq<Entry>, ifid: nat, d: Answer, filtering: bool)
    requires i < |range| && SoFar(range, i, done, ifid, d, filtering)
    ensures match VerdictOf(range[i], ifid, d, filtering)
      case Leave => SoFar(range, i + 1, done, ifid, d, filtering)
      case AnswerOne => SoFar(range, i + 1, done + [range[i]], ifid, d, filtering)
      case AnswerLast => Answered(range, ifid, d, filtering) == done + [range[i]]
  {
    assert range[i..][0] == range[i] && range[i..][1..] == range[i + 1..];
  }

  lemma FirstEntry(es: seq<Entry>, ts: seq<Timer>, next: nat)
    requires Linked(es, ts, next) && ts != []
    ensures EntryAt(es, ts[0].entry) < |es| && TimerOf(es[EntryAt(es, ts[0].entry)]) == ts[0]
  {
    assert HasEntry(es, ts[0]);
    var x :| x in es && TimerOf(x) == ts[0];
    RemoveNodeMembers(es, x);
  }

  lemma TimerFound(es: seq<Entry>, ts: seq<Timer>, next: nat, i: nat)
    requires Linked(es, ts, next) && i < |es|
    ensures TimerAt(ts, es[i].timer) < |ts| && ts[TimerAt(ts, es[i].timer)] == TimerOf(es[i])
  {
    assert TimerOf(es[i]) in ts;
    var k :| 0 <= k < |ts| && ts[k] == TimerOf(es[i]);
  }

  lemma AllLater(es: seq<Entry>, ts: seq<Timer>, next: nat, now: real)
    requires Linked(es, ts, next) && (ts == [] || now < ts[0].expiry)
    ensures forall e :: e in es ==> now < e.expiry
  {
    forall e | e in es ensures now < e.expiry {
      assert TimerOf(e) in ts;
      var k :| 0 <= k < |ts| && ts[k] == TimerOf(e);
    }
  }

  lemma {:induction false} SelectDistinct(es: seq<Entry>, key: string)
    requires DistinctEntries(es)
    ensures DistinctEntries(Select(es, key))
  {
    if es != [] {
      SelectDistinct(es[1..], key);
      forall x | x in Select(es[1..], key) ensures x.node != es[0].node && x.timer != es[0].timer {
        var k :| 0 <= k < |es| - 1 && es[1..][k] == x;
        assert es[k + 1] == x;
      }
    }
  }

  /** Taking one entry out leaves the ones after it in the range. */
  lemma StillThere(es: seq<Entry>, range: seq<Entry>, i: nat)
    requires DistinctEntries(es) && DistinctEntries(range) && i < |range|
    requires forall j :: i <= j < |range| ==> range[j] in es
    ensures forall j :: i < j < |range| ==> range[j] in RemoveNode(es, range[i].node)
  {
    RemoveNodeMembers(es, range[i]);
  }
}
