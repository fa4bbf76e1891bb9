/** The entries of a pending Interest table, by name and by expiry, and what may happen to them. */
module PendingEntries {
  import opened Collections

  /**
   * A pending interest: the chunk's name, where it came from, and until when it is valid.
   * node stands for the iterator to it, timer for the one to its place in the order of expiry.
   */
  datatype Entry = Entry(node: nat, key: string, ifid: nat, expiry: real, content: string, chunkId: nat,
                         issued: real, port: nat, timer: nat)

  /** A place in the order of expiry, and the entry that expires then. */
  datatype Timer = Timer(node: nat, expiry: real, entry: nat)

  function TimerOf(e: Entry): Timer {
    Timer(e.timer, e.expiry, e.node)
  }

  ghost predicate DistinctEntries(es: seq<Entry>) {
    forall i, j :: 0 <= i < j < |es| ==> es[i].node != es[j].node && es[i].timer != es[j].timer
  }

  ghost predicate DistinctTimers(ts: seq<Timer>) {
    forall i, j :: 0 <= i < j < |ts| ==> ts[i].node != ts[j].node
  }

  ghost predicate ByExpiry(ts: seq<Timer>) {
    forall i, j :: 0 <= i < j < |ts| ==> ts[i].expiry <= ts[j].expiry
  }

  ghost predicate HasEntry(es: seq<Entry>, t: Timer) {
    exists e :: e in es && TimerOf(e) == t
  }

  /** Both orders hold the same entries, and each leads to the other. */
  ghost predicate Linked(es: seq<Entry>, ts: seq<Timer>, next: nat) {
    && DistinctEntries(es) && DistinctTimers(ts) && ByExpiry(ts)
    && (forall e :: e in es ==> TimerOf(e) in ts && e.node < next && e.timer < next)
    && (forall t :: t in ts ==> HasEntry(es, t) && t.node < next)
  }

  function EntryAt(es: seq<Entry>, node: nat): (i: nat)
    ensures i <= |es| && (i < |es| ==> es[i].node == node)
    ensures forall k :: 0 <= k < i ==> es[k].node != node
  {
    if es == [] || es[0].node == node then 0 else 1 + EntryAt(es[1..], node)
  }

  function TimerAt(ts: seq<Timer>, node: nat): (i: nat)
    ensures i <= |ts| && (i < |ts| ==> ts[i].node == node)
    ensures forall k :: 0 <= k < i ==> ts[k].node != node
  {
    if ts == [] || ts[0].node == node then 0 else 1 + TimerAt(ts[1..], node)
  }

  lemma InsertedMembers<T>(s: seq<T>, k: nat, x: T)
    requires k <= |s|
    ensures forall y :: y in InsertAt(s, k, x) <==> y in s || y == x
  {
    assert forall y :: y in s ==> y in s[..k] || y in s[k..] by {
      assert s == s[..k] + s[k..];
    }
  }

  lemma WithoutMembers<T>(s: seq<T>, i: nat)
    requires i < |s|
    ensures forall y :: y in s <==> y in RemoveAt(s, i) || y == s[i]
  {
    assert s == s[..i] + [s[i]] + s[i + 1..];
  }

  /** Where a new timer goes: after every timer that is not later. */
  function PlaceOf(ts: seq<Timer>, expiry: real): (k: nat)
    ensures k <= |ts|
    ensures forall j :: 0 <= j < k ==> ts[j].expiry <= expiry
    ensures ByExpiry(ts) ==> forall j :: k <= j < |ts| ==> expiry < ts[j].expiry
  {
    if ts == [] || expiry < ts[0].expiry then 0 else 1 + PlaceOf(ts[1..], expiry)
  }

  lemma LinkedInsert(es: seq<Entry>, ts: seq<Timer>, next: nat, at: nat, e: Entry)
    requires Linked(es, ts, next) && at <= |es| && e.node == e.timer == next
    ensures Linked(InsertAt(es, at, e), InsertAt(ts, PlaceOf(ts, e.expiry), TimerOf(e)), next + 1)
  {
    var k := PlaceOf(ts, e.expiry);
    InsertedMembers(es, at, e);
    InsertedMembers(ts, k, TimerOf(e));
    var es', ts' := InsertAt(es, at, e), InsertAt(ts, k, TimerOf(e));
    DistinctAfterInsert(es, at, e, next);
    TimersAfterInsert(ts, k, TimerOf(e), next);
    forall t | t in ts' ensures HasEntry(es', t) {
      if t == TimerOf(e) {
        assert e in es';
      } else {
        var x :| x in es && TimerOf(x) == t;
        assert x in es';
      }
    }
  }

  lemma DistinctAfterInsert(es: seq<Entry>, at: nat, e: Entry, next: nat)
    requires DistinctEntries(es) && at <= |es| && e.node == e.timer == next
    requires forall x :: x in es ==> x.node < next && x.timer < next
    ensures DistinctEntries(InsertAt(es, at, e))
  {
  }

  lemma TimersAfterInsert(ts: seq<Timer>, k: nat, t: Timer, next: nat)
    requires DistinctTimers(ts) && ByExpiry(ts) && k <= |ts| && t.node == next
    requires forall x :: x in ts ==> x.node < next
    requires forall j :: 0 <= j < k ==> ts[j].expiry <= t.expiry
    requires forall j :: k <= j < |ts| ==> t.expiry < ts[j].expiry
    ensures DistinctTimers(InsertAt(ts, k, t)) && ByExpiry(InsertAt(ts, k, t))
  {
  }

  lemma LinkedWithout(es: seq<Entry>, ts: seq<Timer>, next: nat, i: nat, k: nat)
    requires Linked(es, ts, next) && i < |es| && k < |ts| && ts[k] == TimerOf(es[i])
    ensures Linked(RemoveAt(es, i), RemoveAt(ts, k), next)
  {
    WithoutMembers(es, i);
    WithoutMembers(ts, k);
    var es', ts' := RemoveAt(es, i), RemoveAt(ts, k);
    forall e | e in es' ensures TimerOf(e) in ts' {
      assert TimerOf(e) in ts;
      var j :| 0 <= j < |es'| && es'[j] == e;
      assert es[if j < i then j else j + 1].timer == e.timer;
    }
    forall t | t in ts' ensures HasEntry(es', t) {
      var x :| x in es && TimerOf(x) == t;
      var j :| 0 <= j < |ts'| && ts'[j] == t;
      assert ts[if j < k then j else j + 1].node == t.node;
      assert x != es[i];
    }
  }

  // Expiry.

  ghost function Live(es: seq<Entry>, now: real): seq<Entry> {
    if es == [] then [] else (if now < es[0].expiry then [es[0]] else []) + Live(es[1..], now)
  }

  lemma {:induction false} LiveAll(es: seq<Entry>, now: real)
    requires forall e :: e in es ==> now < e.expiry
    ensures Live(es, now) == es
  {
    if es != [] { LiveAll(es[1..], now); }
  }

  lemma {:induction false} LiveWithout(es: seq<Entry>, i: nat, now: real)
    requires i < |es| && es[i].expiry <= now
    ensures Live(RemoveAt(es, i), now) == Live(es, now)
  {
    if i == 0 {
      assert RemoveAt(es, 0) == es[1..];
    } else {
      LiveWithout(es[1..], i - 1, now);
      assert RemoveAt(es, i)[1..] == RemoveAt(es[1..], i - 1);
    }
  }

  lemma {:induction false} LiveMembers(es: seq<Entry>, now: real)
    ensures forall e :: e in Live(es, now) <==> e in es && now < e.expiry
  {
    if es != [] { LiveMembers(es[1..], now); }
  }

  // Counting the entries of a kind.

  ghost function Tally(es: seq<Entry>, kind: Entry -> bool): nat {
    if es == [] then 0 else (if kind(es[0]) then 1 else 0) + Tally(es[1..], kind)
  }

  lemma {:induction false} TallyWithout(es: seq<Entry>, i: nat, kind: Entry -> bool)
    requires i < |es|
    ensures Tally(es, kind) == Tally(RemoveAt(es, i), kind) + if kind(es[i]) then 1 else 0
  {
    if i == 0 {
      assert RemoveAt(es, 0) == es[1..];
    } else {
      TallyWithout(es[1..], i - 1, kind);
      assert RemoveAt(es, i)[1..] == RemoveAt(es[1..], i - 1);
    }
  }

  lemma TallyInsert(es: seq<Entry>, k: nat, e: Entry, kind: Entry -> bool)
    requires k <= |es|
    ensures Tally(InsertAt(es, k, e), kind) == Tally(es, kind) + if kind(e) then 1 else 0
  {
    TallyWithout(InsertAt(es, k, e), k, kind);
    assert RemoveAt(InsertAt(es, k, e), k) == es;
  }

  lemma TallyAppend(es: seq<Entry>, e: Entry, kind: Entry -> bool)
    ensures Tally(es + [e], kind) == Tally(es, kind) + if kind(e) then 1 else 0
  {
    TallyWithout(es + [e], |es|, kind);
    assert RemoveAt(es + [e], |es|) == es;
  }

  /** Every interest that was recorded is still there, has expired, or was answered: one of them, and once. */
  ghost predicate Balanced(recorded: seq<Entry>, live: seq<Entry>, expired: seq<Entry>, sent: seq<Entry>) {
    forall kind: Entry -> bool :: Tally(recorded, kind) == Tally(live, kind) + Tally(expired, kind) + Tally(sent, kind)
  }

  lemma BalancedRecord(recorded: seq<Entry>, live: seq<Entry>, expired: seq<Entry>, sent: seq<Entry>, k: nat, e: Entry)
    requires Balanced(recorded, live, expired, sent) && k <= |live|
    ensures Balanced(recorded + [e], InsertAt(live, k, e), expired, sent)
  {
    forall kind: Entry -> bool
      ensures Tally(recorded + [e], kind) ==
              Tally(InsertAt(live, k, e), kind) + Tally(expired, kind) + Tally(sent, kind)
    {
      TallyInsert(live, k, e, kind);
      TallyAppend(recorded, e, kind);
    }
  }

  lemma BalancedLeave(recorded: seq<Entry>, live: seq<Entry>, expired: seq<Entry>, sent: seq<Entry>, i: nat)
    requires Balanced(recorded, live, expired, sent) && i < |live|
    ensures Balanced(recorded, RemoveAt(live, i), expired + [live[i]], sent)
    ensures Balanced(recorded, RemoveAt(live, i), expired, sent + [live[i]])
  {
    forall kind: Entry -> bool
      ensures Tally(recorded, kind) ==
              Tally(RemoveAt(live, i), kind) + Tally(expired + [live[i]], kind) + Tally(sent, kind)
      ensures Tally(recorded, kind) ==
              Tally(RemoveAt(live, i), kind) + Tally(expired, kind) + Tally(sent + [live[i]], kind)
    {
      TallyWithout(live, i, kind);
      TallyAppend(expired, live[i], kind);
      TallyAppend(sent, live[i], kind);
    }
  }

  /** Data that goes out on an interface for a chunk never exceeds the interests that came in there for it. */
  lemma FlowBalance(recorded: seq<Entry>, live: seq<Entry>, expired: seq<Entry>, sent: seq<Entry>,
                    ifid: nat, key: string)
    requires Balanced(recorded, live, expired, sent)
    ensures var here := (e: Entry) => e.ifid == ifid && e.key == key; Tally(sent, here) <= Tally(recorded, here)
  {
    var here := (e: Entry) => e.ifid == ifid && e.key == key;
    assert Tally(recorded, here) == Tally(live, here) + Tally(expired, here) + Tally(sent, here);
  }

  // Answering.

  function Select(es: seq<Entry>, key: string): (r: seq<Entry>)
    ensures forall e :: e in r <==> e in es && e.key == key
  {
    if es == [] then [] else (if es[0].key == key then [es[0]] else []) + Select(es[1..], key)
  }

  /** The data packet's chunk number, and the issue time and port of the interest that asked for it. */
  datatype Answer = Answer(chunkId: nat, issued: real, port: nat)

  /** What data does to one entry of its chunk: leave it, answer it, or answer it and look no further. */
  datatype Verdict = Leave | AnswerOne | AnswerLast

  function VerdictOf(e: Entry, ifid: nat, d: Answer, filtering: bool): Verdict {
    if e.ifid == ifid then Leave
    else if d.chunkId == 0 || !filtering then
      (if e.issued == d.issued && e.port == d.port then AnswerLast else Leave)
    else if e.ifid == 0 then
      (if e.port == d.port then AnswerLast else Leave)
    else AnswerOne
  }

  /** The entries of a chunk that data from an interface answers, in the order of the table. */
  ghost function Answered(range: seq<Entry>, ifid: nat, d: Answer, filtering: bool): seq<Entry> {
    if range == [] then [] else
      match VerdictOf(range[0], ifid, d, filtering)
      case Leave => Answered(range[1..], ifid, d, filtering)
      case AnswerOne => [range[0]] + Answered(range[1..], ifid, d, filtering)
      case AnswerLast => [range[0]]
  }

  /** Nothing goes back to where the data came from; without filtering one interest is answered at most. */
  lemma {:induction false} AnsweredFacts(range: seq<Entry>, ifid: nat, d: Answer, filtering: bool)
    ensures forall e :: e in Answered(range, ifid, d, filtering) ==> e in range && e.ifid != ifid
    ensures d.chunkId == 0 || !filtering ==> |Answered(range, ifid, d, filtering)| <= 1
    ensures d.chunkId == 0 || !filtering ==>
      forall e :: e in Answered(range, ifid, d, filtering) ==> e.issued == d.issued && e.port == d.port
    ensures forall e :: e in Answered(range, ifid, d, filtering) && e.ifid == 0 ==> e.port == d.port
  {
    if range != [] { AnsweredFacts(range[1..], ifid, d, filtering); }
  }

  /** With filtering, data that no local process waits for answers every other interface that waits. */
  lemma {:induction false} AnswersAllRemote(range: seq<Entry>, ifid: nat, d: Answer)
    requires d.chunkId != 0 && forall e :: e in range && e.ifid == 0 ==> e.port != d.port || ifid == 0
    ensures forall e :: e in range && e.ifid != ifid && e.ifid != 0 ==> e in Answered(range, ifid, d, true)
  {
    if range != [] { AnswersAllRemote(range[1..], ifid, d); }
  }

  /** Another interface that waits. */
  predicate Remote(e: Entry, ifid: nat) {
    e.ifid != 0 && e.ifid != ifid
  }

  /** A local entry for the data's port, which is answered last of all. */
  predicate Stops(e: Entry, ifid: nat, d: Answer) {
    e.ifid == 0 && ifid != 0 && e.port == d.port
  }

  ghost predicate AllRemoteAnswered(range: seq<Entry>, ifid: nat, d: Answer) {
    forall e :: e in range && Remote(e, ifid) ==> e in Answered(range, ifid, d, true)
  }

  ghost predicate StopsBeforeRemote(range: seq<Entry>, ifid: nat, d: Answer) {
    exists i, j :: 0 <= i < j < |range| && Stops(range[i], ifid, d) && Remote(range[j], ifid)
  }

  /** With filtering, data answers every other interface that waits exactly if no local entry for its port
      stands before one of them. */
  lemma {:induction false} AnswersAllRemoteIff(range: seq<Entry>, ifid: nat, d: Answer)
    requires d.chunkId != 0 && DistinctEntries(range)
    ensures AllRemoteAnswered(range, ifid, d) <==> !StopsBeforeRemote(range, ifid, d)
  {
    if range != [] {
      var rest := range[1..];
      AnswersAllRemoteIff(rest, ifid, d);
      if Stops(range[0], ifid, d) {
        StoppedAtOnce(range, ifid, d);
      } else {
        assert StopsBeforeRemote(range, ifid, d) <==> StopsBeforeRemote(rest, ifid, d) by {
          StopsInRest(range, ifid, d);
        }
        assert forall e :: e in range <==> e == range[0] || e in rest;
        assert range[0] !in rest;
      }
    }
  }

  lemma StoppedAtOnce(range: seq<Entry>, ifid: nat, d: Answer)
    requires range != [] && d.chunkId != 0 && Stops(range[0], ifid, d)
    ensures AllRemoteAnswered(range, ifid, d) <==> !StopsBeforeRemote(range, ifid, d)
  {
    assert Answered(range, ifid, d, true) == [range[0]];
    forall e | e in range && Remote(e, ifid) ensures StopsBeforeRemote(range, ifid, d) {
      var j :| 0 <= j < |range| && range[j] == e;
      assert 0 < j && Stops(range[0], ifid, d) && Remote(range[j], ifid);
    }
  }

  lemma StopsInRest(range: seq<Entry>, ifid: nat, d: Answer)
    requires range != [] && !Stops(range[0], ifid, d)
    ensures StopsBeforeRemote(range, ifid, d) <==> StopsBeforeRemote(range[1..], ifid, d)
  {
    var rest := range[1..];
    if StopsBeforeRemote(range, ifid, d) {
      var i, j :| 0 <= i < j < |range| && Stops(range[i], ifid, d) && Remote(range[j], ifid);
      assert Stops(rest[i - 1], ifid, d) && Remote(rest[j - 1], ifid);
    }
    if StopsBeforeRemote(rest, ifid, d) {
      var i, j :| 0 <= i < j < |rest| && Stops(rest[i], ifid, d) && Remote(rest[j], ifid);
      assert Stops(range[i + 1], ifid, d) && Remote(range[j + 1], ifid);
    }
  }

  /** A local process and interface 1 wait for a chunk: data for the process from interface 2 leaves
      interface 1 waiting. */
  lemma LocalEntryStopsAnswers(key: string, content: string, chunkId: nat, issued: real, port: nat, expiry: real)
    requires chunkId != 0
    ensures var home := Entry(0, key, 0, expiry, content, chunkId, issued, port, 0);
      var remote := Entry(1, key, 1, expiry, content, chunkId, issued, port, 1);
      var range := [home, remote];
      && DistinctEntries(range) && Answered(range, 2, Answer(chunkId, issued, port), true) == [home]
      && !AllRemoteAnswered(range, 2, Answer(chunkId, issued, port))
  {
    var home := Entry(0, key, 0, expiry, content, chunkId, issued, port, 0);
    var remote := Entry(1, key, 1, expiry, content, chunkId, issued, port, 1);
    assert Remote([home, remote][1], 2);
  }

  /** The interest that the data answers: the one issued then at that port, and not where the data comes from. */
  predicate IsAsker(e: Entry, ifid: nat, d: Answer) {
    e.ifid != ifid && e.issued == d.issued && e.port == d.port
  }

  ghost predicate IsFirstAsker(range: seq<Entry>, k: nat, ifid: nat, d: Answer) {
    k < |range| && IsAsker(range[k], ifid, d) && forall j :: 0 <= j < k ==> !IsAsker(range[j], ifid, d)
  }

  /** Without filtering, and for chunk 0, data answers the first interest of its issue time and port alone. */
  lemma {:induction false} AnswersAskerAlone(range: seq<Entry>, ifid: nat, d: Answer, filtering: bool, k: nat)
    requires (d.chunkId == 0 || !filtering) && IsFirstAsker(range, k, ifid, d)
    ensures Answered(range, ifid, d, filtering) == [range[k]]
    decreases k
  {
    if k > 0 {
      var rest := range[1..];
      assert !IsAsker(range[0], ifid, d);
      assert forall j :: 0 <= j < |rest| ==> rest[j] == range[j + 1];
      AnswersAskerAlone(rest, ifid, d, filtering, k - 1);
    }
  }

  /** Without such an interest it answers nobody. */
  lemma {:induction false} AnswersNobody(range: seq<Entry>, ifid: nat, d: Answer, filtering: bool)
    requires d.chunkId == 0 || !filtering
    requires forall j :: 0 <= j < |range| ==> !IsAsker(range[j], ifid, d)
    ensures Answered(range, ifid, d, filtering) == []
  {
    if range != [] {
      AnswersNobody(range[1..], ifid, d, filtering);
    }
  }

  /** What data may answer; the last of these ends the search. */
  predicate Takes(e: Entry, ifid: nat, d: Answer, filtering: bool) {
    if d.chunkId == 0 || !filtering then IsAsker(e, ifid, d) else Remote(e, ifid) || Stops(e, ifid, d)
  }

  predicate Ends(e: Entry, ifid: nat, d: Answer, filtering: bool) {
    if d.chunkId == 0 || !filtering then IsAsker(e, ifid, d) else Stops(e, ifid, d)
  }

  ghost predicate EndsBefore(range: seq<Entry>, k: int, ifid: nat, d: Answer, filtering: bool) {
    exists j :: 0 <= j < k && j < |range| && Ends(range[j], ifid, d, filtering)
  }

  lemma AnsweredHead(range: seq<Entry>, ifid: nat, d: Answer, filtering: bool)
    requires range != []
    ensures Answered(range, ifid, d, filtering) ==
      (if Takes(range[0], ifid, d, filtering) then [range[0]] else [])
      + (if Ends(range[0], ifid, d, filtering) then [] else Answered(range[1..], ifid, d, filtering))
  {
  }

  /** Data answers exactly the entries that it may answer before the search ends. */
  lemma {:induction false} AnswersExactly(range: seq<Entry>, ifid: nat, d: Answer, filtering: bool, k: nat)
    requires DistinctEntries(range) && k < |range|
    ensures range[k] in Answered(range, ifid, d, filtering) <==>
      Takes(range[k], ifid, d, filtering) && !EndsBefore(range, k, ifid, d, filtering)
    decreases |range|
  {
    var rest := range[1..];
    AnsweredHead(range, ifid, d, filtering);
    AnsweredFacts(rest, ifid, d, filtering);
    assert range[0] !in rest;
    if k > 0 {
      AnswersExactly(rest, ifid, d, filtering, k - 1);
      assert range[k] == rest[k - 1];
      EndsInRest(range, k, ifid, d, filtering);
    }
  }

  lemma EndsInRest(range: seq<Entry>, k: nat, ifid: nat, d: Answer, filtering: bool)
    requires 0 < k < |range|
    ensures EndsBefore(range, k, ifid, d, filtering) <==>
      Ends(range[0], ifid, d, filtering) || EndsBefore(range[1..], k - 1, ifid, d, filtering)
  {
    var rest := range[1..];
    if EndsBefore(range, k, ifid, d, filtering) && !Ends(range[0], ifid, d, filtering) {
      var j :| 0 <= j < k && j < |range| && Ends(range[j], ifid, d, filtering);
      assert Ends(rest[j - 1], ifid, d, filtering);
    }
    if EndsBefore(rest, k - 1, ifid, d, filtering) {
      var j :| 0 <= j < k - 1 && j < |rest| && Ends(rest[j], ifid, d, filtering);
      assert Ends(range[j + 1], ifid, d, filtering);
    }
  }

  // The order of what is selected.

  ghost predicate Before(s: seq<Entry>, x: Entry, y: Entry) {
    exists i, j :: 0 <= i < j < |s| && s[i] == x && s[j] == y
  }

  /** Entries of s, in the order of s. */
  ghost predicate InOrder(r: seq<Entry>, s: seq<Entry>) {
    (forall e :: e in r ==> e in s) && forall i, j :: 0 <= i < j < |r| ==> Before(s, r[i], r[j])
  }

  lemma InOrderMore(r: seq<Entry>, s: seq<Entry>, e: Entry)
    requires InOrder(r, s)
    ensures InOrder(r, [e] + s) && InOrder([e] + r, [e] + s)
  {
    var q, t := [e] + r, [e] + s;
    forall i, j | 0 <= i < j < |r| ensures Before(t, r[i], r[j]) {
      assert Before(s, r[i], r[j]);
      var a, b :| 0 <= a < b < |s| && s[a] == r[i] && s[b] == r[j];
      assert t[a + 1] == r[i] && t[b + 1] == r[j];
    }
    forall j | 0 <= j < |r| ensures Before(t, e, r[j]) {
      assert r[j] in s;
      var b :| 0 <= b < |s| && s[b] == r[j];
      assert t[0] == e && t[b + 1] == r[j];
    }
    forall i, j | 0 <= i < j < |q| ensures Before(t, q[i], q[j]) {
      assert q[j] == r[j - 1];
      if i > 0 { assert q[i] == r[i - 1]; }
    }
  }

  lemma InOrderTrans(a: seq<Entry>, b: seq<Entry>, c: seq<Entry>)
    requires InOrder(a, b) && InOrder(b, c)
    ensures InOrder(a, c)
  {
    forall i, j | 0 <= i < j < |a| ensures Before(c, a[i], a[j]) {
      assert Before(b, a[i], a[j]);
      var p, q :| 0 <= p < q < |b| && b[p] == a[i] && b[q] == a[j];
      assert Before(c, b[p], b[q]);
    }
  }

  lemma {:induction false} LiveInOrder(es: seq<Entry>, now: real)
    ensures InOrder(Live(es, now), es)
  {
    if es != [] {
      LiveInOrder(es[1..], now);
      InOrderMore(Live(es[1..], now), es[1..], es[0]);
      assert [es[0]] + es[1..] == es;
      assert [] + Live(es[1..], now) == Live(es[1..], now);
    }
  }

  lemma {:induction false} SelectInOrder(es: seq<Entry>, key: string)
    ensures InOrder(Select(es, key), es)
  {
    if es != [] {
      SelectInOrder(es[1..], key);
      InOrderMore(Select(es[1..], key), es[1..], es[0]);
      assert [es[0]] + es[1..] == es;
      assert [] + Select(es[1..], key) == Select(es[1..], key);
    }
  }

  lemma {:induction false} AnsweredInOrder(range: seq<Entry>, ifid: nat, d: Answer, filtering: bool)
    ensures InOrder(Answered(range, ifid, d, filtering), range)
  {
    if range != [] {
      AnsweredInOrder(range[1..], ifid, d, filtering);
      InOrderMore(Answered(range[1..], ifid, d, filtering), range[1..], range[0]);
      assert [range[0]] + range[1..] == range;
      assert range[0] in range;
    }
  }

  function RemoveNode(es: seq<Entry>, node: nat): seq<Entry> {
    var i := EntryAt(es, node);
    if i < |es| then RemoveAt(es, i) else es
  }

  ghost function RemoveAll(es: seq<Entry>, gone: seq<Entry>): seq<Entry> {
    if gone == [] then es else RemoveNode(RemoveAll(es, gone[..|gone| - 1]), gone[|gone| - 1].node)
  }

  lemma RemoveOneMore(es: seq<Entry>, gone: seq<Entry>, e: Entry)
    ensures RemoveAll(es, gone + [e]) == RemoveNode(RemoveAll(es, gone), e.node)
  {
    assert (gone + [e])[..|gone|] == gone;
  }

  lemma RemoveNodeMembers(es: seq<Entry>, e: Entry)
    requires DistinctEntries(es) && e in es
    ensures EntryAt(es, e.node) < |es| && es[EntryAt(es, e.node)] == e
    ensures forall x :: x in RemoveNode(es, e.node) <==> x in es && x.node != e.node
  {
    var k :| 0 <= k < |es| && es[k] == e;
    var i := EntryAt(es, e.node);
    assert i == k;
    WithoutMembers(es, i);
    forall x | x in RemoveNode(es, e.node) ensures x.node != e.node {
      var j :| 0 <= j < |es| - 1 && RemoveAt(es, i)[j] == x;
      assert es[if j < i then j else j + 1] == x;
    }
  }

  /** The entries that data answers leave the table, and no other. */
  lemma {:induction false} RemoveAllMembers(es: seq<Entry>, gone: seq<Entry>)
    requires DistinctEntries(es) && DistinctEntries(gone) && forall e :: e in gone ==> e in es
    ensures DistinctEntries(RemoveAll(es, gone))
    ensures forall x :: x in RemoveAll(es, gone) <==> x in es && x !in gone
  {
    if gone != [] {
      var n := |gone| - 1;
      var before, e := gone[..n], gone[n];
      RemoveAllMembers(es, before);
      var rest := RemoveAll(es, before);
      assert gone == before + [e];
      assert e in rest;
      RemoveNodeMembers(rest, e);
      forall x | x in es && x.node == e.node ensures x == e {
        SameNode(es, x, e);
      }
    }
  }

  lemma SameNode(es: seq<Entry>, x: Entry, e: Entry)
    requires DistinctEntries(es) && x in es && e in es && x.node == e.node
    ensures x == e
  {
  }

  lemma {:induction false} AnsweredDistinct(range: seq<Entry>, ifid: nat, d: Answer, filtering: bool)
    requires DistinctEntries(range)
    ensures DistinctEntries(Answered(range, ifid, d, filtering))
  {
    if range != [] {
      AnsweredDistinct(range[1..], ifid, d, filtering);
      AnsweredFacts(range[1..], ifid, d, filtering);
      var more := Answered(range[1..], ifid, d, filtering);
      forall k | 0 <= k < |more| ensures more[k].node != range[0].node && more[k].timer != range[0].timer {
        assert more[k] in range[1..];
      }
    }
  }

  /** Entries are numbered in the order they are recorded. */
  ghost predicate Numbered(recorded: seq<Entry>, next: nat) {
    |recorded| == next && forall i :: 0 <= i < next ==> recorded[i].node == i
  }

  lemma {:induction false} NoneOfKind(es: seq<Entry>, kind: Entry -> bool)
    requires forall i :: 0 <= i < |es| ==> !kind(es[i])
    ensures Tally(es, kind) == 0
  {
    if es != [] { NoneOfKind(es[1..], kind); }
  }

  /** Every interest recorded is in one place only: the table, the expired ones, or the answered ones. */
  lemma LeavesOnce(recorded: seq<Entry>, live: seq<Entry>, expired: seq<Entry>, sent: seq<Entry>, next: nat, node: nat)
    requires Numbered(recorded, next) && Balanced(recorded, live, expired, sent) && node < next
    ensures var it := (e: Entry) => e.node == node; Tally(live, it) + Tally(expired, it) + Tally(sent, it) == 1
  {
    var it := (e: Entry) => e.node == node;
    TallyWithout(recorded, node, it);
    NoneOfKind(RemoveAt(recorded, node), it);
    assert Tally(recorded, it) == Tally(live, it) + Tally(expired, it) + Tally(sent, it);
  }
}
