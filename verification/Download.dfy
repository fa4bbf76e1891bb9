/** Where the chunks of a download are, on values: not requested, in a window, to be reissued, or received. */
module Download {
  import opened Windows

  /** Chunks 0..last; chunk 0 is the description. notreq is in increasing order. */
  datatype State = State(notreq: seq<nat>, received: seq<bool>, requests: seq<nat>, windows: seq<Window>)

  ghost predicate Increasing(s: seq<nat>) {
    forall i, j :: 0 <= i < j < |s| ==> s[i] < s[j]
  }

  /** In how many windows and reissue lists a chunk is. */
  ghost function Held(windows: seq<Window>, c: nat): nat {
    if windows == [] then 0 else In(windows[0], c) + Held(windows[1..], c)
  }

  ghost function Places(s: State, c: nat): nat
    requires c < |s.received|
  {
    (if c in s.notreq then 1 else 0) + Held(s.windows, c) + (if s.received[c] then 1 else 0)
  }

  ghost predicate WindowsOk(windows: seq<Window>) {
    forall i :: 0 <= i < |windows| ==> WindowOk(windows[i])
  }

  /** Every chunk is in exactly one place; what was never asked for has no requests. */
  ghost predicate Partition(s: State) {
    match s
    case State(notreq, received, requests, windows) =>
      && |received| == |requests| > 0
      && Increasing(notreq)
      && WindowsOk(windows)
      && (forall c :: c in notreq ==> c < |received| && requests[c] == 0)
      && (forall c :: 1 <= c < |received| ==> Places(s, c) == 1)
      && forall c :: (c == 0 || c >= |received|) ==> Held(windows, c) == 0
  }

  lemma {:induction false} HeldUpdate(windows: seq<Window>, i: nat, w: Window, c: nat)
    requires i < |windows|
    ensures Held(windows[i := w], c) == Held(windows, c) - In(windows[i], c) + In(w, c)
    ensures In(windows[i], c) <= Held(windows, c)
  {
    if i == 0 {
      assert windows[0 := w][1..] == windows[1..];
    } else {
      HeldUpdate(windows[1..], i - 1, w, c);
      assert windows[i := w][1..] == windows[1..][i - 1 := w];
    }
  }

  lemma {:induction false} HeldNone(windows: seq<Window>, c: nat)
    requires forall i :: 0 <= i < |windows| ==> In(windows[i], c) == 0
    ensures Held(windows, c) == 0
  {
    if windows != [] { HeldNone(windows[1..], c); }
  }

  // What the events do.

  ghost function TimeoutAt(s: State, i: nat, c: nat, now: real, opts: Setting, settled: bool): State
    requires i < |s.windows|
  {
    s.(windows := s.windows[i := TimedOut(s.windows[i], c, now, opts, settled)])
  }

  ghost function ArrivalAt(s: State, i: nat, c: nat, opts: Setting): State
    requires i < |s.windows| && c < |s.received|
  {
    s.(windows := s.windows[i := Arrived(s.windows[i], c, opts)], received := s.received[c := true])
  }

  ghost function Without(s: seq<nat>, c: nat): seq<nat> {
    if s == [] then [] else if s[0] == c then s[1..] else [s[0]] + Without(s[1..], c)
  }

  ghost function FirstRequest(s: State, i: nat, c: nat, now: real): State
    requires i < |s.windows|
  {
    s.(notreq := Without(s.notreq, c), windows := s.windows[i := Requested(s.windows[i], c, now)])
  }

  ghost function ReissueAt(s: State, i: nat, c: nat, time: real): State
    requires i < |s.windows|
  {
    s.(windows := s.windows[i := Reissued(s.windows[i], c, time)])
  }

  ghost function Forwarded(s: State, c: nat): State
    requires c < |s.requests|
  {
    s.(requests := s.requests[c := s.requests[c] + 1])
  }

  /** A chunk that only one window holds. */
  lemma HeldThere(s: State, i: nat, c: nat)
    requires Partition(s) && i < |s.windows| && In(s.windows[i], c) > 0
    ensures 1 <= c < |s.received| && c !in s.notreq && !s.received[c]
    ensures In(s.windows[i], c) == 1 && Held(s.windows, c) == 1
  {
    HeldUpdate(s.windows, i, s.windows[i], c);
    assert c >= 1 && c < |s.received| ==> Places(s, c) == 1;
  }

  lemma TimeoutKeeps(s: State, i: nat, c: nat, now: real, opts: Setting, settled: bool)
    requires Partition(s) && i < |s.windows|
    ensures Partition(TimeoutAt(s, i, c, now, opts, settled))
  {
    var w := s.windows[i];
    var t := TimeoutAt(s, i, c, now, opts, settled);
    EventsKeepWindow(w, c, now, opts, settled);
    forall x: nat ensures Held(t.windows, x) == Held(s.windows, x) {
      TimedOutMoves(w, c, now, opts, settled, x);
      HeldUpdate(s.windows, i, t.windows[i], x);
    }
    assert forall x :: 1 <= x < |s.received| ==> Places(t, x) == Places(s, x);
  }

  /** Data takes a chunk out of the window that asked for it; a copy of a received chunk changes nothing there. */
  lemma ArrivalKeeps(s: State, i: nat, c: nat, opts: Setting)
    requires Partition(s) && i < |s.windows| && 1 <= c < |s.received|
    requires s.received[c] || In(s.windows[i], c) > 0
    ensures Partition(ArrivalAt(s, i, c, opts))
  {
    var w := s.windows[i];
    var t := ArrivalAt(s, i, c, opts);
    EventsKeepWindow(w, c, 0.0, opts, false);
    assert Places(s, c) == 1;
    HeldUpdate(s.windows, i, t.windows[i], c);
    forall x: nat ensures Held(t.windows, x) == if x == c then 0 else Held(s.windows, x) {
      ArrivedTakes(w, c, opts, x);
      HeldUpdate(s.windows, i, t.windows[i], x);
    }
    assert forall x :: 1 <= x < |s.received| && x != c ==> Places(t, x) == Places(s, x);
  }

  /**
   * The exact condition: data keeps every chunk in one place just if it comes on the interface that asked for it
   * or the chunk is there already. Otherwise the chunk is received and still asked for, or still to be.
   */
  lemma ArrivalKeepsIff(s: State, i: nat, c: nat, opts: Setting)
    requires Partition(s) && i < |s.windows| && 1 <= c < |s.received|
    ensures Partition(ArrivalAt(s, i, c, opts)) <==> s.received[c] || In(s.windows[i], c) > 0
  {
    if s.received[c] || In(s.windows[i], c) > 0 {
      ArrivalKeeps(s, i, c, opts);
    } else {
      var t := ArrivalAt(s, i, c, opts);
      ArrivedTakes(s.windows[i], c, opts, c);
      HeldUpdate(s.windows, i, t.windows[i], c);
      assert Places(s, c) == 1;
      assert Places(t, c) == 2;
    }
  }

  /** The first window waits for chunk 1, which comes on the second interface: chunk 1 is received, and the
      first window still waits for it. */
  lemma ArrivalElsewhere(t: real, opts: Setting)
    ensures var s := State([], [true, false], [1, 1], [Window(1, map[1 := t], map[], 0, 0.0),
                                                       Window(1, map[], map[], 0, 0.0)]);
      && Partition(s) && Places(s, 1) == 1
      && Places(ArrivalAt(s, 1, 1, opts), 1) == 2 && !Partition(ArrivalAt(s, 1, 1, opts))
  {
    var a, b := Window(1, map[1 := t], map[], 0, 0.0), Window(1, map[], map[], 0, 0.0);
    var s := State([], [true, false], [1, 1], [a, b]);
    forall c: nat ensures Held([a, b], c) == if c == 1 then 1 else 0 {
      HeldOfTwo(a, b, c);
    }
    assert Places(s, 1) == 1;
    ArrivalKeepsIff(s, 1, 1, opts);
    var v := Arrived(b, 1, opts);
    HeldOfTwo(a, v, 1);
    assert ArrivalAt(s, 1, 1, opts).windows == [a, v];
  }

  lemma HeldOfTwo(a: Window, b: Window, c: nat)
    ensures Held([a, b], c) == In(a, c) + In(b, c)
  {
    assert [a, b][1..] == [b] && [b][1..] == [];
    assert Held([b], c) == In(b, c);
  }

  lemma {:induction false} WithoutMembers(s: seq<nat>, c: nat)
    requires Increasing(s)
    ensures Increasing(Without(s, c))
    ensures forall x :: x in Without(s, c) <==> x in s && x != c
  {
    if s != [] && s[0] != c {
      WithoutMembers(s[1..], c);
      forall k | 0 <= k < |Without(s[1..], c)| ensures s[0] < Without(s[1..], c)[k] {
        assert Without(s[1..], c)[k] in s[1..];
      }
    }
  }

  /** A chunk that nobody asked for yet goes to the window of one interface. */
  lemma FirstRequestKeeps(s: State, i: nat, c: nat, now: real)
    requires Partition(s) && i < |s.windows| && c in s.notreq && c >= 1 && !s.received[c]
    ensures Partition(FirstRequest(s, i, c, now)) && In(s.windows[i], c) == 0
  {
    var w := s.windows[i];
    var t := FirstRequest(s, i, c, now);
    assert Places(s, c) == 1;
    HeldUpdate(s.windows, i, w, c);
    EventsKeepWindow(w, c, now, Setting(false, 0.0), false);
    WithoutMembers(s.notreq, c);
    forall x: nat ensures Held(t.windows, x) == if x == c then 1 else Held(s.windows, x) {
      HeldUpdate(s.windows, i, t.windows[i], x);
    }
    assert forall x :: 1 <= x < |s.received| && x != c ==> Places(t, x) == Places(s, x);
  }

  lemma ReissueKeeps(s: State, i: nat, c: nat, time: real)
    requires Partition(s) && i < |s.windows| && c in s.windows[i].reissue
    ensures Partition(ReissueAt(s, i, c, time)) && c !in s.windows[i].win
  {
    var w := s.windows[i];
    var t := ReissueAt(s, i, c, time);
    EventsKeepWindow(w, c, time, Setting(false, 0.0), false);
    forall x: nat ensures Held(t.windows, x) == Held(s.windows, x) {
      HeldUpdate(s.windows, i, t.windows[i], x);
    }
    assert forall x :: 1 <= x < |s.received| ==> Places(t, x) == Places(s, x);
  }

  /** Dropping a received chunk from those not requested: only the description is ever there. */
  lemma DropKeeps(s: State, c: nat)
    requires Partition(s) && c in s.notreq && s.received[c]
    ensures c == 0 && Partition(s.(notreq := Without(s.notreq, c)))
  {
    WithoutMembers(s.notreq, c);
    assert c >= 1 ==> Places(s, c) == 1;
    var t := s.(notreq := Without(s.notreq, c));
    assert forall x :: 1 <= x < |s.received| ==> Places(t, x) == Places(s, x);
  }

  /** A request that goes on is of a chunk that was asked for before. */
  lemma ForwardedKeeps(s: State, c: nat)
    requires Partition(s) && c < |s.requests| && c !in s.notreq
    ensures Partition(Forwarded(s, c))
  {
    var t := Forwarded(s, c);
    assert forall x :: 1 <= x < |s.received| ==> Places(t, x) == Places(s, x);
  }

  /** The description arrives first, and goes to no window. */
  lemma DescriptionKeeps(s: State)
    requires Partition(s)
    ensures Partition(s.(received := s.received[0 := true]))
  {
    var t := s.(received := s.received[0 := true]);
    assert forall x :: 1 <= x < |s.received| ==> Places(t, x) == Places(s, x);
  }

  // How many chunks were received.

  ghost function Count(received: seq<bool>): nat {
    if received == [] then 0 else (if received[0] then 1 else 0) + Count(received[1..])
  }

  lemma {:induction false} CountSet(received: seq<bool>, c: nat)
    requires c < |received| && !received[c]
    ensures Count(received[c := true]) == Count(received) + 1
  {
    if c == 0 {
      assert received[0 := true][1..] == received[1..];
    } else {
      CountSet(received[1..], c - 1);
      assert received[c := true][1..] == received[1..][c - 1 := true];
    }
  }

  lemma {:induction false} CountAll(received: seq<bool>)
    ensures Count(received) <= |received|
    ensures Count(received) == |received| <==> forall c :: 0 <= c < |received| ==> received[c]
  {
    if received != [] { CountAll(received[1..]); }
  }
}
