/** The interest window of one interface, on values: what each event does to it. */
module Windows {
  import opened Collections

  /**
   * win holds the chunks that are asked for and not answered, reissue those whose timer ran out;
   * each with the time of its first request.
   */
  datatype Window = Window(size: nat, win: map<nat, real>, reissue: map<nat, real>, winReceived: nat, decreased: real)

  /** Whether the window changes with answers and timeouts, and the timer after which a chunk is asked for again. */
  datatype Setting = Setting(aimd: bool, timer: real)

  ghost predicate WindowOk(w: Window) {
    w.size >= 1 && w.winReceived < w.size && forall c :: c in w.win ==> c !in w.reissue
  }

  function Max(a: int, b: int): int {
    if a < b then b else a
  }

  ghost function Increased(w: Window): Window {
    if w.winReceived + 1 == w.size then w.(size := w.size + 1, winReceived := 0)
    else w.(winReceived := w.winReceived + 1)
  }

  ghost function Decreased(w: Window, now: real, timer: real, settled: bool): Window {
    if w.size / 2 >= 1 && now - w.decreased > timer && settled
    then w.(size := w.size / 2, winReceived := 0, decreased := now)
    else w
  }

  ghost function TimedOut(w: Window, c: nat, now: real, s: Setting, settled: bool): Window {
    if c !in w.win then w
    else
      var v := w.(reissue := if c in w.reissue then w.reissue else w.reissue[c := w.win[c]], win := w.win - {c});
      if s.aimd then Decreased(v, now, s.timer, settled) else v
  }

  ghost function Arrived(w: Window, c: nat, s: Setting): Window {
    if c in w.reissue then w.(reissue := w.reissue - {c})
    else if c in w.win then
      var v := w.(win := w.win - {c});
      if s.aimd then Increased(v) else v
    else w
  }

  ghost function Requested(w: Window, c: nat, time: real): Window {
    if c in w.win then w else w.(win := w.win[c := time])
  }

  ghost predicate IsFirst(c: nat, m: map<nat, real>) {
    c in m && forall d :: d in m ==> c <= d
  }

  ghost function Reissued(w: Window, c: nat, time: real): Window {
    Requested(w.(reissue := w.reissue - {c}), c, time)
  }

  /** In how many of the two places a chunk is. */
  ghost function In(w: Window, c: nat): nat {
    (if c in w.win then 1 else 0) + (if c in w.reissue then 1 else 0)
  }

  /** A window never closes, and a chunk is in one place of it at most, whatever happens. */
  lemma EventsKeepWindow(w: Window, c: nat, now: real, s: Setting, settled: bool)
    requires WindowOk(w)
    ensures WindowOk(TimedOut(w, c, now, s, settled)) && WindowOk(Arrived(w, c, s))
    ensures c !in w.reissue ==> WindowOk(Requested(w, c, now))
    ensures WindowOk(Reissued(w, c, now))
  {
  }

  /** A timeout moves a chunk, and moves no other. */
  lemma TimedOutMoves(w: Window, c: nat, now: real, s: Setting, settled: bool, x: nat)
    requires WindowOk(w)
    ensures var v := TimedOut(w, c, now, s, settled);
      && In(v, x) == In(w, x)
      && (x in v.win <==> x in w.win && x != c)
      && (x in v.win ==> v.win[x] == w.win[x])
      && (x in v.reissue ==> v.reissue[x] == if x in w.reissue then w.reissue[x] else w.win[x])
  {
  }

  lemma ArrivedTakes(w: Window, c: nat, s: Setting, x: nat)
    requires WindowOk(w)
    ensures var v := Arrived(w, c, s);
      && In(v, x) == (if x == c then 0 else In(w, x))
      && (x in v.win ==> x in w.win && v.win[x] == w.win[x])
      && (x in v.reissue ==> x in w.reissue && v.reissue[x] == w.reissue[x])
  {
  }

  // How fast the window grows and shrinks.

  ghost function AfterAnswers(w: Window, cs: seq<nat>, s: Setting): Window
    decreases |cs|
  {
    if cs == [] then w else AfterAnswers(Arrived(w, cs[0], s), cs[1..], s)
  }

  /** As many answers in time as the window has chunks make it larger by one, and fewer do not. */
  lemma {:induction false} FullWindowGrows(w: Window, cs: seq<nat>, s: Setting)
    requires WindowOk(w) && s.aimd && w.winReceived + |cs| <= w.size
    requires (forall c :: c in cs ==> c in w.win) && forall i, j :: 0 <= i < j < |cs| ==> cs[i] != cs[j]
    ensures var v := AfterAnswers(w, cs, s);
      if w.winReceived + |cs| == w.size then v.size == w.size + 1 && v.winReceived == 0
      else v.size == w.size && v.winReceived == w.winReceived + |cs|
    decreases |cs|
  {
    if cs != [] {
      var v, rest := Arrived(w, cs[0], s), cs[1..];
      assert cs[0] in cs && cs[0] !in w.reissue;
      EventsKeepWindow(w, cs[0], 0.0, s, false);
      if rest != [] {
        forall c | c in rest ensures c in v.win { assert c in cs && c != cs[0]; }
        FullWindowGrows(v, rest, s);
      }
    }
  }

  /** An answer to a chunk whose timer ran out, or to none, does not count; nor does any where the window is fixed. */
  lemma OtherAnswersDoNotCount(w: Window, c: nat, s: Setting)
    requires c in w.reissue || c !in w.win || !s.aimd
    ensures var v := Arrived(w, c, s);
      v.size == w.size && v.winReceived == w.winReceived && v.decreased == w.decreased
  {
  }

  datatype Timeout = Timeout(c: nat, now: real, settled: bool)

  ghost function AfterTimeouts(w: Window, es: seq<Timeout>, s: Setting): Window
    decreases |es|
  {
    if es == [] then w else AfterTimeouts(TimedOut(w, es[0].c, es[0].now, s, es[0].settled), es[1..], s)
  }

  /** A timeout of a chunk in the window halves it, and starts the count of answers again, if at least a timer has
      passed since the last time, the window has two chunks or more, and the estimate is settled. */
  lemma TimeoutHalves(w: Window, c: nat, now: real, s: Setting, settled: bool)
    ensures var v := TimedOut(w, c, now, s, settled);
      if s.aimd && c in w.win && w.size >= 2 && now > w.decreased + s.timer && settled
      then v.size == w.size / 2 && v.winReceived == 0 && v.decreased == now
      else v.size == w.size && v.winReceived == w.winReceived && v.decreased == w.decreased
  {
  }

  /** However many timeouts come within a timer of a halving, the window keeps its size. */
  lemma {:induction false} HalvesOncePerTimer(w: Window, es: seq<Timeout>, s: Setting)
    requires forall e :: e in es ==> e.now <= w.decreased + s.timer
    ensures AfterTimeouts(w, es, s).size == w.size && AfterTimeouts(w, es, s).decreased == w.decreased
    decreases |es|
  {
    if es != [] {
      assert es[0] in es;
      TimeoutHalves(w, es[0].c, es[0].now, s, es[0].settled);
      HalvesOncePerTimer(TimedOut(w, es[0].c, es[0].now, s, es[0].settled), es[1..], s);
    }
  }

  lemma {:induction false} FirstExists(m: map<nat, real>) returns (c: nat)
    requires m != map[]
    ensures IsFirst(c, m)
    decreases |m|
  {
    assert m.Keys != {} by {
      if m.Keys == {} {
        SameMap(m, map[]);
      }
    }
    var x := Pick(m.Keys);
    var rest := m - {x};
    assert forall d :: d in m ==> d == x || d in rest;
    if rest == map[] {
      c := x;
    } else {
      assert |rest| < |m| by {
        assert rest.Keys == m.Keys - {x};
      }
      var y := FirstExists(rest);
      c := if x < y then x else y;
    }
  }
}
