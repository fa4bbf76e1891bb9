/** The receiver of one content: it shares the chunks among the windows of its interfaces. */
module SocketManager {
  import opened Collections
  import opened Windows
  import opened Download
  import ICP
  import opened FileSize

  datatype Request = Request(place: nat, chunk: nat)

  class SocketManager {
    /** The file is chunks 1..last; chunk 0 is its description. */
    const last: nat
    const chunkSize: nat
    const toLimit: nat
    /** Whether chunks are asked for in random order. */
    const random: bool
    const setting: Setting
    /** The interfaces, and the controller of each. */
    const ifids: seq<nat>
    const controllers: seq<ICP.ICP>
    var notreq: seq<nat>
    var received: seq<bool>
    var requests: seq<nat>
    /** How many chunks of the file were received, and their size in one word. */
    var count: nat
    var filesize: nat
    var aborted: bool
    ghost var windows: seq<Window>

    ghost function Now(): State
      reads this
    {
      State(notreq, received, requests, windows)
    }

    ghost predicate Agree()
      reads this`windows, controllers
    {
      && |controllers| == |ifids| == |windows|
      && (forall i :: 0 <= i < |controllers| ==>
            controllers[i].Now() == windows[i] && controllers[i].setting == setting)
      && forall i, j :: 0 <= i < j < |controllers| ==> controllers[i] != controllers[j] && ifids[i] != ifids[j]
    }

    ghost predicate Counted()
      reads this`received, this`count, this`filesize
    {
      && |received| == last + 1
      && count == Count(received[1..])
      && filesize == InWord(chunkSize * count)
    }

    /** From the start: every chunk of the file is in exactly one place. */
    ghost predicate Opened()
      reads this, controllers
    {
      && Agree() && Partition(Now()) && Counted() && toLimit > 0
    }

    ghost predicate Valid()
      reads this, controllers
    {
      Opened() && received[0]
    }

    /** What requests need of the state: chunk 0 has come, so only chunks of the file are asked for. */
    ghost predicate Sharing()
      reads this, controllers
    {
      Agree() && Partition(Now()) && toLimit > 0 && received[0]
    }

    constructor (last: nat, chunkSize: nat, toLimit: nat, random: bool, setting: Setting,
                 ifids: seq<nat>, windowSize: nat)
      requires toLimit > 0 && windowSize >= 1
      requires forall i, j :: 0 <= i < j < |ifids| ==> ifids[i] != ifids[j]
      ensures Opened() && fresh(controllers)
      ensures this.last == last && this.chunkSize == chunkSize && this.ifids == ifids && count == 0
      ensures |notreq| == last + 1 && forall c :: 0 <= c <= last ==> notreq[c] == c && !received[c]
    {
      var made := MakeControllers(setting, |ifids|, windowSize);
      var chunks, flags, zeros := MakeChunks(last);
      this.last, this.chunkSize, this.toLimit, this.random := last, chunkSize, toLimit, random;
      this.setting, this.ifids, controllers := setting, ifids, made;
      notreq, received, requests, count, filesize, aborted := chunks, flags, zeros, 0, 0, false;
      windows := seq(|ifids|, _ => Window(windowSize, map[], map[], 0, 0.0));
      new;
      StartIsPartition(Now());
      NoneReceived(received[1..]);
    }

    static method MakeControllers(setting: Setting, n: nat, windowSize: nat) returns (made: seq<ICP.ICP>)
      ensures |made| == n && fresh(made)
      ensures forall k :: 0 <= k < n ==>
        made[k].Now() == Window(windowSize, map[], map[], 0, 0.0) && made[k].setting == setting
      ensures forall j, k :: 0 <= j < k < n ==> made[j] != made[k]
    {
      made := [];
      while |made| < n
        invariant |made| <= n && fresh(made)
        invariant forall k :: 0 <= k < |made| ==>
          made[k].Now() == Window(windowSize, map[], map[], 0, 0.0) && made[k].setting == setting
        invariant forall j, k :: 0 <= j < k < |made| ==> made[j] != made[k]
      {
        var controller := new ICP.ICP(setting, windowSize);
        made := made + [controller];
      }
    }

    static method MakeChunks(last: nat) returns (chunks: seq<nat>, flags: seq<bool>, zeros: seq<nat>)
      ensures |chunks| == |flags| == |zeros| == last + 1
      ensures forall c :: 0 <= c <= last ==> chunks[c] == c && !flags[c] && zeros[c] == 0
    {
      chunks, flags, zeros := [], [], [];
      for i := 0 to last + 1
        invariant |chunks| == |flags| == |zeros| == i
        invariant forall c :: 0 <= c < i ==> chunks[c] == c && !flags[c] && zeros[c] == 0
      {
        chunks, flags, zeros := chunks + [i], flags + [false], zeros + [0];
      }
    }

    /** The first controller of an interface, or one past the end. */
    method Find(ifid: nat) returns (i: nat)
      ensures i <= |ifids| && (i < |ifids| ==> ifids[i] == ifid)
      ensures forall k :: 0 <= k < i ==> ifids[k] != ifid
    {
      i := 0;
      while i < |ifids| && ifids[i] != ifid
        invariant i <= |ifids| && forall k :: 0 <= k < i ==> ifids[k] != ifid
      {
        i := i + 1;
      }
    }

    method ReceivedDescription()
      requires Opened()
      modifies this`received
      ensures Valid() && received == old(received)[0 := true]
    {
      DescriptionKeeps(Now());
      received := received[0 := true];
      assert received[1..] == old(received)[1..];
    }

    /** Hands a chunk that arrived to one controller. */
    method Deliver(i: nat, c: nat)
      requires Agree() && i < |controllers|
      modifies this`windows, controllers
      ensures Agree() && windows == old(windows)[i := Arrived(old(windows)[i], c, setting)]
    {
      controllers[i].ReceivedChunk(c);
      windows := windows[i := controllers[i].Now()];
    }

    /** Hands a timeout to one controller. */
    method Expire(i: nat, c: nat, now: real, settled: bool)
      requires Agree() && i < |controllers|
      modifies this`windows, controllers
      ensures Agree() && windows == old(windows)[i := TimedOut(old(windows)[i], c, now, setting, settled)]
    {
      controllers[i].ReceiverTO(c, now, settled);
      windows := windows[i := controllers[i].Now()];
    }

    method Ask(i: nat, c: nat, time: real)
      requires Agree() && i < |controllers|
      modifies this`windows, controllers
      ensures Agree() && windows == old(windows)[i := Requested(old(windows)[i], c, time)]
    {
      controllers[i].RequestChunk(c, time);
      windows := windows[i := controllers[i].Now()];
    }

    method AskAgain(i: nat, c: nat, time: real)
      requires Agree() && i < |controllers| && IsFirst(c, windows[i].reissue)
      modifies this`windows, controllers
      ensures Agree() && windows == old(windows)[i := Reissued(old(windows)[i], c, time)]
    {
      controllers[i].PopTimedOut(c);
      controllers[i].RequestChunk(c, time);
      windows := windows[i := controllers[i].Now()];
    }

    /** Counts a chunk of the file that was not there before. */
    method Note(c: nat, size: nat)
      requires Counted() && 1 <= c <= last && size == chunkSize
      modifies this`count, this`filesize, this`received
      ensures Counted() && received == old(received)[c := true]
      ensures count == old(count) + (if old(received)[c] then 0 else 1)
    {
      if !received[c] {
        CountOne(received, c);
        NextSize(chunkSize, count);
        count := count + 1;
        filesize := InWord(filesize + size);
        received := received[c := true];
      } else {
        assert received == received[c := true];
      }
    }

    /** Data for a chunk. The chunks stay in one place each exactly if the interface that the data comes on
        has no controller, or one that asked for the chunk, or the chunk has been received already. */
    method ReceivedChunk(c: nat, size: nat, ifid: nat)
      requires Valid() && 1 <= c <= last && size == chunkSize
      modifies this`windows, this`received, this`count, this`filesize, controllers
      ensures Agree() && Counted() && received[0]
      ensures ifid !in ifids ==> Now() == old(Now()) && count == old(count)
      ensures forall i :: 0 <= i < |ifids| && ifids[i] == ifid ==> Now() == ArrivalAt(old(Now()), i, c, setting)
      ensures Valid() <==> forall i :: 0 <= i < |ifids| && ifids[i] == ifid ==> Expected(old(Now()), i, c)
    {
      var i := Find(ifid);
      if i < |ifids| {
        ArrivalKeepsIff(Now(), i, c, setting);
        Deliver(i, c);
        Note(c, size);
        assert Now() == ArrivalAt(old(Now()), i, c, setting);
      }
    }

    /** The timer of a chunk ran out: its window gives it back to be asked for again. */
    method ReceiverTO(ifid: nat, c: nat, now: real, settled: bool)
      requires Valid() && 1 <= c <= last
      modifies this`windows, this`aborted, controllers
      ensures Valid()
      ensures |windows| == |old(windows)|
      ensures forall i :: 0 <= i < |windows| && ifids[i] != ifid ==> windows[i] == old(windows)[i]
      ensures forall i :: 0 <= i < |windows| && ifids[i] == ifid ==>
        windows[i] == TimedOut(old(windows)[i], c, now, setting, settled)
      ensures ifid in ifids ==> (aborted <==> old(aborted) || requests[c] >= toLimit)
    {
      var i := Find(ifid);
      if i < |ifids| {
        TimeoutKeeps(Now(), i, c, now, setting, settled);
        Expire(i, c, now, settled);
        assert Now() == TimeoutAt(old(Now()), i, c, now, setting, settled);
        assert Partition(Now());
        if requests[c] >= toLimit {
          aborted := true;
        }
      }
    }

    /** A chunk that was never asked for, if there is one; what is received and listed still is taken off the list. */
    method SelectChunk() returns (r: Option<nat>)
      requires Sharing()
      modifies this`notreq
      ensures Sharing() && (forall c :: c in notreq ==> c in old(notreq))
      ensures forall c :: c in old(notreq) && c != 0 ==> c in notreq
      ensures r.None? ==> notreq == []
      ensures r.Some? ==> r.value in notreq && 1 <= r.value < |received| && !received[r.value]
      ensures r.Some? && !random ==> forall c :: c in notreq ==> r.value <= c
    {
      while notreq != []
        invariant Sharing() && forall c :: c in notreq ==> c in old(notreq)
        invariant forall c :: c in old(notreq) && c != 0 ==> c in notreq
        decreases |notreq|
      {
        var pos: nat := 0;
        if random { pos := Somewhere(|notreq|); }
        var c := notreq[pos];
        assert c in notreq;
        if !received[c] && requests[c] < toLimit {
          return Some(c);
        }
        DropKeeps(Now(), c);
        DropAt(notreq, pos);
        WithoutMembers(notreq, c);
        notreq := notreq[..pos] + notreq[pos + 1..];
      }
      return None;
    }

    /** One slot of a controller: a chunk to be reissued, or else one that was never asked for. */
    method RequestOne(s: nat, now: real) returns (r: Option<nat>)
      requires Sharing() && s < |controllers|
      modifies this`notreq, this`windows, controllers
      ensures Sharing()
      ensures r.None? ==> windows == old(windows) && notreq == [] && windows[s].reissue == map[]
      ensures NothingLeft(old(windows)[s], old(notreq)) ==> r.None?
      ensures forall c :: c in notreq ==> c in old(notreq)
      ensures r.Some? ==> 1 <= r.value < |received| && !received[r.value]
      ensures r.Some? ==> Asks(old(windows), windows, s, r.value, now)
      ensures r.Some? && old(windows)[s].reissue != map[] ==>
                IsFirst(r.value, old(windows)[s].reissue) && notreq == old(notreq)
      ensures r.Some? && old(windows)[s].reissue == map[] ==> NextNew(r.value, old(notreq), random)
    {
      var reissue := controllers[s].TimedOutChunk();
      match reissue
      case Some(first) =>
        var time := if first.1 > 0.0 then first.1 else now;
        ReissueKeeps(Now(), s, first.0, time);
        HeldThere(Now(), s, first.0);
        AskAgain(s, first.0, time);
        ReissueAsks(old(windows), windows, s, first.0, now);
        r := Some(first.0);
      case None =>
        r := RequestNew(s, now);
    }

    method RequestNew(s: nat, now: real) returns (r: Option<nat>)
      requires Sharing() && s < |controllers|
      modifies this`notreq, this`windows, controllers
      ensures Sharing()
      ensures r.None? ==> windows == old(windows) && notreq == []
      ensures r.Some? ==> NextNew(r.value, old(notreq), random)
      ensures forall c :: c in notreq ==> c in old(notreq)
      ensures r.Some? ==> 1 <= r.value < |received| && !received[r.value]
      ensures r.Some? ==> Asks(old(windows), windows, s, r.value, now)
    {
      r := SelectChunk();
      if r.Some? {
        FirstRequestKeeps(Now(), s, r.value, now);
        WithoutMembers(notreq, r.value);
        RemoveNotreq(r.value);
        Ask(s, r.value, now);
        NewAsks(old(windows), windows, s, r.value, now);
      }
    }

    /**
     * A round of requests: each controller fills its window, first with chunks to be reissued. No window is
     * filled beyond its size, and one that is not full has nothing more to ask for. The answer lists exactly the
     * chunks that have entered the windows.
     */
    method GetInterestedChunk(now: real) returns (asked: seq<Request>)
      requires Valid()
      modifies this`notreq, this`windows, controllers
      ensures Valid() && |windows| == |old(windows)|
      ensures forall i :: 0 <= i < |windows| ==> Filled(old(windows)[i], windows[i], notreq)
      ensures ListsAll(asked, |windows|, old(windows), windows)
    {
      asked := [];
      var s := 0;
      while s < |controllers|
        invariant Sharing() && |windows| == |old(windows)| && 0 <= s <= |windows|
        invariant forall i :: 0 <= i < s ==> Filled(old(windows)[i], windows[i], notreq)
        invariant forall i :: s <= i < |windows| ==> windows[i] == old(windows)[i]
        invariant ListsAll(asked, s, old(windows), windows)
      {
        ghost var before, earlier := notreq, windows;
        var more := Fill(s, now);
        FilledStays(old(windows), windows, s, before, notreq);
        ListsNextPlace(asked, more, s, old(windows), earlier, windows);
        asked := asked + more;
        s := s + 1;
      }
    }

    method Fill(s: nat, now: real) returns (asked: seq<Request>)
      requires Sharing() && s < |controllers|
      modifies this`notreq, this`windows, controllers
      ensures Sharing() && |windows| == |old(windows)|
      ensures forall i :: 0 <= i < |windows| && i != s ==> windows[i] == old(windows)[i]
      ensures Filled(old(windows)[s], windows[s], notreq)
      ensures forall c :: c in notreq ==> c in old(notreq)
      ensures Lists(asked, s, old(windows)[s], windows[s])
    {
      asked := [];
      var free := controllers[s].FreeSlots();
      var i := 0;
      while i < free
        invariant Sharing() && |windows| == |old(windows)| && 0 <= i <= Max(free, 0) && |asked| <= i
        invariant forall k :: 0 <= k < |windows| && k != s ==> windows[k] == old(windows)[k]
        invariant Grown(old(windows)[s], windows[s], |asked|)
        invariant |asked| < i ==> NothingLeft(windows[s], notreq)
        invariant forall c :: c in notreq ==> c in old(notreq)
        invariant Lists(asked, s, old(windows)[s], windows[s])
      {
        asked := FillOne(s, now, asked, old(windows)[s]);
        i := i + 1;
      }
    }

    method FillOne(s: nat, now: real, asked: seq<Request>, ghost start: Window) returns (more: seq<Request>)
      requires Sharing() && s < |controllers| && Grown(start, windows[s], |asked|)
      requires Lists(asked, s, start, windows[s])
      modifies this`notreq, this`windows, controllers
      ensures Sharing() && |windows| == |old(windows)|
      ensures forall k :: 0 <= k < |windows| && k != s ==> windows[k] == old(windows)[k]
      ensures |asked| <= |more| <= |asked| + 1 && Grown(start, windows[s], |more|)
      ensures |more| == |asked| ==> NothingLeft(windows[s], notreq)
      ensures NothingLeft(old(windows)[s], old(notreq)) ==> |more| == |asked|
      ensures forall c :: c in notreq ==> c in old(notreq)
      ensures Lists(more, s, start, windows[s])
    {
      var c := RequestOne(s, now);
      if c.Some? {
        GrowOne(start, old(windows), windows, s, c.value, now, |asked|);
        ListsOneMore(asked, s, start, old(windows), windows, c.value, now);
        more := asked + [Request(s, c.value)];
      } else {
        more := asked;
      }
    }

    /** An interest for a chunk went on to the next node. */
    method RequestedChunk(c: nat)
      requires Valid() && 1 <= c <= last && c !in notreq
      modifies this`requests
      ensures Valid() && requests == old(requests)[c := old(requests)[c] + 1]
    {
      ForwardedKeeps(Now(), c);
      requests := requests[c := requests[c] + 1];
    }

    /**
     * Whether the file is complete, by its size: the answer is true to the chunks if the file has fewer chunks
     * than the period of their size, or as many and a chunk has been counted.
     */
    method Completed() returns (r: bool)
      requires Valid()
      ensures r <==> LooksComplete(chunkSize, last, count)
      ensures Telling(chunkSize, last, count) ==> (r <==> forall c :: 1 <= c <= last ==> received[c])
    {
      SizeTells(received, chunkSize);
      r := filesize == InWord(chunkSize * last);
    }

    method RemoveNotreq(c: nat)
      modifies this`notreq
      ensures notreq == Without(old(notreq), c)
    {
      var i := 0;
      while i < |notreq| && notreq[i] != c
        invariant i <= |notreq| && forall k :: 0 <= k < i ==> notreq[k] != c
      {
        i := i + 1;
      }
      DropFirst(notreq, c, i);
      if i < |notreq| {
        notreq := notreq[..i] + notreq[i + 1..];
      }
    }
  }

  /** The window has asked for the chunk, or the chunk has been received. */
  ghost predicate Expected(s: State, i: nat, c: nat)
    requires i < |s.windows| && c < |s.received|
  {
    s.received[c] || In(s.windows[i], c) > 0
  }

  /** The time of the first request for a chunk that is asked for again, if it is known; else the present. */
  function AskedAt(w: Window, c: nat, now: real): real {
    if c in w.reissue && w.reissue[c] > 0.0 then w.reissue[c] else now
  }

  /** The window of place s has asked for c, and nothing else has changed. */
  ghost predicate Asks(before: seq<Window>, after: seq<Window>, s: nat, c: nat, now: real) {
    && |after| == |before| && s < |after| && c !in before[s].win
    && (forall i :: 0 <= i < |after| && i != s ==> after[i] == before[i])
    && after[s] == before[s].(win := before[s].win[c := AskedAt(before[s], c, now)],
                              reissue := before[s].reissue - {c})
  }

  lemma NewAsks(before: seq<Window>, after: seq<Window>, s: nat, c: nat, now: real)
    requires s < |before| && after == before[s := Requested(before[s], c, now)] && In(before[s], c) == 0
    ensures Asks(before, after, s, c, now)
  {
    SameMap(before[s].reissue - {c}, before[s].reissue);
  }

  lemma ReissueAsks(before: seq<Window>, after: seq<Window>, s: nat, c: nat, now: real)
    requires s < |before| && c in before[s].reissue && c !in before[s].win
    requires after == before[s := Reissued(before[s], c, AskedAt(before[s], c, now))]
    ensures Asks(before, after, s, c, now)
  {
  }

  /** A chunk never asked for; the least one that may be asked for, unless the order is random. */
  ghost predicate NextNew(c: nat, notreq: seq<nat>, random: bool) {
    c in notreq && (!random ==> forall d :: d in notreq && d != 0 ==> c <= d)
  }

  /** The window w0 has grown by k chunks, and each chunk to be reissued is still to be or has been asked for. */
  ghost predicate Grown(w0: Window, w: Window, k: nat) {
    && w.size == w0.size && |w.win| == |w0.win| + k
    && w0.win.Keys <= w.win.Keys
    && w.reissue.Keys <= w0.reissue.Keys <= w.win.Keys + w.reissue.Keys
  }

  lemma GrowOne(w0: Window, before: seq<Window>, after: seq<Window>, s: nat, c: nat, now: real, k: nat)
    requires Asks(before, after, s, c, now) && Grown(w0, before[s], k)
    ensures Grown(w0, after[s], k + 1)
  {
    var b, a := before[s], after[s];
    assert a.win.Keys == b.win.Keys + {c};
    assert |a.win| == |a.win.Keys| == |b.win.Keys| + 1;
  }

  ghost predicate NoRepeats(asked: seq<Request>) {
    forall i, j :: 0 <= i < j < |asked| ==> asked[i] != asked[j]
  }

  /** The chunk has entered the window. */
  ghost predicate Entered(before: Window, after: Window, c: nat) {
    c in after.win && c !in before.win
  }

  /** asked has a request for place s for exactly the chunks that have entered its window, each once. */
  ghost predicate Lists(asked: seq<Request>, s: nat, before: Window, after: Window) {
    && NoRepeats(asked) && (forall r :: r in asked ==> r.place == s)
    && forall c: nat :: Request(s, c) in asked <==> Entered(before, after, c)
  }

  lemma ListsOneMore(asked: seq<Request>, s: nat, w0: Window, before: seq<Window>, after: seq<Window>,
                     c: nat, now: real)
    requires Asks(before, after, s, c, now) && Lists(asked, s, w0, before[s]) && w0.win.Keys <= before[s].win.Keys
    ensures Lists(asked + [Request(s, c)], s, w0, after[s])
  {
    var more := asked + [Request(s, c)];
    assert Request(s, c) !in asked by {
      assert !Entered(w0, before[s], c);
    }
    forall d: nat ensures Request(s, d) in more <==> Entered(w0, after[s], d) {
      assert Request(s, d) in more <==> Request(s, d) in asked || d == c;
      assert Request(s, d) in asked <==> Entered(w0, before[s], d);
      assert c !in w0.win;
    }
  }

  /** The same for the first n places. */
  ghost predicate ListsAll(asked: seq<Request>, n: nat, before: seq<Window>, after: seq<Window>)
    requires n <= |before| == |after|
  {
    && NoRepeats(asked) && (forall r :: r in asked ==> r.place < n)
    && forall i: nat, c: nat :: i < n ==> (Request(i, c) in asked <==> Entered(before[i], after[i], c))
  }

  lemma ListsNextPlace(asked: seq<Request>, more: seq<Request>, s: nat, start: seq<Window>,
                       before: seq<Window>, after: seq<Window>)
    requires s < |start| == |before| == |after| && ListsAll(asked, s, start, before)
    requires forall i :: 0 <= i < |after| && i != s ==> after[i] == before[i]
    requires start[s] == before[s] && Lists(more, s, before[s], after[s])
    ensures ListsAll(asked + more, s + 1, start, after)
  {
    var all := asked + more;
    forall i: nat, c: nat | i < s + 1 ensures Request(i, c) in all <==> Entered(start[i], after[i], c) {
      assert Request(i, c) in all <==> Request(i, c) in asked || Request(i, c) in more;
      if i == s { assert Request(i, c) !in asked; } else { assert Request(i, c) !in more; }
    }
  }

  ghost predicate NothingLeft(w: Window, notreq: seq<nat>) {
    notreq == [] && w.reissue == map[]
  }

  lemma FilledStays(before: seq<Window>, after: seq<Window>, s: nat, n0: seq<nat>, n1: seq<nat>)
    requires |before| == |after| && s <= |after| && forall c :: c in n1 ==> c in n0
    requires forall i :: 0 <= i < s ==> Filled(before[i], after[i], n0)
    ensures forall i :: 0 <= i < s ==> Filled(before[i], after[i], n1)
  {
    assert n1 != [] ==> n1[0] in n0;
  }

  /** What a round does to a window: it is filled up to its size, or there is nothing left to ask for. */
  ghost predicate Filled(before: Window, after: Window, notreq: seq<nat>) {
    && after.size == before.size
    && |after.win| <= Max(|before.win|, before.size)
    && (|after.win| >= after.size || NothingLeft(after, notreq))
    && before.win.Keys <= after.win.Keys
    && after.reissue.Keys <= before.reissue.Keys <= after.win.Keys + after.reissue.Keys
  }

  method Somewhere(n: nat) returns (pos: nat)
    requires n > 0
    ensures pos < n
  {
    pos :| pos < n;
  }

  lemma StartIsPartition(s: State)
    requires |s.received| == |s.requests| == |s.notreq| > 0
    requires forall c :: 0 <= c < |s.received| ==> s.notreq[c] == c && !s.received[c] && s.requests[c] == 0
    requires forall i :: 0 <= i < |s.windows| ==>
               WindowOk(s.windows[i]) && s.windows[i].win == s.windows[i].reissue == map[]
    ensures Partition(s)
  {
    forall c: nat ensures Held(s.windows, c) == 0 {
      HeldNone(s.windows, c);
    }
    assert forall c :: 0 <= c < |s.received| ==> s.notreq[c] in s.notreq;
  }

  lemma {:induction false} NoneReceived(received: seq<bool>)
    requires forall c :: 0 <= c < |received| ==> !received[c]
    ensures Count(received) == 0
  {
    if received != [] { NoneReceived(received[1..]); }
  }

  lemma AllOfFile(received: seq<bool>)
    requires |received| > 0
    ensures Count(received[1..]) < |received|
    ensures Count(received[1..]) == |received| - 1 <==> forall c :: 1 <= c < |received| ==> received[c]
  {
    var file := received[1..];
    CountAll(file);
    assert forall c :: 1 <= c < |received| ==> received[c] == file[c - 1];
    assert forall k :: 0 <= k < |file| ==> file[k] == received[k + 1];
  }

  lemma SizeTells(received: seq<bool>, size: nat)
    requires |received| > 0
    ensures var last, count := |received| - 1, Count(received[1..]);
      Telling(size, last, count) ==>
        (LooksComplete(size, last, count) <==> forall c :: 1 <= c <= last ==> received[c])
  {
    var last, count := |received| - 1, Count(received[1..]);
    AllOfFile(received);
    if Telling(size, last, count) { TestHolds(size, last, count); }
  }

  lemma CountOne(received: seq<bool>, c: nat)
    requires 1 <= c < |received| && !received[c]
    ensures Count(received[c := true][1..]) == Count(received[1..]) + 1
  {
    assert received[c := true][1..] == received[1..][c - 1 := true];
    CountSet(received[1..], c - 1);
  }

  lemma NextSize(size: nat, count: nat)
    ensures InWord(InWord(size * count) + size) == InWord(size * (count + 1))
  {
    assert size * (count + 1) == size * count + size;
    AddInWord(size * count, size);
  }

  lemma AddInWord(x: nat, y: nat)
    ensures InWord(InWord(x) + y) == InWord(x + y)
  {
  }

  lemma {:induction false} DropAt(s: seq<nat>, pos: nat)
    requires pos < |s| && Increasing(s)
    ensures s[..pos] + s[pos + 1..] == Without(s, s[pos])
  {
    DropFirst(s, s[pos], pos);
  }

  lemma {:induction false} DropFirst(s: seq<nat>, c: nat, i: nat)
    requires i <= |s| && (i < |s| ==> s[i] == c) && forall k :: 0 <= k < i ==> s[k] != c
    ensures Without(s, c) == if i < |s| then s[..i] + s[i + 1..] else s
  {
    if i > 0 {
      DropFirst(s[1..], c, i - 1);
      assert s[..i] == [s[0]] + s[1..][..i - 1];
    }
  }
}
