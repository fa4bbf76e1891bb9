/** The flow controller of one interface: a window that grows by one when it was answered and halves on a timeout. */
module ICP {
  import opened Collections
  import opened Windows

  class ICP {
    const setting: Setting
    var size: nat
    var win: map<nat, real>
    var reissue: map<nat, real>
    var winReceived: nat
    var decreased: real

    constructor (setting: Setting, size: nat)
      ensures this.setting == setting && Now() == Window(size, map[], map[], 0, 0.0)
    {
      this.setting := setting;
      this.size, win, reissue, winReceived, decreased := size, map[], map[], 0, 0.0;
    }

    ghost function Now(): Window
      reads this
    {
      Window(size, win, reissue, winReceived, decreased)
    }

    /** How many more chunks may be asked for; negative after the window shrank. */
    function FreeSlots(): int
      reads this`size, this`win
    {
      size - |win|
    }

    method IncreaseWin()
      modifies this`size, this`winReceived
      ensures Now() == Increased(old(Now()))
    {
      winReceived := winReceived + 1;
      if winReceived == size {
        size := size + 1;
        winReceived := 0;
      }
    }

    method DecreaseWin(now: real, settled: bool)
      modifies this`size, this`winReceived, this`decreased
      ensures Now() == Decreased(old(Now()), now, setting.timer, settled)
    {
      var newSize := size / 2;
      if newSize >= 1 && now - decreased > setting.timer {
        if !settled { return; }
        decreased := now;
        size := newSize;
        winReceived := 0;
      }
    }

    method ReceiverTO(c: nat, now: real, settled: bool)
      modifies this
      ensures Now() == TimedOut(old(Now()), c, now, setting, settled)
    {
      if c in win {
        if c !in reissue {
          reissue := reissue[c := win[c]];
        }
        win := win - {c};
        if setting.aimd {
          DecreaseWin(now, settled);
        }
      }
    }

    method ReceivedChunk(c: nat)
      modifies this
      ensures Now() == Arrived(old(Now()), c, setting)
    {
      if c in reissue {
        reissue := reissue - {c};
      } else if c in win {
        win := win - {c};
        if setting.aimd {
          IncreaseWin();
        }
      }
    }

    method RequestChunk(c: nat, time: real)
      modifies this`win
      ensures Now() == Requested(old(Now()), c, time)
    {
      if c !in win {
        win := win[c := time];
      }
    }

    /** The chunk with the least number whose timer ran out, with the time of its first request. */
    method TimedOutChunk() returns (r: Option<(nat, real)>)
      ensures r.None? <==> reissue == map[]
      ensures r.Some? ==> IsFirst(r.value.0, reissue) && reissue[r.value.0] == r.value.1
    {
      if reissue == map[] { return None; }
      ghost var first := FirstExists(reissue);
      var c: nat :| c in reissue && forall d :: d in reissue ==> c <= d;
      return Some((c, reissue[c]));
    }

    method PopTimedOut(c: nat)
      requires IsFirst(c, reissue)
      modifies this`reissue
      ensures Now() == old(Now()).(reissue := old(reissue) - {c})
    {
      reissue := reissue - {c};
    }
  }
}
