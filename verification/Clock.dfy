/** The schedule: block heights, deadlines and epochs are arithmetic on a few constants. */
module Clock {
  import opened Numbers
  import opened Wrappers

  datatype TimingProfile = TimingProfile(
    deadlineLen: nat, deadlinesPerEpoch: nat, submitWindow: nat, beaconDelay: nat, beaconMix: nat)
  {
    /** Deadlines take time, and a window closes before the next deadline opens. */
    predicate Sound() { deadlineLen >= 1 && deadlinesPerEpoch >= 1 && beaconDelay + submitWindow <= deadlineLen }
  }

  datatype Slot = Slot(epoch: int, deadlineIdx: int, openHeight: int, windowStart: int, windowEnd: int) {
    function AbsoluteDeadline(): int { epoch * 1_000_000 + deadlineIdx }

    predicate InSubmitWindow(height: int) { windowStart <= height < windowEnd }
  }

  datatype Clock = Clock(p: TimingProfile, h0: int) {
    function SlotAt(epoch: int, deadlineIdx: int): Slot {
      var n := epoch * p.deadlinesPerEpoch + deadlineIdx;
      var h := h0 + n * p.deadlineLen;
      var ws := h + p.beaconDelay;
      Slot(epoch, deadlineIdx, h, ws, ws + p.submitWindow)
    }

    /** The slot a height falls in; heights before the first are refused. */
    function SlotOf(height: int): Option<Slot>
      requires p.deadlineLen >= 1 && p.deadlinesPerEpoch >= 1
    {
      if height < h0 then None
      else
        var n := (height - h0) / p.deadlineLen;
        Some(SlotAt(n / p.deadlinesPerEpoch, n % p.deadlinesPerEpoch))
    }

    function EpochBounds(epoch: int): (int, int) {
      (SlotAt(epoch, 0).openHeight, SlotAt(epoch, p.deadlinesPerEpoch - 1).windowEnd)
    }
  }

  /** Heights belong to exactly the slot whose deadline is open, so reading a slot off a height undoes scheduling it. */
  lemma SlotOfInvertsSlotAt(c: Clock, epoch: nat, d: nat, height: int)
    requires c.p.deadlineLen >= 1 && d < c.p.deadlinesPerEpoch
    ensures c.SlotOf(height) == Some(c.SlotAt(epoch, d)) <==>
              c.SlotAt(epoch, d).openHeight <= height < c.SlotAt(epoch, d).openHeight + c.p.deadlineLen
  {
    var n, len, per := epoch * c.p.deadlinesPerEpoch + d, c.p.deadlineLen, c.p.deadlinesPerEpoch;
    MulMono(epoch, 0, per);
    MulMono(len, 0, n);
    ModUnique(n, per, epoch, d);
    var off := height - c.h0;
    if 0 <= off {
      DivMod(off, len);
      var m := off / len;
      if n * len <= off < n * len + len {
        ModUnique(off, len, n, off - len * n);
      } else if m != n {
        SlotsDiffer(c, m, epoch, d);
      }
    }
  }

  lemma SlotsDiffer(c: Clock, m: nat, epoch: nat, d: nat)
    requires c.p.deadlinesPerEpoch >= 1 && m != epoch * c.p.deadlinesPerEpoch + d
    ensures c.SlotAt(m / c.p.deadlinesPerEpoch, m % c.p.deadlinesPerEpoch) != c.SlotAt(epoch, d)
  {
    DivMod(m, c.p.deadlinesPerEpoch);
  }

  /** The running number of a slot. */
  function Ordinal(c: Clock, epoch: int, d: int): int { epoch * c.p.deadlinesPerEpoch + d }

  lemma LaterSlotOpensLater(c: Clock, e1: int, d1: int, e2: int, d2: int)
    requires Ordinal(c, e1, d1) < Ordinal(c, e2, d2)
    ensures c.SlotAt(e1, d1).openHeight + c.p.deadlineLen <= c.SlotAt(e2, d2).openHeight
  {
    var n1, n2 := Ordinal(c, e1, d1), Ordinal(c, e2, d2);
    MulDistr(c.p.deadlineLen, n1, 1);
    MulMono(c.p.deadlineLen, n1 + 1, n2);
  }

  /** A height lies in the window of its own slot exactly if it is past the beacon delay and within the window's length of it. */
  lemma WindowIs(c: Clock, height: int)
    requires c.p.deadlineLen >= 1 && c.p.deadlinesPerEpoch >= 1 && height >= c.h0
    ensures c.SlotOf(height).Some?
    ensures var passed := (height - c.h0) % c.p.deadlineLen;
            c.SlotOf(height).value.InSubmitWindow(height) <==> c.p.beaconDelay <= passed < c.p.beaconDelay + c.p.submitWindow
  {
    var off := height - c.h0;
    DivMod(off, c.p.deadlineLen);
    DivMod(off / c.p.deadlineLen, c.p.deadlinesPerEpoch);
  }

  /** The window of any slot, by what has passed since it opened. */
  lemma WindowOfSlot(c: Clock, epoch: int, d: int, height: int)
    ensures c.SlotAt(epoch, d).InSubmitWindow(height) <==>
              c.p.beaconDelay <= height - c.SlotAt(epoch, d).openHeight < c.p.beaconDelay + c.p.submitWindow
    ensures c.SlotAt(epoch, d).openHeight == c.h0 + c.p.deadlineLen * (c.p.deadlinesPerEpoch * epoch + d)
  {
  }

  /** Submission windows never overlap: a height is in the window of one slot at most. */
  lemma WindowsDisjoint(c: Clock, e1: nat, d1: nat, e2: nat, d2: nat, height: int)
    requires c.p.Sound() && d1 < c.p.deadlinesPerEpoch && d2 < c.p.deadlinesPerEpoch
    requires c.SlotAt(e1, d1).InSubmitWindow(height) && c.SlotAt(e2, d2).InSubmitWindow(height)
    ensures e1 == e2 && d1 == d2
  {
    var n1, n2 := Ordinal(c, e1, d1), Ordinal(c, e2, d2);
    if n1 < n2 {
      LaterSlotOpensLater(c, e1, d1, e2, d2);
    } else if n2 < n1 {
      LaterSlotOpensLater(c, e2, d2, e1, d1);
    }
    ModUnique(n1, c.p.deadlinesPerEpoch, e1, d1);
    ModUnique(n2, c.p.deadlinesPerEpoch, e2, d2);
  }

  /** Consecutive epochs leave a gap: what remains of the last deadline after its window. */
  lemma EpochGap(c: Clock, epoch: int)
    requires c.p.Sound()
    ensures c.EpochBounds(epoch + 1).0 - c.EpochBounds(epoch).1 == c.p.deadlineLen - c.p.beaconDelay - c.p.submitWindow >= 0
  {
    var per, len := c.p.deadlinesPerEpoch, c.p.deadlineLen;
    var last := Ordinal(c, epoch, per - 1);
    MulDistr(per, epoch, 1);
    assert Ordinal(c, epoch + 1, 0) == last + 1;
    MulDistr(len, last, 1);
  }
}
