/**
 Seeking, as all byte devices of the kernel do it (nop/tasks/ahci.c:305-326, nop/temp.c:44-63,
 nop/arch/i386/tasks/pci.c:119-138): the target is computed in a signed integer and clamped.
 */
module Seek {
  import opened Bytes

  datatype Mode = Set | End | Cur

  /** A signed integer of `2 * half` values, wrapping around. */
  function Wrap(half: int, v: int): (r: int)
    requires half > 0
    ensures -half <= r < half
  {
    (v + half) % (2 * half) - half
  }

  /** Where a seek should go before it is clamped. */
  function Target(current: nat, size: nat, offset: int, mode: Mode): int {
    match mode
    case Set => offset
    case End => offset + size
    case Cur => current + offset
  }

  function Clamp(size: nat, v: int): (r: nat)
    ensures r <= size
  {
    if v < 0 then 0 else if v > size then size else v
  }

  /** The new position, computed in a signed integer of `2 * half` values. */
  function SeekTo(half: int, current: nat, size: nat, offset: int, mode: Mode): (r: nat)
    requires half > 0
    ensures r <= size
  {
    Clamp(size, Wrap(half, Target(current, size, offset, mode)))
  }

  lemma WrapByTurns(half: int, v: int, turns: int)
    requires -half <= v - turns * (2 * half) < half
    ensures Wrap(half, v) == v - turns * (2 * half)
  {
    ModUnique(v + half, 2 * half, turns, v + half - turns * (2 * half));
  }

  /**
   Where the target wraps to makes no difference: it is in range, or both it and what it wraps to
   are clamped to the same end of the device.
   */
  predicate WrapsHarmlessly(half: int, size: nat, target: int)
    requires half > 0
  {
    || size == 0 || -half <= target < half
    || (target < 0 && Wrap(half, target) <= 0)
    || (target > 0 && Wrap(half, target) >= size)
  }

  /** A seek by any offset goes to the clamped target if and only if the target wraps harmlessly. */
  lemma SeekIsClamped(half: int, current: nat, size: nat, offset: int, mode: Mode)
    requires half > 0
    ensures SeekTo(half, current, size, offset, mode) == Clamp(size, Target(current, size, offset, mode))
            <==> WrapsHarmlessly(half, size, Target(current, size, offset, mode))
  {
    var t := Target(current, size, offset, mode);
    if -half <= t < half {
      WrapByTurns(half, t, 0);
    }
    hide Wrap;
  }

  /**
   A seek to a place that the signed integer can hold counts from the start, the end or the cursor,
   and stops at either end of the device.
   */
  lemma SeekCounts(half: int, current: nat, size: nat, offset: int, mode: Mode)
    requires half > 0
    ensures var origin := if mode.Set? then 0 else if mode.End? then size else current;
            -half <= origin + offset < half ==>
              SeekTo(half, current, size, offset, mode) ==
              if origin + offset < 0 then 0 else if origin + offset > size then size else origin + offset
  {
    var t := Target(current, size, offset, mode);
    if -half <= t < half {
      WrapByTurns(half, t, 0);
    }
    hide Wrap;
  }

  /** A number outside the range wraps to the one that differs by whole turns. */
  lemma SeekWraps(half: int, current: nat, size: nat, offset: int, mode: Mode, turns: int)
    requires half > 0
    ensures SeekTo(half, current, size, offset + turns * (2 * half), mode) == SeekTo(half, current, size, offset, mode)
  {
    var t := Target(current, size, offset, mode);
    var w := Wrap(half, t);
    var q := (t + half) / (2 * half);
    assert t + half == 2 * half * q + (t + half) % (2 * half);
    assert (q + turns) * (2 * half) == 2 * half * q + turns * (2 * half);
    WrapByTurns(half, t + turns * (2 * half), q + turns);
    hide Wrap;
  }

  /** Seeks from the cursor that stay inside the device add up, and the way back leads back. */
  lemma SeeksAddUp(half: int, current: nat, size: nat, first: int, second: int)
    requires size < half && current <= size
    requires 0 <= current + first <= size && 0 <= current + first + second <= size
    ensures var there := SeekTo(half, current, size, first, Cur);
            && SeekTo(half, there, size, second, Cur) == SeekTo(half, current, size, first + second, Cur)
            && SeekTo(half, there, size, -first, Cur) == current
  {
    hide SeekTo;
    SeekCounts(half, current, size, first, Cur);
    var there := SeekTo(half, current, size, first, Cur);
    SeekCounts(half, there, size, second, Cur);
    SeekCounts(half, there, size, -first, Cur);
    SeekCounts(half, current, size, first + second, Cur);
  }

  /** The body of the seek functions: compute the target in the signed integer, then clamp it. */
  method ComputeSeek(half: int, current: nat, size: nat, offset: int, mode: Mode) returns (r: nat)
    requires half > 0
    ensures r == SeekTo(half, current, size, offset, mode)
  {
    var target := match mode
      case Set => Wrap(half, offset)
      case End => Wrap(half, offset + size)
      case Cur => Wrap(half, current + offset);
    if target < 0 {
      target := 0;
    } else if target > size {
      target := size;
    }
    r := target;
  }
}
