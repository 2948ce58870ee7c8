/** The bitrate of the video encoder under a changing network delay: it falls at once when the delay
    passes a limit, and rises only when the delay is well below it. */
module VideoBitrate {

  type Level = l: int | l == 0 || l == 3000 || l == 5000 || l == 10000

  /** The bitrate that goes with a level. */
  function Rate(base: nat, level: Level): nat {
    if level == 0 then base
    else if level == 3000 then base * 3 / 4
    else if level == 5000 then base / 2
    else base / 3
  }

  function Next(level: Level, delay: int): Level {
    if 0 <= delay < 3000 then if level != 0 && delay <= 1000 then 0 else level
    else if 3000 <= delay < 5000 then
      if level == 0 || (level >= 5000 && delay <= 4000) then 3000 else level
    else if 5000 <= delay < 10000 then
      if level <= 3000 || (level >= 10000 && delay <= 7000) then 5000 else level
    else if delay >= 10000 then 10000
    else level
  }

  class V_H264Encoder {
    var adjustBitrate: nat
    var videoBitrate: nat
    var delayMs: int

    ghost predicate Valid()
      reads this
    {
      && (delayMs == 0 || delayMs == 3000 || delayMs == 5000 || delayMs == 10000)
      && videoBitrate == Rate(adjustBitrate, delayMs)
    }

    constructor ()
      ensures Valid() && adjustBitrate == 768 && delayMs == 0
    {
      adjustBitrate, videoBitrate, delayMs := 768, 768, 0;
    }

    method SetRates(bitrate: nat)
      modifies `videoBitrate
      ensures videoBitrate == bitrate
    {
      videoBitrate := bitrate;
    }

    /** One report of the delay. */
    method SetNetDelay(delay: int)
      requires Valid()
      modifies `delayMs, `videoBitrate
      ensures Valid() && delayMs == Next(old(delayMs), delay) && adjustBitrate == old(adjustBitrate)
      // A delay well inside a band decides the level.
      ensures delay >= 10000 ==> delayMs == 10000
      ensures 5000 <= delay <= 7000 ==> delayMs == 5000
      ensures 3000 <= delay <= 4000 ==> delayMs == 3000
      ensures 0 <= delay <= 1000 ==> delayMs == 0
      // The level is never below the delay's band, and above it only if it was so before.
      ensures delay >= 5000 ==> delayMs >= 5000
      ensures delay >= 3000 ==> delayMs >= 3000
      ensures delayMs != old(delayMs) ==> delayMs <= delay
      ensures 7000 < delay < 10000 && old(delayMs) >= 5000 ==> delayMs == old(delayMs)
      ensures 7000 < delay < 10000 && old(delayMs) < 5000 ==> delayMs == 5000
      ensures 4000 < delay < 5000 && old(delayMs) >= 3000 ==> delayMs == old(delayMs)
      ensures 4000 < delay < 5000 && old(delayMs) == 0 ==> delayMs == 3000
      ensures 1000 < delay < 3000 || delay < 0 ==> delayMs == old(delayMs)
      // The bitrate that goes with it.
      ensures delayMs == 0 ==> videoBitrate == adjustBitrate
      ensures delayMs == 3000 ==> 4 * videoBitrate <= 3 * adjustBitrate < 4 * (videoBitrate + 1)
      ensures delayMs == 5000 ==> 2 * videoBitrate <= adjustBitrate < 2 * (videoBitrate + 1)
      ensures delayMs == 10000 ==> 3 * videoBitrate <= adjustBitrate < 3 * (videoBitrate + 1)
    {
      if delay >= 0 && delay < 3000 {
        if delayMs != 0 && delay <= 1000 {
          delayMs := 0;
          SetRates(adjustBitrate);
        }
      } else if delay >= 3000 && delay < 5000 {
        if delayMs == 0 {
          delayMs := 3000;
          SetRates(adjustBitrate * 3 / 4);
        } else if delayMs >= 5000 {
          if delay <= 4000 {
            delayMs := 3000;
            SetRates(adjustBitrate * 3 / 4);
          }
        }
      } else if delay >= 5000 && delay < 10000 {
        if delayMs <= 3000 {
          delayMs := 5000;
          SetRates(adjustBitrate / 2);
        } else if delayMs >= 10000 {
          if delay <= 7000 {
            delayMs := 5000;
            SetRates(adjustBitrate / 2);
          }
        }
      } else if delay >= 10000 {
        if delayMs <= 5000 {
          delayMs := 10000;
          SetRates(adjustBitrate / 3);
        }
      }
    }
  }

  // ---------------------------------------------------------------- over whole runs

  datatype Direction = Unknown | Up | Down

  /** The level, the direction of the last switch and the delay at which it happened. */
  datatype Track = Track(level: Level, direction: Direction, at: int)

  /** After a switch up the delay was at least the level; after one down it was well below the next
      level. */
  ghost predicate Plausible(t: Track) {
    match t.direction
    case Unknown => true
    case Up => t.level > 0 && t.at >= t.level
    case Down => t.level < 10000 && 0 <= t.at <= (if t.level == 0 then 1000 else if t.level == 3000 then 4000 else 7000)
  }

  function Follow(t: Track, delay: int): Track {
    var next := Next(t.level, delay);
    if next == t.level then t else Track(next, if next > t.level then Up else Down, delay)
  }

  predicate Reverses(t: Track, delay: int) {
    var d := Follow(t, delay).direction;
    Next(t.level, delay) != t.level && t.direction != Unknown && d != t.direction
  }

  /** Two successive switches in opposite directions are a second of delay apart. */
  lemma ReversalSwing(t: Track, delay: int)
    requires Plausible(t)
    ensures Plausible(Follow(t, delay))
    ensures Reverses(t, delay) ==> Distance(t.at, delay) >= 1000
  {
  }

  function Distance(x: int, y: int): nat { if x < y then y - x else x - y }

  function Reversals(t: Track, delays: seq<int>): nat
    decreases |delays|
  {
    if delays == [] then 0
    else (if Reverses(t, delays[0]) then 1 else 0) + Reversals(Follow(t, delays[0]), delays[1..])
  }

  /** The total up and down of the delays, starting from one. */
  function Variation(from: int, delays: seq<int>): nat
    decreases |delays|
  {
    if delays == [] then 0 else Distance(from, delays[0]) + Variation(delays[0], delays[1..])
  }

  lemma {:induction false} ReversalsWithinVariation(t: Track, from: int, delays: seq<int>)
    requires Plausible(t)
    ensures 1000 * Reversals(t, delays) <= Distance(t.at, from) + Variation(from, delays)
    decreases |delays|
  {
    if delays != [] {
      ReversalSwing(t, delays[0]);
      ReversalsWithinVariation(Follow(t, delays[0]), delays[0], delays[1..]);
    }
  }

  /** No flapping: however the delay behaves, the bitrate changes direction at most once for every
      second by which the delay moves. */
  lemma NoFlapping(delays: seq<int>)
    requires delays != []
    ensures 1000 * Reversals(Track(0, Unknown, delays[0]), delays) <= Variation(delays[0], delays[1..])
  {
    ReversalsWithinVariation(Track(0, Unknown, delays[0]), delays[0], delays);
    assert Variation(delays[0], delays) == Variation(delays[0], delays[1..]);
  }
}
