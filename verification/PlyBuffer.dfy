/** The buffer of the player: when it starts, pauses and resumes playing, and what it hands to the
    decoder. */
module PlyBuffer {

  type uint32 = x: int | 0 <= x < 0x1_0000_0000

  const RED_TIME: int := 250
  const MAX_DELAY: int := 1000
  const MAX_CACHE: int := 16

  datatype Packet = Packet(data: seq<int>, dts: uint32)

  datatype Status = Fast | Normal | Cache

  datatype Call = Play | Pause

  /** Unsigned 32-bit arithmetic. */
  function Add(a: uint32, b: int): uint32 { (a + b) % 0x1_0000_0000 }

  function Sub(a: uint32, b: uint32): uint32 { (a - b) % 0x1_0000_0000 }

  lemma Wraps(a: uint32, b: uint32)
    ensures Sub(Add(a, b), b) == a
    ensures a + b < 4294967296 ==> Add(a, b) == a + b
    ensures b <= a ==> Sub(a, b) == a - b
    ensures b > a ==> Sub(a, b) == a - b + 4294967296
  {
  }

  /** The time that a list of packets covers, by the time stamps of its ends. */
  function Span(packets: seq<Packet>): uint32 {
    if packets == [] then 0 else Sub(packets[|packets| - 1].dts, packets[0].dts)
  }

  lemma SpanIs(packets: seq<Packet>)
    ensures packets != [] ==> Add(packets[0].dts, Span(packets)) == packets[|packets| - 1].dts
    ensures packets == [] ==> Span(packets) == 0
  {
  }

  // ---------------------------------------------------------------- what the callback sees

  /** The calls alternate, starting with Play. */
  ghost predicate Alternating(calls: seq<Call>) {
    forall i | 0 <= i < |calls| :: calls[i] == if i % 2 == 0 then Play else Pause
  }

  function Pauses(calls: seq<Call>): nat {
    if calls == [] then 0 else Pauses(calls[..|calls| - 1]) + if calls[|calls| - 1] == Pause then 1 else 0
  }

  /** The decoder plays while the last call was Play. */
  predicate Playing(calls: seq<Call>) { calls != [] && calls[|calls| - 1] == Play }

  /** min(2^k, 8) seconds. */
  function Delta(k: nat): nat { if k == 0 then 1 else if k == 1 then 2 else if k == 2 then 4 else 8 }

  /** The first pause is to buffer for one second, each later one for twice as long, up to eight. */
  ghost predicate Doubling(targets: seq<int>) {
    && (targets != [] ==> targets[0] == 1000)
    && forall k | 0 <= k < |targets| - 1 :: targets[k + 1] == if targets[k] < 8000 then 2 * targets[k] else 8000
  }

  lemma {:induction false} DoublingIs(targets: seq<int>, k: nat)
    requires Doubling(targets) && k < |targets|
    ensures targets[k] == 1000 * Delta(k)
  {
    if k > 0 {
      DoublingIs(targets, k - 1);
      assert targets[k - 1 + 1] == if targets[k - 1] < 8000 then 2 * targets[k - 1] else 8000;
    }
  }

  lemma OneMoreTarget(targets: seq<int>)
    requires Doubling(targets)
    ensures Doubling(targets + [1000 * Delta(|targets|)])
  {
    if targets != [] {
      DoublingIs(targets, |targets| - 1);
    }
  }

  lemma Called(calls: seq<Call>, c: Call)
    requires Alternating(calls) && c == if |calls| % 2 == 0 then Play else Pause
    ensures Alternating(calls + [c])
    ensures Pauses(calls + [c]) == Pauses(calls) + if c == Pause then 1 else 0
    ensures Playing(calls + [c]) <==> c == Play
  {
    assert (calls + [c])[..|calls|] == calls;
  }

  lemma {:induction false} PausesAre(calls: seq<Call>)
    requires Alternating(calls)
    ensures Pauses(calls) == |calls| / 2
  {
    if calls != [] {
      PausesAre(calls[..|calls| - 1]);
    }
  }

  /** The call that goes with a change of the status. */
  function Calls(before: Status, after: Status): seq<Call> {
    if before == after then [] else if after == Normal then [Play] else [Pause]
  }

  class PlyBuffer {
    var gotAudio: bool
    var cacheTime: int
    var cacheDelta: int
    var bufCacheTime: int
    var status: Status
    var sysFastVideoTime: uint32
    var rtmpFastVideoTime: uint32
    var rtmpCacheTime: uint32
    var playCurTime: uint32
    var audio: seq<Packet>
    var video: seq<Packet>
    // The calls of OnPlay and OnPause, the decoder's flag that they set, the video packets that
    // have arrived and those handed to the decoder.
    ghost var calls: seq<Call>
    var playing: bool
    // How long each pause so far was to buffer, in milliseconds.
    ghost var targets: seq<int>
    ghost var arrived: seq<Packet>
    ghost var decoded: seq<Packet>

    ghost predicate Valid()
      reads this
    {
      && Alternating(calls)
      && (status == Fast <==> calls == [])
      && (status == Normal <==> |calls| % 2 == 1)
      && playing == Playing(calls) == (status == Normal)
      && arrived == decoded + video
      && cacheDelta == (if status == Cache && Pauses(calls) >= 4 then 16 else Delta(Pauses(calls)))
      && cacheTime > 500
      && Doubling(targets) && |targets| == Pauses(calls)
    }

    constructor ()
      ensures Valid() && status == Fast && calls == [] && arrived == [] && cacheTime == 1000
    {
      gotAudio, cacheTime, cacheDelta, bufCacheTime := false, 1000, 1, 0;
      status := Fast;
      sysFastVideoTime, rtmpFastVideoTime, rtmpCacheTime, playCurTime := 0, 0, 0, 0;
      audio, video := [], [];
      calls, playing, targets, arrived, decoded := [], false, [], [], [];
    }

    /** Over the whole run: video is handed over once and in order, the decoder plays in the normal
        state only, every second call was a pause, and the k-th pause was to buffer for
        min(2^(k-1), 8) seconds, however long the user had asked for before. */
    lemma SoFar()
      requires Valid()
      ensures decoded <= arrived && arrived[|decoded|..] == video
      ensures playing <==> status == Normal
      ensures |targets| == Pauses(calls) == |calls| / 2
      ensures forall k | 0 <= k < |targets| :: targets[k] == 1000 * Delta(k)
    {
      PausesAre(calls);
      forall k | 0 <= k < |targets| ensures targets[k] == 1000 * Delta(k) {
        DoublingIs(targets, k);
      }
    }

    method SetCacheSize(milliseconds: int)
      requires Valid()
      modifies `cacheTime
      ensures Valid()
      ensures cacheTime == if 500 < milliseconds <= 600000 then milliseconds else old(cacheTime)
    {
      if milliseconds > 500 && milliseconds <= 600000 {
        cacheTime := milliseconds;
      }
    }

    /** Takes the next packet of audio, which sets the time of playing. */
    method GetPlayAudio() returns (samples: seq<int>)
      requires Valid()
      modifies `audio, `playCurTime
      ensures Valid()
      ensures old(audio) == [] ==> samples == [] && audio == [] && playCurTime == old(playCurTime)
      ensures old(audio) != [] ==>
                samples == old(audio)[0].data && audio == old(audio)[1..] && playCurTime == old(audio)[0].dts
    {
      samples := [];
      if |audio| > 0 {
        var front := audio[0];
        samples, playCurTime, audio := front.data, front.dts, audio[1..];
      }
    }

    method CacheH264Data(data: seq<int>, ts: uint32, now: uint32)
      requires Valid()
      modifies `video, `sysFastVideoTime, `rtmpFastVideoTime, `arrived
      ensures Valid() && arrived == old(arrived) + [Packet(data, ts)] && video == old(video) + [Packet(data, ts)]
      ensures if old(sysFastVideoTime) == 0 then sysFastVideoTime == now && rtmpFastVideoTime == ts
              else sysFastVideoTime == old(sysFastVideoTime) && rtmpFastVideoTime == old(rtmpFastVideoTime)
    {
      if sysFastVideoTime == 0 {
        sysFastVideoTime, rtmpFastVideoTime := now, ts;
      }
      video, arrived := video + [Packet(data, ts)], arrived + [Packet(data, ts)];
    }

    method CachePcmData(data: seq<int>, ts: uint32, now: uint32)
      requires Valid()
      modifies `audio, `gotAudio, `sysFastVideoTime, `rtmpFastVideoTime
      ensures Valid() && gotAudio && audio == old(audio) + [Packet(data, ts)]
      ensures if old(sysFastVideoTime) == 0 && Span(audio) >= 1000
              then sysFastVideoTime == now && rtmpFastVideoTime == ts
              else sysFastVideoTime == old(sysFastVideoTime) && rtmpFastVideoTime == old(rtmpFastVideoTime)
    {
      gotAudio := true;
      audio := audio + [Packet(data, ts)];
      if sysFastVideoTime == 0 {
        if Sub(audio[|audio| - 1].dts, audio[0].dts) >= MAX_DELAY {
          sysFastVideoTime, rtmpFastVideoTime := now, ts;
        }
      }
    }

    // ------------------------------------------------------------ the callbacks

    method OnPlay()
      requires Alternating(calls) && |calls| % 2 == 0
      modifies `calls, `playing
      ensures Alternating(calls) && calls == old(calls) + [Play] && playing == Playing(calls) == true
      ensures Pauses(calls) == Pauses(old(calls))
    {
      Called(calls, Play);
      calls, playing := calls + [Play], true;
    }

    method OnPause()
      requires Alternating(calls) && |calls| % 2 == 1
      modifies `calls, `playing
      ensures Alternating(calls) && calls == old(calls) + [Pause] && playing == Playing(calls) == false
      ensures Pauses(calls) == Pauses(old(calls)) + 1
    {
      Called(calls, Pause);
      calls, playing := calls + [Pause], false;
    }

    // ------------------------------------------------------------ the tick

    /** What is buffered: the audio, or the video as long as there has been no audio. */
    function Buffered(): uint32
      reads this
    {
      if Span(audio) == 0 && !gotAudio then Span(video) else Span(audio)
    }

    /** Playing starts with enough audio, or later with any video when there is no audio. */
    predicate Starts(curTime: uint32)
      reads this
    {
      var gap := Sub(curTime, sysFastVideoTime);
      && gap >= 250
      && (if audio != [] then Span(audio) > 250 else gap >= 1000 && video != [])
    }

    /** Playing starts only after a quarter of a second, and with more than that much audio, or with any
        video after a second without audio; and then it does. */
    lemma StartsWhen(curTime: uint32)
      ensures Sub(curTime, sysFastVideoTime) < 250 ==> !Starts(curTime)
      ensures audio != [] && Sub(curTime, sysFastVideoTime) >= 250 ==> (Starts(curTime) <==> Span(audio) > 250)
      ensures audio == [] ==> (Starts(curTime) <==> Sub(curTime, sysFastVideoTime) >= 1000 && video != [])
    {
    }

    /** The audio counts as soon as there has been any; until then the video does, and its time goes by
        the clock. */
    lemma AudioLeads(curTime: uint32)
      ensures gotAudio ==> Buffered() == Span(audio) && PlayTime(curTime) == playCurTime
      ensures Span(audio) > 0 ==> Buffered() == Span(audio) && PlayTime(curTime) == playCurTime
      ensures !gotAudio && audio == [] ==> Buffered() == Span(video)
      ensures !gotAudio && audio == [] && video != [] ==>
                Sub(PlayTime(curTime), rtmpFastVideoTime) == Sub(curTime, sysFastVideoTime)
    {
    }

    /** One tick.  The clock is read at the beginning, and up to twice again. */
    method DoDecode(curTime: uint32, now: uint32, later: uint32)
      requires Valid()
      modifies this
      ensures Valid() && arrived == old(arrived) && audio == old(audio) && gotAudio == old(gotAudio)
      ensures rtmpFastVideoTime == old(rtmpFastVideoTime)
      ensures calls == old(calls) + Calls(old(status), status)
      ensures (status == Cache && old(status) == Normal) || targets == old(targets)
      ensures old(sysFastVideoTime) == 0 || old(status) != Normal ==> video == old(video) && cacheTime == old(cacheTime)
      ensures old(sysFastVideoTime) == 0 ==>
                status == old(status) && sysFastVideoTime == 0 && rtmpCacheTime == old(rtmpCacheTime)
                && playCurTime == old(playCurTime)
      ensures old(sysFastVideoTime) != 0 && old(status) == Fast ==>
                && (status == Normal <==> old(Starts(curTime))) && status in {Fast, Normal}
                && sysFastVideoTime == old(sysFastVideoTime) && rtmpCacheTime == old(rtmpCacheTime)
                && playCurTime == (if status == Fast then old(playCurTime)
                                   else if audio != [] then audio[0].dts else video[0].dts)
      ensures old(sysFastVideoTime) != 0 && old(status) == Normal ==>
                && (status == Cache <==> old(Buffered()) <= 250) && status in {Normal, Cache}
                && video == (if old(video) != [] && old(video)[0].dts <= old(PlayTime(curTime))
                             then old(video)[1..] else old(video))
                && (if status == Cache
                    then targets == old(targets) + [cacheTime] && rtmpCacheTime == Add(now, cacheTime)
                    else cacheTime == old(cacheTime) && rtmpCacheTime == old(rtmpCacheTime))
                && sysFastVideoTime == old(sysFastVideoTime) && playCurTime == old(playCurTime)
      ensures old(sysFastVideoTime) != 0 && old(status) == Cache ==>
                var due := old(rtmpCacheTime) <= now;
                && (status == Normal <==> due && old(Buffered()) >= cacheTime - 250) && status in {Normal, Cache}
                && rtmpCacheTime == (if due && status == Cache then Add(later, cacheTime) else old(rtmpCacheTime))
                && sysFastVideoTime == (if due && !gotAudio then Add(old(sysFastVideoTime), cacheTime)
                                        else old(sysFastVideoTime))
                && playCurTime == old(playCurTime)
    {
      hide Alternating, Playing, Pauses, Doubling, Delta, Add, Sub, Span;
      if sysFastVideoTime == 0 {
        return;
      }
      match status
      case Fast => StartPlaying(curTime);
      case Normal => PlayOrPause(curTime, now);
      case Cache => ResumePlaying(now, later);
    }

    method StartPlaying(curTime: uint32)
      requires Valid() && status == Fast
      modifies `status, `playCurTime, `calls, `playing
      ensures Valid() && status in {Fast, Normal} && calls == old(calls) + Calls(Fast, status)
      ensures status == Normal <==> old(Starts(curTime))
      ensures playCurTime == if status == Fast then old(playCurTime)
                             else if audio != [] then audio[0].dts else video[0].dts
    {
      hide Alternating, Playing, Pauses;
      var videoSysGap := Sub(curTime, sysFastVideoTime);
      if videoSysGap >= RED_TIME {
        if |audio| > 0 {
          if Sub(audio[|audio| - 1].dts, audio[0].dts) > RED_TIME {
            status, playCurTime := Normal, audio[0].dts;
            OnPlay();
          }
        } else if videoSysGap >= RED_TIME * 4 {
          if |video| > 0 {
            status, playCurTime := Normal, video[0].dts;
            OnPlay();
          }
        }
      }
    }

    /** Video is due at the time of the audio being played, or by the clock when there is none. */
    function PlayTime(curTime: uint32): uint32
      reads this
    {
      if Span(audio) == 0 && !gotAudio && video != []
      then Add(rtmpFastVideoTime, Sub(curTime, sysFastVideoTime)) else playCurTime
    }

    /** The time buffered, as both loops of the tick measure it. */
    method MediaTime() returns (time: uint32)
      ensures time == Buffered()
    {
      time := 0;
      if |audio| > 0 {
        time := Sub(audio[|audio| - 1].dts, audio[0].dts);
      }
      if time == 0 && !gotAudio {
        if |video| > 0 {
          time := Sub(video[|video| - 1].dts, video[0].dts);
        }
      }
    }

    /** Hands the first video packet to the decoder if it is due. */
    method TakeVideo(time: uint32)
      requires Valid()
      modifies `video, `decoded
      ensures Valid()
      ensures video == if old(video) != [] && old(video)[0].dts <= time then old(video)[1..] else old(video)
    {
      hide Alternating, Playing, Pauses, Delta;
      if |video| > 0 && video[0].dts <= time {
        decoded, video := decoded + [video[0]], video[1..];
      }
    }

    method PlayOrPause(curTime: uint32, now: uint32)
      requires Valid() && status == Normal
      modifies `video, `decoded, `status, `cacheTime, `cacheDelta, `rtmpCacheTime, `bufCacheTime,
               `calls, `playing, `targets
      ensures Valid() && status in {Normal, Cache}
      ensures status == Cache <==> old(Buffered()) <= 250
      ensures video == if old(video) != [] && old(video)[0].dts <= old(PlayTime(curTime))
                       then old(video)[1..] else old(video)
      ensures calls == old(calls) + Calls(Normal, status)
      ensures if status == Cache
              then targets == old(targets) + [cacheTime] && rtmpCacheTime == Add(now, cacheTime)
              else targets == old(targets) && cacheTime == old(cacheTime) && rtmpCacheTime == old(rtmpCacheTime)
    {
      hide Alternating, Playing, Pauses, Doubling, Delta;
      var mediaBufTime := MediaTime();
      var playVideoTime := playCurTime;
      if Span(audio) == 0 && !gotAudio && |video| > 0 {
        playVideoTime := Add(rtmpFastVideoTime, Sub(curTime, sysFastVideoTime));
      }
      TakeVideo(playVideoTime);
      if mediaBufTime <= RED_TIME {
        StartCaching(now);
      }
      bufCacheTime := mediaBufTime;
    }

    /** Pauses, and sets how much is to be buffered this time and the next. */
    method StartCaching(now: uint32)
      requires Valid() && status == Normal
      modifies `status, `cacheTime, `cacheDelta, `rtmpCacheTime, `calls, `playing, `targets
      ensures Valid() && status == Cache && calls == old(calls) + [Pause]
      ensures targets == old(targets) + [cacheTime] && rtmpCacheTime == Add(now, cacheTime)
    {
      hide Alternating, Playing, Pauses, Doubling;
      OneMoreTarget(targets);
      OnPause();
      status, cacheTime := Cache, cacheDelta * 1000;
      targets := targets + [cacheTime];
      if cacheDelta < MAX_CACHE {
        cacheDelta := cacheDelta * 2;
      }
      rtmpCacheTime := Add(now, cacheTime);
    }

    method ResumePlaying(now: uint32, later: uint32)
      requires Valid() && status == Cache
      modifies `status, `cacheDelta, `rtmpCacheTime, `sysFastVideoTime, `bufCacheTime, `calls, `playing
      ensures Valid() && status in {Normal, Cache}
      ensures calls == old(calls) + Calls(Cache, status)
      ensures var due := old(rtmpCacheTime) <= now;
              && (status == Normal <==> due && old(Buffered()) >= cacheTime - 250)
              && rtmpCacheTime == (if due && status == Cache then Add(later, cacheTime) else old(rtmpCacheTime))
              && sysFastVideoTime == (if due && !gotAudio then Add(old(sysFastVideoTime), cacheTime)
                                      else old(sysFastVideoTime))
    {
      hide Alternating, Playing, Pauses;
      if rtmpCacheTime <= now {
        var mediaBufTime := MediaTime();
        if mediaBufTime >= cacheTime - RED_TIME {
          status := Normal;
          if cacheDelta == MAX_CACHE {
            cacheDelta := cacheDelta / 2;
          }
          OnPlay();
        } else {
          rtmpCacheTime := Add(later, cacheTime);
        }
        if !gotAudio {
          sysFastVideoTime := Add(sysFastVideoTime, cacheTime);
        }
        bufCacheTime := mediaBufTime;
      }
    }
  }
}
