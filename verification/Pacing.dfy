/**
 The clock that releases audio frames no faster than they play, in microseconds, with the time
 spent in pauses added to every later frame.
 */
module Pacing {

  const UNSET := -1
  const UINT32 := 0x1_0000_0000

  /** pauseTick is 0 when no pause is open. */
  datatype State = State(start: int, pauseTime: int, pauseTick: int, audioCurrent: int, frameDuration: int,
                         startPts: int, seeked: bool)

  /**
   Calls with what the clock showed: a frame is paced between reading the clock for `now`, closing
   a pause at `resumed`, and coming back from the sleep at `released`.
   */
  datatype Event =
    | Pause(at: int)
    | Resume(at: int)
    | Seek(at: int)
    | Frame(media: int, now: int, resumed: int, released: int)
    | Last(now: int, resumed: int, released: int)

  function Opened(now: int): State { State(now, 0, 0, 0, 0, UNSET, false) }

  function Resumed(s: State, t: int): State {
    if s.pauseTick != 0 then s.(pauseTime := s.pauseTime + (t - s.pauseTick), pauseTick := 0) else s
  }

  /** The media time of a frame counts from the first frame on. */
  function MediaTime(s: State, media: int): int {
    media - (if s.startPts == UNSET then media else s.startPts)
  }

  /** The frame's bookkeeping up to the sleep. */
  function Placed(s: State, e: Event): State
    requires e.Frame? || e.Last?
  {
    match e
    case Frame(media, now, resumed, _) =>
      var pts := MediaTime(s, media);
      var timed := s.(startPts := if s.startPts == UNSET then media else s.startPts, frameDuration := pts - s.audioCurrent);
      var based := if s.seeked then timed.(pauseTime := 0, start := now - pts, seeked := false) else timed;
      Resumed(based, resumed).(audioCurrent := pts)
    case Last(now, resumed, _) =>
      Resumed(s, resumed).(audioCurrent := s.audioCurrent + s.frameDuration)
  }

  /** When the frame just placed is due. */
  function Due(s: State): int { s.start + s.audioCurrent + s.pauseTime }

  /** How long it still is until then, seen at `now`. */
  function Wait(s: State, now: int): (w: nat) {
    var sdur := now - s.start - s.pauseTime;
    if sdur < s.audioCurrent then s.audioCurrent - sdur else 0
  }

  /** The argument of av_usleep: the wait cut to 32 bits. */
  function SleepFor(s: State, now: int): nat { Wait(s, now) % UINT32 }

  function Step(s: State, e: Event): State {
    match e
    case Pause(at) => s.(pauseTick := at)
    case Resume(at) => Resumed(s, at)
    case Seek(_) => s.(seeked := true)
    case _ => Placed(s, e)
  }

  function Run(start: int, es: seq<Event>): State {
    if es == [] then Opened(start) else Step(Run(start, es[..|es| - 1]), es[|es| - 1])
  }

  // ----- The clock

  function Begins(e: Event): int { if e.Frame? || e.Last? then e.now else e.at }

  function Ends(e: Event): int { if e.Frame? || e.Last? then e.released else e.at }

  /** A sleep lasts at least as long as asked for. */
  predicate Takes(s: State, e: Event) {
    if e.Frame? || e.Last? then e.now <= e.resumed && e.resumed + SleepFor(Placed(s, e), e.now) <= e.released else true
  }

  function ClockAfter(start: int, es: seq<Event>): int {
    if es == [] then start else Ends(es[|es| - 1])
  }

  /** The clock never goes back, neither between calls nor within one. */
  predicate Monotone(start: int, es: seq<Event>) {
    es == [] || (
      var before := es[..|es| - 1];
      && Monotone(start, before)
      && ClockAfter(start, before) <= Begins(es[|es| - 1])
      && Takes(Run(start, before), es[|es| - 1]))
  }

  // ----- One frame

  /** A frame whose wait fits 32 bits is not released before it is due, paused, sought or not. */
  lemma NotEarly(s: State, e: Event)
    requires e.Frame? || e.Last?
    requires Takes(s, e) && Wait(Placed(s, e), e.now) < UINT32
    ensures e.released >= Due(Placed(s, e))
  {
    hide Placed;
  }

  /** ... and that is the exact condition: when the sleep takes no longer than asked, a wait of 2^32 or more ends too soon. */
  lemma NotEarlyExactly(s: State, e: Event)
    requires e.Frame? || e.Last?
    requires e.resumed == e.now && e.released == e.now + SleepFor(Placed(s, e), e.now)
    ensures e.released >= Due(Placed(s, e)) <==> Wait(Placed(s, e), e.now) < UINT32
  {
    hide Placed;
  }

  /**
   Nor is it released later than it must be: a sleep that takes just as long as asked ends when the frame is due, or
   at once when it is late; the time between reading the clock and going to sleep comes on top.
   */
  lemma OnTime(s: State, e: Event)
    requires e.Frame? || e.Last?
    requires Wait(Placed(s, e), e.now) < 0x1_0000_0000
    requires e.released == e.resumed + SleepFor(Placed(s, e), e.now)
    ensures var due := Due(Placed(s, e));
            e.released == (if e.now <= due then due else e.now) + (e.resumed - e.now)
  {
    hide Placed;
  }

  /** The wait is cut to its low 32 bits. */
  lemma SleepIsCut(s: State, now: int)
    ensures 0 <= SleepFor(s, now) < 0x1_0000_0000
    ensures exists k: nat :: Wait(s, now) == SleepFor(s, now) + 0x1_0000_0000 * k
  {
    var k := Wait(s, now) / 0x1_0000_0000;
    assert Wait(s, now) == SleepFor(s, now) + 0x1_0000_0000 * k;
  }

  /** The last frame plays as long as the distance of the last two frames. */
  lemma LastPlaysOut(s: State, e: Event, last: Event)
    requires e.Frame? && last.Last?
    ensures var t := Placed(s, e);
            && Placed(t, last).audioCurrent - t.audioCurrent == t.audioCurrent - s.audioCurrent
            && Due(Placed(t, last).(pauseTime := t.pauseTime)) - Due(t) == t.audioCurrent - s.audioCurrent
  {
  }

  /** After a seek the next frame is due at once, or as much later as the pause it closes has lasted. */
  lemma SeekRebases(s: State, e: Event)
    requires s.seeked && e.Frame?
    ensures var t := Placed(s, e);
            && t.start == e.now - MediaTime(s, e.media) && t.audioCurrent == MediaTime(s, e.media)
            && t.pauseTime == (if s.pauseTick != 0 then e.resumed - s.pauseTick else 0)
            && Due(t) == e.now + t.pauseTime && !t.seeked
  {
  }

  /** A seek takes effect with the next frame, whatever pauses come between, and not with the last frame's delay. */
  lemma SeekWaits(s: State, at: int, e: Event)
    ensures var t := Step(s, Seek(at));
            && (e.Frame? ==> Due(Step(t, e)) - Step(t, e).pauseTime == e.now && !Step(t, e).seeked)
            && (!e.Frame? ==> Step(t, e) == Step(s, e).(seeked := true))
  {
  }

  // ----- Pauses, read off the history alone

  predicate Closes(e: Event) { e.Resume? || e.Frame? || e.Last? }

  function ClosingTime(e: Event): int
    requires Closes(e)
  {
    if e.Resume? then e.at else e.resumed
  }

  /** What becomes of a pause: still open, begun anew by a later pause, or closed. */
  datatype Fate = Open | Superseded | Closed(at: int)

  function FateAfter(f: Fate, e: Event): Fate {
    if f != Open || e.Seek? then f else if e.Pause? then Superseded else Closed(ClosingTime(e))
  }

  /** The fate of a pause by the events from j on: the first one that concerns pauses decides. */
  function FateFrom(es: seq<Event>, j: nat): Fate
    requires j <= |es|
    decreases |es| - j
  {
    if j == |es| then Open
    else if es[j].Seek? then FateFrom(es, j + 1)
    else FateAfter(Open, es[j])
  }

  /** How long the pause that starts at k lasted, if one starts there and was closed. */
  function PauseLength(es: seq<Event>, k: nat): int
    requires k < |es|
  {
    if es[k].Pause? && FateFrom(es, k + 1).Closed? then FateFrom(es, k + 1).at - es[k].at else 0
  }

  /** All closed pauses, each counted once. */
  function PausesUpTo(es: seq<Event>, n: nat): int
    requires n <= |es|
  {
    if n == 0 then 0 else PausesUpTo(es, n - 1) + PauseLength(es, n - 1)
  }

  function AllPauses(es: seq<Event>): int { PausesUpTo(es, |es|) }

  lemma {:induction false} FateSnoc(es: seq<Event>, e: Event, j: nat)
    requires j <= |es|
    ensures FateFrom(es + [e], j) == FateAfter(FateFrom(es, j), e)
    decreases |es| - j
  {
    if j < |es| {
      FateSnoc(es, e, j + 1);
    }
  }

  /** The last of the first n events that starts a pause still open; -1 if there is none. */
  function OpenPause(es: seq<Event>, n: nat): (k: int)
    requires n <= |es|
    ensures k == -1 || (0 <= k < n && es[k].Pause?)
  {
    if n == 0 then -1
    else if es[n - 1].Pause? && FateFrom(es, n) == Open then n - 1
    else OpenPause(es, n - 1)
  }

  lemma {:induction false} NotOpenBefore(es: seq<Event>, j: nat, m: nat)
    requires j <= m < |es| && es[m].Pause?
    ensures FateFrom(es, j) != Open
    decreases m - j
  {
    if j < m {
      NotOpenBefore(es, j + 1, m);
    }
  }

  /** No pause in front of a pause is still open. */
  lemma {:induction false} OnlyOneOpen(es: seq<Event>, n: nat, m: nat)
    requires n <= m < |es| && es[m].Pause?
    ensures OpenPause(es, n) == -1
  {
    if n > 0 {
      NotOpenBefore(es, n, m);
      OnlyOneOpen(es, n - 1, m);
    }
  }

  lemma {:induction false} OpenSnoc(es: seq<Event>, e: Event, n: nat)
    requires n <= |es|
    ensures OpenPause(es + [e], n) == if e.Seek? then OpenPause(es, n) else -1
  {
    if n > 0 {
      FateSnoc(es, e, n);
      OpenSnoc(es, e, n - 1);
    }
  }

  /** What a further event adds: the pause it closes. */
  function Added(es: seq<Event>, n: nat, e: Event): int
    requires n <= |es|
  {
    if Closes(e) && OpenPause(es, n) >= 0 then ClosingTime(e) - es[OpenPause(es, n)].at else 0
  }

  lemma {:induction false} PausesSnoc(es: seq<Event>, e: Event, n: nat)
    requires n <= |es|
    ensures PausesUpTo(es + [e], n) == PausesUpTo(es, n) + Added(es, n, e)
  {
    if n > 0 {
      PausesSnoc(es, e, n - 1);
      FateSnoc(es, e, n);
      if es[n - 1].Pause? {
        OnlyOneOpen(es, n - 1, n - 1);
      }
    }
  }

  predicate Unsought(es: seq<Event>) {
    forall i :: 0 <= i < |es| ==> !es[i].Seek?
  }

  /**
   Over every run without a seek: the fields hold the total of all closed pauses and the start of
   the open one.  The clock is positive, since 0 stands for no pause.
   */
  lemma {:induction false} PausesCounted(start: int, es: seq<Event>)
    requires start > 0 && Monotone(start, es) && Unsought(es)
    ensures var s := Run(start, es);
            && s.start == start && !s.seeked
            && s.pauseTime == AllPauses(es)
            && s.pauseTick == (if OpenPause(es, |es|) >= 0 then es[OpenPause(es, |es|)].at else 0)
    ensures ClockAfter(start, es) >= start && (forall i :: 0 <= i < |es| && es[i].Pause? ==> es[i].at >= start)
  {
    if es != [] {
      var before, e := es[..|es| - 1], es[|es| - 1];
      PausesCounted(start, before);
      assert es == before + [e];
      PausesSnoc(before, e, |before|);
      OpenAfter(before, e);
    }
  }

  /** The pause that is open after one more event. */
  lemma OpenAfter(es: seq<Event>, e: Event)
    ensures OpenPause(es + [e], |es| + 1) ==
            if e.Pause? then |es| else if e.Seek? then OpenPause(es, |es|) else -1
    ensures AllPauses(es + [e]) == PausesUpTo(es + [e], |es|)
  {
    OpenSnoc(es, e, |es|);
    FateSnoc(es, e, |es|);
  }

  // ----- Whole runs

  /** The pauses closed since the last frame was placed. */
  function PausedSince(start: int, es: seq<Event>): int {
    if es == [] then 0 else
      var before := es[..|es| - 1];
      if es[|es| - 1].Frame? || es[|es| - 1].Last? then 0
      else PausedSince(start, before) + Run(start, es).pauseTime - Run(start, before).pauseTime
  }

  /** From the frame before to this one, in media time and closed pauses, the steps stay below 2^32. */
  predicate SmallStep(start: int, es: seq<Event>, e: Event) {
    (e.Frame? || e.Last?) ==>
      var s := Run(start, es);
      var t := Placed(s, e);
      t.audioCurrent - s.audioCurrent + PausedSince(start, es) + t.pauseTime - s.pauseTime < UINT32
  }

  predicate SmallSteps(start: int, es: seq<Event>) {
    forall k :: 0 <= k < |es| ==> SmallStep(start, es[..k], es[k])
  }

  /** Every frame of the run came out no earlier than start, media time and pauses ask for. */
  predicate InTime(start: int, es: seq<Event>) {
    forall k :: 0 <= k < |es| && (es[k].Frame? || es[k].Last?) ==>
      Ends(es[k]) >= start + Run(start, es[..k + 1]).audioCurrent + AllPauses(es[..k + 1])
  }

  lemma StepsBefore(start: int, es: seq<Event>)
    requires es != [] && SmallSteps(start, es)
    ensures SmallSteps(start, es[..|es| - 1]) && SmallStep(start, es[..|es| - 1], es[|es| - 1])
  {
    hide SmallStep;
    var before := es[..|es| - 1];
    forall k | 0 <= k < |before|
      ensures SmallStep(start, before[..k], before[k])
    {
      assert before[..k] == es[..k] && before[k] == es[k];
    }
  }

  /** The clock never falls behind the last frame, so no wait is ever long. */
  lemma {:induction false} CaughtUp(start: int, es: seq<Event>)
    requires start > 0 && Monotone(start, es) && Unsought(es) && SmallSteps(start, es)
    ensures var s := Run(start, es);
            ClockAfter(start, es) >= start + s.audioCurrent + s.pauseTime - PausedSince(start, es)
  {
    hide Placed, SmallSteps, SleepFor;
    if es != [] {
      var before, e := es[..|es| - 1], es[|es| - 1];
      StepsBefore(start, es);
      CaughtUp(start, before);
      PausesCounted(start, before);
      PausesCounted(start, es);
      if e.Frame? || e.Last? {
        NotEarly(Run(start, before), e);
      }
    }
  }

  lemma {:induction false} NeverEarly(start: int, es: seq<Event>)
    requires start > 0 && Monotone(start, es) && Unsought(es) && SmallSteps(start, es)
    ensures InTime(start, es)
  {
    hide SmallSteps, Run, AllPauses, PausedSince;
    if es != [] {
      var before, e := es[..|es| - 1], es[|es| - 1];
      StepsBefore(start, es);
      NeverEarly(start, before);
      forall k | 0 <= k < |es| && (es[k].Frame? || es[k].Last?)
        ensures Ends(es[k]) >= start + Run(start, es[..k + 1]).audioCurrent + AllPauses(es[..k + 1])
      {
        if k < |before| {
          assert before[..k + 1] == es[..k + 1] && before[k] == es[k];
        } else {
          assert es[..k + 1] == es;
          CaughtUp(start, es);
          PausesCounted(start, es);
          NoneSince(start, es);
        }
      }
    }
  }

  lemma NoneSince(start: int, es: seq<Event>)
    requires es != [] && (es[|es| - 1].Frame? || es[|es| - 1].Last?)
    ensures PausedSince(start, es) == 0
  {
  }

  // ----- Media time

  function FirstMedia(es: seq<Event>): int {
    if es == [] then UNSET else if es[0].Frame? then es[0].media else FirstMedia(es[1..])
  }

  lemma {:induction false} NoFrameYet(es: seq<Event>, i: nat)
    requires i < |es| && es[i].Frame? && forall j :: 0 <= j < i ==> !es[j].Frame?
    ensures FirstMedia(es) == es[i].media
  {
    if i > 0 {
      NoFrameYet(es[1..], i - 1);
    }
  }

  /** Media time is counted from the first frame, unless that one's time stamp is the -1 that means unset. */
  lemma {:induction false} MediaFromFirst(start: int, es: seq<Event>, i: nat)
    requires i < |es| && es[i].Frame? && es[i].media != -1
    requires forall j :: 0 <= j < i ==> !es[j].Frame?
    ensures Run(start, es).startPts == es[i].media == FirstMedia(es)
    ensures es[|es| - 1].Frame? ==> Run(start, es).audioCurrent == es[|es| - 1].media - FirstMedia(es)
    decreases |es|
  {
    NoFrameYet(es, i);
    if i < |es| - 1 {
      NoFrameYet(es[..|es| - 1], i);
      MediaFromFirst(start, es[..|es| - 1], i);
    } else {
      StillUnset(start, es[..|es| - 1]);
    }
  }

  lemma {:induction false} StillUnset(start: int, es: seq<Event>)
    requires forall j :: 0 <= j < |es| ==> !es[j].Frame?
    ensures Run(start, es).startPts == UNSET
  {
    if es != [] {
      StillUnset(start, es[..|es| - 1]);
    }
  }

  /** A first frame at time stamp -1 does not count as the first: the next one does. */
  lemma UnsetStamp(start: int, e: Event, f: Event)
    requires e.Frame? && f.Frame? && e.media == -1 && f.media != -1
    ensures Run(start, [e, f]).startPts == f.media && Run(start, [e, f]).audioCurrent == 0
  {
    assert [e, f][..1] == [e] && [e][..0] == [];
    assert Run(start, [e]) == Step(Opened(start), e);
  }

  /** The only frame of a stream has no length to play out. */
  lemma OneFrame(start: int, e: Event, last: Event)
    requires e.Frame? && last.Last? && e.media != -1
    ensures Run(start, [e, last]).audioCurrent == 0
  {
    assert [e, last][..1] == [e] && [e][..0] == [];
    assert Run(start, [e]) == Step(Opened(start), e);
  }
}
