/**
 * The playback state machine of CVoice: eof arms it, clock starts sending
 * once the arming timer has expired, and read releases at most one frame per
 * call, never more than the stopwatch says are due.
 *
 * The step functions here say what one call does to the playback fields;
 * the methods of CVoice are proved to perform exactly these steps. The
 * timer is abstract: it is running or not, and has expired or not. The
 * stopwatch is the `elapsed` argument of ReadStep: milliseconds since the
 * last VS_WAITING -> VS_SENDING transition.
 */
module Playback {
  import opened Wrappers
  import opened M17

  /** VOICE_STATUS: VS_NONE, VS_WAITING, VS_SENDING. */
  datatype VoiceStatus = VsNone | VsWaiting | VsSending

  /** The fields playback reads and writes: m_status, m_sent, m_voiceLength and m_timer. */
  datatype PlayState = PlayState(
    status: VoiceStatus,
    sent: nat,
    voiceLength: nat,
    timerRunning: bool,
    timerExpired: bool)

  /** The state after one read call, and the index of the frame it released, if any. */
  datatype ReadResult = ReadResult(next: PlayState, frame: Option<nat>)

  /** Frames due after `elapsed` milliseconds of sending. */
  function FramesDue(elapsed: nat): nat {
    elapsed / FrameTime
  }

  /**
   * One read call. Nothing happens unless the status is VS_SENDING and fewer
   * frames have been sent than are due. Otherwise frame number `sent` (bytes
   * sent * L to sent * L + L) is released and counted; when that frame ends
   * at or past the announcement's length the timer is stopped, the length is
   * cleared and the status goes back to VS_NONE.
   */
  function ReadStep(p: PlayState, elapsed: nat): (r: ReadResult)
    ensures r.frame.Some? <==> p.status == VsSending && p.sent < FramesDue(elapsed)
    ensures r.frame.None? ==> r.next == p
    ensures r.frame.Some? ==> r.frame.value == p.sent && r.next.sent == p.sent + 1 <= FramesDue(elapsed)
    ensures r.frame.Some? ==> r.next.status == VsSending || r.next.status == VsNone
    ensures r.frame.Some? && r.next.status == VsSending ==> r.next == p.(sent := p.sent + 1)
    ensures r.frame.Some? && r.next.status == VsNone ==>
              r.next.voiceLength == 0 && !r.next.timerRunning && !r.next.timerExpired
  {
    if p.status != VsSending || p.sent >= FramesDue(elapsed) then ReadResult(p, None)
    else
      var offset := (p.sent + 1) * NetworkFrameLength;
      var next := p.(sent := p.sent + 1);
      if offset >= p.voiceLength then
        ReadResult(next.(timerRunning := false, timerExpired := false, voiceLength := 0, status := VsNone), Some(p.sent))
      else
        ReadResult(next, Some(p.sent))
  }

  /** eof: with an announcement present, wait for the (re)started timer. */
  function EofStep(p: PlayState): (r: PlayState)
    ensures r.sent == p.sent && r.voiceLength == p.voiceLength
    ensures p.voiceLength == 0 ==> r == p
    ensures p.voiceLength > 0 ==> r.status == VsWaiting && r.timerRunning && !r.timerExpired
  {
    if p.voiceLength == 0 then p
    else p.(status := VsWaiting, timerRunning := true, timerExpired := false)
  }

  /**
   * clock: advance the timer (`expires` says whether this advance reaches its
   * timeout; a stopped timer never expires) and, if the timer is running and
   * has expired while waiting, start sending from frame 0.
   */
  function ClockStep(p: PlayState, expires: bool): (r: PlayState)
    ensures r.voiceLength == p.voiceLength && r.timerRunning == p.timerRunning
    ensures r.timerExpired <==> p.timerRunning && (p.timerExpired || expires)
    ensures r.status != p.status <==> p.status == VsWaiting && r.timerExpired
    ensures r.status != p.status ==> r.status == VsSending && r.sent == 0
    ensures r.status == p.status ==> r.sent == p.sent
  {
    var q := p.(timerExpired := p.timerRunning && (p.timerExpired || expires));
    if q.timerRunning && q.timerExpired && q.status == VsWaiting then q.(status := VsSending, sent := 0)
    else q
  }

  /**
   * The invariant playback keeps: the length is a whole number of frames,
   * a waiting machine has something to send, and while sending the next
   * frame to release starts inside the announcement.
   */
  predicate Consistent(p: PlayState) {
    && p.voiceLength % NetworkFrameLength == 0
    && (p.status == VsWaiting ==> p.voiceLength > 0)
    && (p.status == VsSending ==> p.sent * NetworkFrameLength < p.voiceLength)
  }

  /** Consistent and sending. */
  predicate Playing(p: PlayState) {
    Consistent(p) && p.status == VsSending
  }

  /** The frames in an announcement of `p.voiceLength` bytes. */
  function FrameCount(p: PlayState): nat {
    p.voiceLength / NetworkFrameLength
  }

  lemma FrameCountExact(p: PlayState)
    requires p.voiceLength % NetworkFrameLength == 0
    ensures p.voiceLength == FrameCount(p) * NetworkFrameLength
  {
  }

  /** Releasing frame `sent` ends playback exactly when it is the announcement's last frame. */
  lemma ReadEndsAtLastFrame(p: PlayState, elapsed: nat)
    requires Playing(p)
    requires ReadStep(p, elapsed).frame.Some?
    ensures ReadStep(p, elapsed).next.status == VsNone <==> p.sent + 1 == FrameCount(p)
    ensures ReadStep(p, elapsed).next.status == VsSending ==> p.sent + 1 < FrameCount(p)
  {
    var k := FrameCount(p);
    FrameCountExact(p);
    FrameCompare(p.sent, k);
    FrameCompare(p.sent + 1, k);
  }

  /** read, eof and clock all keep the playback invariant. */
  lemma StepsKeepConsistent(p: PlayState, elapsed: nat, expires: bool)
    requires Consistent(p)
    ensures Consistent(ReadStep(p, elapsed).next)
    ensures Consistent(EofStep(p))
    ensures Consistent(ClockStep(p, expires))
  {
    if p.status == VsSending && ReadStep(p, elapsed).frame.Some? {
      ReadEndsAtLastFrame(p, elapsed);
      FrameCountExact(p);
      FrameCompare(p.sent + 1, FrameCount(p));
    }
  }

  /**
   * The only status changes: read takes VS_SENDING to VS_NONE, clock takes
   * VS_WAITING to VS_SENDING (resetting the count), and eof takes any status
   * to VS_WAITING when there is an announcement and changes nothing when
   * there is none.
   */
  lemma StatusTransitions(p: PlayState, elapsed: nat, expires: bool)
    ensures var q := ReadStep(p, elapsed).next;
            q.status == p.status || (p.status == VsSending && q.status == VsNone)
    ensures var q := ClockStep(p, expires);
            q.status == p.status || (p.status == VsWaiting && q.status == VsSending && q.sent == 0)
    ensures var q := ClockStep(p, expires);
            q.status != p.status <==> p.status == VsWaiting && p.timerRunning && (p.timerExpired || expires)
    ensures p.voiceLength == 0 ==> EofStep(p) == p
    ensures p.voiceLength > 0 ==> EofStep(p).status == VsWaiting && EofStep(p).timerRunning
  {
  }

  // ---------------------------------------------------------------------
  // Runs of read calls

  /** The state after a run of read calls and the frames they released, in order. */
  datatype Run = Run(last: PlayState, frames: seq<nat>)

  /** read called once for each stopwatch reading in `elapsed`, in order. */
  function ReadAll(p: PlayState, elapsed: seq<nat>): (run: Run)
    ensures p.sent <= run.last.sent && |run.frames| == run.last.sent - p.sent
    decreases |elapsed|
  {
    if elapsed == [] then Run(p, [])
    else
      var r := ReadStep(p, elapsed[0]);
      var rest := ReadAll(r.next, elapsed[1..]);
      Run(rest.last, (if r.frame.Some? then [r.frame.value] else []) + rest.frames)
  }

  /** lo, lo + 1, ..., hi - 1. */
  function Range(lo: nat, hi: nat): (s: seq<nat>)
    requires lo <= hi
    ensures |s| == hi - lo && forall i :: 0 <= i < |s| ==> s[i] == lo + i
  {
    seq(hi - lo, i requires 0 <= i < hi - lo => lo + i)
  }

  /** The largest reading in `elapsed` (0 for none). */
  function Latest(elapsed: seq<nat>): (m: nat)
    ensures forall i :: 0 <= i < |elapsed| ==> elapsed[i] <= m
  {
    if elapsed == [] then 0
    else
      var m := Latest(elapsed[1..]);
      if elapsed[0] > m then elapsed[0] else m
  }

  /** Without sending, read releases nothing and changes nothing, however often it is called. */
  lemma {:induction false} IdleReadsNothing(p: PlayState, elapsed: seq<nat>)
    requires p.status != VsSending
    ensures ReadAll(p, elapsed) == Run(p, [])
    decreases |elapsed|
  {
    if elapsed != [] {
      IdleReadsNothing(p, elapsed[1..]);
    }
  }

  /**
   * No frame is released twice and none is skipped: a run releases exactly
   * the frames from the count it started at up to the count it ends at.
   */
  lemma {:induction false} FramesInOrder(p: PlayState, elapsed: seq<nat>)
    ensures p.sent <= ReadAll(p, elapsed).last.sent
    ensures ReadAll(p, elapsed).frames == Range(p.sent, ReadAll(p, elapsed).last.sent)
    decreases |elapsed|
  {
    if elapsed != [] {
      var r := ReadStep(p, elapsed[0]);
      FramesInOrder(r.next, elapsed[1..]);
      var last := ReadAll(p, elapsed).last.sent;
      if r.frame.Some? {
        assert [p.sent] + Range(p.sent + 1, last) == Range(p.sent, last);
      }
    }
  }

  /**
   * Pacing: however often read is called, the count never passes the
   * frames due at the latest stopwatch reading (unless it already had).
   */
  lemma {:induction false} ReadsArePaced(p: PlayState, elapsed: seq<nat>)
    ensures ReadAll(p, elapsed).last.sent <= if p.sent > FramesDue(Latest(elapsed)) then p.sent else FramesDue(Latest(elapsed))
    decreases |elapsed|
  {
    if elapsed != [] {
      var r := ReadStep(p, elapsed[0]);
      ReadsArePaced(r.next, elapsed[1..]);
      DivFrameTimeMonotone(Latest(elapsed[1..]), Latest(elapsed));
      DivFrameTimeMonotone(elapsed[0], Latest(elapsed));
    }
  }

  /**
   * A run of reads from a consistent sending state never releases more than
   * the announcement holds; it has returned to VS_NONE exactly when every
   * frame has been released, and otherwise it is still sending the same
   * announcement.
   */
  lemma {:induction false} ReadsStopAtEnd(p: PlayState, elapsed: seq<nat>)
    requires Playing(p)
    ensures ReadAll(p, elapsed).last.sent <= FrameCount(p)
    ensures ReadAll(p, elapsed).last.status == VsNone <==> ReadAll(p, elapsed).last.sent == FrameCount(p)
    ensures ReadAll(p, elapsed).last.status != VsWaiting
    ensures ReadAll(p, elapsed).last.status == VsSending ==>
              Playing(ReadAll(p, elapsed).last) && ReadAll(p, elapsed).last.voiceLength == p.voiceLength
    decreases |elapsed|
  {
    FrameCountExact(p);
    FrameCompare(p.sent, FrameCount(p));
    if elapsed != [] {
      var r := ReadStep(p, elapsed[0]);
      StepsKeepConsistent(p, elapsed[0], false);
      if r.frame.Some? {
        ReadEndsAtLastFrame(p, elapsed[0]);
      }
      if r.next.status == VsSending {
        ReadsStopAtEnd(r.next, elapsed[1..]);
      } else {
        IdleReadsNothing(r.next, elapsed[1..]);
      }
    }
  }

  /**
   * Once the stopwatch has run for the whole announcement, one read per
   * remaining frame releases all of them and playback returns to VS_NONE
   * with the timer stopped and the length cleared.
   */
  lemma {:induction false} ReadsFinish(p: PlayState, elapsed: nat)
    requires Playing(p)
    requires FramesDue(elapsed) >= FrameCount(p)
    ensures p.sent < FrameCount(p)
    ensures var run := ReadAll(p, seq(FrameCount(p) - p.sent, _ => elapsed));
            run.last.status == VsNone && run.last.sent == FrameCount(p) &&
            run.last.voiceLength == 0 && !run.last.timerRunning
    decreases FrameCount(p) - p.sent
  {
    var k := FrameCount(p);
    FrameCountExact(p);
    FrameCompare(p.sent, k);
    var es := seq(k - p.sent, _ => elapsed);
    var r := ReadStep(p, elapsed);
    ReadEndsAtLastFrame(p, elapsed);
    assert es[0] == elapsed && es[1..] == seq(k - (p.sent + 1), _ => elapsed);
    if p.sent + 1 == k {
      IdleReadsNothing(r.next, es[1..]);
    } else {
      StepsKeepConsistent(p, elapsed, false);
      ReadsFinish(r.next, elapsed);
    }
  }

  /** eof then a clock tick on which the timer expires: sending starts from frame 0. */
  lemma ArmThenStart(p: PlayState, k: nat)
    requires k > 0 && p.voiceLength == k * NetworkFrameLength
    ensures EofStep(p).status == VsWaiting
    ensures ClockStep(EofStep(p), false).status == VsWaiting
    ensures var sending := ClockStep(EofStep(p), true);
            Playing(sending) && sending.sent == 0 && FrameCount(sending) == k
  {
    MulFrameLength(1, k);
    WholeFrames(k);
    var sending := ClockStep(EofStep(p), true);
    assert sending.voiceLength == p.voiceLength;
  }

  /**
   * One whole cycle for a freshly built announcement of k frames: eof arms
   * the machine, a clock tick on which the timer expires starts sending from
   * frame 0, and reads at a stopwatch reading covering k frames release
   * frames 0 to k - 1, in order, once each, and return the machine to VS_NONE.
   */
  lemma AnnouncementCycle(p: PlayState, k: nat, elapsed: nat)
    requires k > 0 && p.voiceLength == k * NetworkFrameLength
    requires FramesDue(elapsed) >= k
    ensures var run := ReadAll(ClockStep(EofStep(p), true), seq(k, _ => elapsed));
            run.last.status == VsNone && run.frames == Range(0, k) && run.last.voiceLength == 0
  {
    ArmThenStart(p, k);
    var sending := ClockStep(EofStep(p), true);
    ReadsFinish(sending, elapsed);
    FramesInOrder(sending, seq(k, _ => elapsed));
  }
}
