/**
 * CVoice: loads the catalog, builds an announcement buffer and plays it out
 * one network frame at a time.
 *
 * The fields are the members of the C++ class that these operations read
 * and write. The timer (m_timer) is abstract: `timerRunning` and
 * `timerExpired`. The stopwatch (m_stopWatch) is the `elapsed` argument of
 * Read. File access in open is replaced by its results: the index lines and
 * the bytes read from the audio file, or None when a file cannot be opened.
 */
module Voice {
  import opened Wrappers
  import opened M17
  import opened Catalog
  import opened Announcement
  import opened Playback

  class CVoice {
    /** m_positions: symbol -> position in the audio blob. */
    var positions: Positions
    /** m_m17: the audio blob. */
    var m17: seq<byte>
    /** m_status */
    var status: VoiceStatus
    /** m_sent: frames released since sending started. */
    var sent: nat
    /** m_voiceData: the announcement buffer ([] once released). */
    var voiceData: seq<byte>
    /** m_voiceLength: bytes of the announcement, counted by createFrame. */
    var voiceLength: nat
    /** m_timer.isRunning() */
    var timerRunning: bool
    /** m_timer.hasExpired() */
    var timerExpired: bool

    /** The playback fields as one value. */
    function State(): PlayState
      reads this
    {
      PlayState(status, sent, voiceLength, timerRunning, timerExpired)
    }

    /**
     * What every operation keeps: the announcement is a whole number of
     * frames and fits in its buffer, and a machine that is waiting or
     * sending has an announcement.
     */
    ghost predicate Valid()
      reads this
    {
      && voiceLength % NetworkFrameLength == 0
      && voiceLength <= |voiceData|
      && (status != VsNone ==> voiceLength > 0)
    }

    /**
     * The state createVoice leaves behind for `words`: a buffer of the
     * allocated size holding an announcement of the accounted size.
     */
    ghost predicate Announces(words: seq<string>)
      reads this
    {
      && Valid()
      && |voiceData| == Bytes(AllocatedFrames(positions, words))
      && voiceLength == Bytes(VoiceFrames(positions, words))
      && (status != VsSending ==> Consistent(State()))
    }

    constructor ()
      ensures Valid() && Consistent(State())
      ensures positions == map[] && m17 == [] && voiceData == []
      ensures status == VsNone && sent == 0 && voiceLength == 0
      ensures !timerRunning && !timerExpired
    {
      positions := map[];
      m17 := [];
      status := VsNone;
      sent := 0;
      voiceData := [];
      voiceLength := 0;
      timerRunning := false;
      timerExpired := false;
    }

    /**
     * open: fails when the index file or the audio file cannot be opened;
     * otherwise keeps the audio read and, when that is not empty, adds the
     * entry of each index line in order (a later line overwrites an
     * earlier one for the same symbol).
     */
    method Open(index: Option<seq<string>>, audio: Option<seq<byte>>) returns (ok: bool)
      modifies this`positions, this`m17
      ensures ok <==> index.Some? && audio.Some?
      ensures !ok ==> positions == old(positions) && m17 == old(m17)
      ensures ok ==> m17 == audio.value
      ensures ok ==> positions == if |audio.value| != 0 then Load(old(positions), index.value) else old(positions)
    {
      if index.None? || audio.None? {
        return false;
      }
      m17 := audio.value;
      if |m17| != 0 {
        var lines := index.value;
        var i := 0;
        while i < |lines|
          invariant 0 <= i <= |lines|
          invariant positions == Load(old(positions), lines[..i])
          invariant m17 == audio.value
        {
          assert lines[..i + 1][..i] == lines[..i];
          var entry := ParseLine(lines[i]);
          if entry.Some? {
            positions := positions[entry.value.symbol := entry.value.position];
          }
          i := i + 1;
        }
        assert lines[..|lines|] == lines;
      }
      return true;
    }

    /** linkedTo: announce "linked to" and the reflector, spelled out. */
    method LinkedTo(reflector: string)
      modifies this`voiceData, this`voiceLength
      ensures Announces(LinkedToWords(positions, reflector))
    {
      var words: seq<string>;
      if LinkedToPhrase !in positions {
        words := ["linked", "2"];
      } else {
        words := [LinkedToPhrase];
      }
      ghost var prefix := words;
      for i := 0 to |reflector|
        invariant words == prefix + Spell(reflector[..i])
      {
        SpellPrefix(reflector, i);
        words := words + [[reflector[i]]];
      }
      assert reflector[..|reflector|] == reflector;
      assert prefix + Spell(reflector) == LinkedToWords(positions, reflector);
      CreateVoice(words);
    }

    /** unlinked: announce "not linked". */
    method Unlinked()
      modifies this`voiceData, this`voiceLength
      ensures Announces(UnlinkedWords)
    {
      CreateVoice(["notlinked"]);
    }

    /**
     * createVoice: allocate room for the resolved words rounded up to an even
     * number of frames plus the silence at both ends, then count the
     * announcement's bytes frame by frame. The buffer's bytes are whatever
     * the allocation holds: nothing is copied into it.
     */
    method CreateVoice(words: seq<string>)
      modifies this`voiceData, this`voiceLength
      ensures Announces(words)
    {
      var catalog := positions;
      var m17Length := 0;
      for i := 0 to |words|
        invariant m17Length == ResolvedFrames(catalog, words[..i])
      {
        ResolvedFramesStep(catalog, words, i);
        if words[i] in catalog {
          m17Length := m17Length + catalog[words[i]].length;
        }
      }
      assert words[..|words|] == words;

      // Round up to an even frame count
      if m17Length % 2 != 0 {
        m17Length := m17Length + 1;
      }
      // SILENCE_LENGTH frames at each end
      m17Length := m17Length + SilenceLength;
      m17Length := m17Length + SilenceLength;

      assert m17Length == AllocatedFrames(catalog, words);
      assert |Zeros(Bytes(m17Length))| == Bytes(m17Length);
      var buffer: seq<byte> :| |buffer| == Bytes(m17Length);
      voiceData := buffer;

      voiceLength := 0;
      ghost var frames := 0;
      for i := 0 to SilenceLength
        invariant frames == i && voiceLength == Bytes(frames)
        modifies this`voiceLength
      {
        CreateFrame(1);
        AddFrames(frames, 1);
        frames := frames + 1;
      }

      for i := 0 to |words|
        invariant frames == SilenceLength + ResolvedFrames(catalog, words[..i])
        invariant voiceLength == Bytes(frames)
        modifies this`voiceLength
      {
        ResolvedFramesStep(catalog, words, i);
        if words[i] in catalog {
          var length := catalog[words[i]].length;
          if length > 0 {
            CreateFrame(length);
            AddFrames(frames, length);
          }
          frames := frames + length;
        }
      }
      assert words[..|words|] == words;

      for i := 0 to SilenceLength
        invariant frames == SilenceLength + ResolvedFrames(catalog, words) + i
        invariant voiceLength == Bytes(frames)
        modifies this`voiceLength
      {
        CreateFrame(1);
        AddFrames(frames, 1);
        frames := frames + 1;
      }

      VoiceFitsAllocation(catalog, words);
    }

    /** createFrame: count `length` more frames; no audio is copied. */
    method CreateFrame(length: nat)
      requires length > 0
      modifies this`voiceLength
      ensures voiceLength == old(voiceLength) + Bytes(length)
    {
      for i := 0 to length
        invariant voiceLength == old(voiceLength) + Bytes(i)
      {
        AddFrames(i, 1);
        voiceLength := voiceLength + NetworkFrameLength;
      }
    }

    /**
     * read: release at most one frame (n is the number of bytes released),
     * paced by the stopwatch reading `elapsed`; after the last frame, stop
     * the timer, release the buffer and return to VS_NONE.
     */
    method Read(elapsed: nat) returns (n: nat, frame: seq<byte>)
      requires Valid()
      modifies this`status, this`sent, this`voiceData, this`voiceLength, this`timerRunning, this`timerExpired
      ensures Valid()
      ensures State() == ReadStep(old(State()), elapsed).next
      ensures n == if ReadStep(old(State()), elapsed).frame.Some? then NetworkFrameLength else 0
      ensures n == 0 ==> frame == []
      ensures n > 0 ==> |frame| == NetworkFrameLength
      ensures n > 0 && old(Consistent(State())) ==>
                old((sent + 1) * NetworkFrameLength <= |voiceData|) &&
                frame == old(voiceData[sent * NetworkFrameLength .. (sent + 1) * NetworkFrameLength])
      ensures voiceData == if old(status) == VsSending && status == VsNone then [] else old(voiceData)
      ensures old(Consistent(State())) ==> Consistent(State())
    {
      if Consistent(State()) {
        StepsKeepConsistent(State(), elapsed, false);
      }
      if status != VsSending {
        return 0, [];
      }
      var count := elapsed / FrameTime;
      if sent < count {
        var offset := sent * NetworkFrameLength;
        if offset + NetworkFrameLength <= |voiceData| {
          frame := voiceData[offset .. offset + NetworkFrameLength];
        } else {
          // Past the buffer: the bytes copied are not determined.
          assert |Zeros(NetworkFrameLength)| == NetworkFrameLength;
          frame :| |frame| == NetworkFrameLength;
        }
        assert offset + NetworkFrameLength == (sent + 1) * NetworkFrameLength;
        ghost var p := State();
        if Consistent(p) {
          FrameCountExact(p);
          FrameCompare(sent + 1, FrameCount(p));
          FrameCompare(sent, FrameCount(p));
        }
        offset := offset + NetworkFrameLength;
        sent := sent + 1;
        if offset >= voiceLength {
          timerRunning, timerExpired := false, false;
          voiceLength := 0;
          voiceData := [];
          status := VsNone;
          WholeFrames(0);
        }
        return NetworkFrameLength, frame;
      }
      return 0, [];
    }

    /** eof: arm playback, unless there is no announcement. */
    method Eof()
      requires Valid()
      modifies this`status, this`timerRunning, this`timerExpired
      ensures Valid()
      ensures State() == EofStep(old(State()))
      ensures old(Consistent(State())) ==> Consistent(State())
    {
      if Consistent(State()) {
        StepsKeepConsistent(State(), 0, false);
      }
      if voiceLength == 0 {
        return;
      }
      status := VsWaiting;
      timerRunning, timerExpired := true, false;
    }

    /**
     * clock: advance the timer (`expires`: this advance reaches its timeout)
     * and start sending from frame 0 if it has expired while waiting.
     */
    method Clock(expires: bool)
      requires Valid()
      modifies this`status, this`sent, this`timerExpired
      ensures Valid()
      ensures State() == ClockStep(old(State()), expires)
      ensures old(Consistent(State())) ==> Consistent(State())
    {
      if Consistent(State()) {
        StepsKeepConsistent(State(), 0, expires);
      }
      timerExpired := timerRunning && (timerExpired || expires);
      if timerRunning && timerExpired {
        if status == VsWaiting {
          status := VsSending;
          sent := 0;
        }
      }
    }
  }
}
