/**
 * What CVoice::linkedTo and CVoice::unlinked ask for, and how many frames
 * createVoice allocates and accounts for.
 *
 * createVoice sums the lengths of the words the catalog resolves (a word it
 * cannot resolve is only logged), rounds the sum up to an even number of
 * frames, and adds SILENCE_LENGTH frames of silence at each end: that is
 * the size of the buffer it allocates. It then rebuilds m_voiceLength frame
 * by frame, which counts the resolved lengths WITHOUT the rounding, so the
 * announcement can be one frame shorter than its buffer.
 */
module Announcement {
  import opened Wrappers
  import opened Tokens
  import opened Catalog
  import opened M17

  /** SILENCE_LENGTH: frames of silence before and after the words. */
  const SilenceLength: nat := 4

  /** The symbol linkedTo uses when the catalog has a single phrase for "linked to". */
  const LinkedToPhrase: string := "linkedto"

  /** The words unlinked announces. */
  const UnlinkedWords: seq<string> := ["notlinked"]

  /** One single-character word per character of `reflector`, in order. */
  function Spell(reflector: string): (words: seq<string>)
    ensures |words| == |reflector|
    ensures forall i :: 0 <= i < |reflector| ==> words[i] == [reflector[i]]
  {
    if reflector == [] then []
    else Spell(reflector[..|reflector| - 1]) + [[reflector[|reflector| - 1]]]
  }

  /** Spelling one more character appends that character's word. */
  lemma SpellPrefix(reflector: string, i: nat)
    requires i < |reflector|
    ensures Spell(reflector[..i + 1]) == Spell(reflector[..i]) + [[reflector[i]]]
  {
    assert reflector[..i + 1][..i] == reflector[..i];
  }

  /**
   * The words linkedTo announces: "linkedto" when the catalog has it,
   * otherwise "linked" followed by "2", then the reflector spelled out.
   */
  function LinkedToWords(positions: Positions, reflector: string): (words: seq<string>)
    ensures LinkedToPhrase in positions ==> |words| == 1 + |reflector| && words[0] == LinkedToPhrase
    ensures LinkedToPhrase !in positions ==>
              |words| == 2 + |reflector| && words[0] == "linked" && words[1] == "2"
    ensures forall i :: 0 <= i < |reflector| ==> words[|words| - |reflector| + i] == [reflector[i]]
  {
    (if LinkedToPhrase in positions then [LinkedToPhrase] else ["linked", "2"]) + Spell(reflector)
  }

  /** Frames a word contributes: its length when the catalog resolves it, else none. */
  function WordFrames(positions: Positions, word: string): nat {
    match Resolve(positions, word)
    case None => 0
    case Some(p) => p.length
  }

  /** Sum of the lengths of the resolved words (the first loop of createVoice). */
  function ResolvedFrames(positions: Positions, words: seq<string>): (n: nat)
    ensures forall i :: 0 <= i < |words| && words[i] in positions ==> positions[words[i]].length <= n
  {
    if words == [] then 0
    else ResolvedFrames(positions, words[..|words| - 1]) + WordFrames(positions, words[|words| - 1])
  }

  /** One more word adds the frames of that word. */
  lemma ResolvedFramesStep(positions: Positions, words: seq<string>, i: nat)
    requires i < |words|
    ensures ResolvedFrames(positions, words[..i + 1])
            == ResolvedFrames(positions, words[..i]) + (if words[i] in positions then positions[words[i]].length else 0)
  {
    assert words[..i + 1][..i] == words[..i];
  }

  /** The smallest even number that is at least `n`. */
  function RoundUpEven(n: nat): (r: nat)
    ensures r % 2 == 0
    ensures n <= r <= n + 1
  {
    if n % 2 != 0 then n + 1 else n
  }

  /** m17Length: the frames createVoice allocates room for. */
  function AllocatedFrames(positions: Positions, words: seq<string>): (n: nat)
    ensures n % 2 == 0
    ensures n >= 2 * SilenceLength
    ensures VoiceFrames(positions, words) <= n <= VoiceFrames(positions, words) + 1
  {
    RoundUpEven(ResolvedFrames(positions, words)) + 2 * SilenceLength
  }

  /** The frames createFrame accounts for: silence, the resolved words, silence. */
  function VoiceFrames(positions: Positions, words: seq<string>): (n: nat)
    ensures n >= 2 * SilenceLength
    ensures forall i :: 0 <= i < |words| && words[i] in positions ==>
              positions[words[i]].length + 2 * SilenceLength <= n
  {
    ResolvedFrames(positions, words) + 2 * SilenceLength
  }

  /** Resolved frames add up over a split of the word list. */
  lemma {:induction false} ResolvedFramesAppend(positions: Positions, a: seq<string>, b: seq<string>)
    ensures ResolvedFrames(positions, a + b) == ResolvedFrames(positions, a) + ResolvedFrames(positions, b)
  {
    if b == [] {
      assert a + b == a;
    } else {
      var b' := b[..|b| - 1];
      assert (a + b)[..|a + b| - 1] == a + b';
      ResolvedFramesAppend(positions, a, b');
    }
  }

  /**
   * A word the catalog cannot resolve changes nothing: the announcement has
   * the frames it would have without that word.
   */
  lemma UnresolvedWordIgnored(positions: Positions, a: seq<string>, word: string, b: seq<string>)
    requires word !in positions
    ensures ResolvedFrames(positions, a + [word] + b) == ResolvedFrames(positions, a + b)
    ensures AllocatedFrames(positions, a + [word] + b) == AllocatedFrames(positions, a + b)
  {
    ResolvedFramesAppend(positions, a + [word], b);
    ResolvedFramesAppend(positions, a, [word]);
    assert [word][..0] == [];
    ResolvedFramesAppend(positions, a, b);
  }

  /**
   * The announcement is a non-empty whole number of frames; its byte length
   * never exceeds the buffer and falls short of it by at most one frame,
   * and by none exactly when the resolved lengths add up to an even number.
   */
  lemma VoiceFitsAllocation(positions: Positions, words: seq<string>)
    ensures Bytes(VoiceFrames(positions, words)) % NetworkFrameLength == 0
    ensures Bytes(VoiceFrames(positions, words)) >= NetworkFrameLength
    ensures Bytes(VoiceFrames(positions, words)) <= Bytes(AllocatedFrames(positions, words))
    ensures Bytes(AllocatedFrames(positions, words)) <= Bytes(VoiceFrames(positions, words)) + NetworkFrameLength
    ensures ResolvedFrames(positions, words) % 2 == 0 <==>
              Bytes(VoiceFrames(positions, words)) == Bytes(AllocatedFrames(positions, words))
  {
    var v := VoiceFrames(positions, words);
    var n := AllocatedFrames(positions, words);
    WholeFrames(v);
    MulFrameLength(1, v);
    MulFrameLength(v, n);
    MulFrameLength(n, v + 1);
    AddFrames(v, 1);
    if n != v {
      FrameCompare(v, n);
    }
  }

  /** With nothing resolved the announcement is silence only: 2 * SILENCE_LENGTH frames. */
  lemma EmptyAnnouncement(positions: Positions, words: seq<string>)
    requires forall i :: 0 <= i < |words| ==> words[i] !in positions
    ensures AllocatedFrames(positions, words) == 2 * SilenceLength
    ensures VoiceFrames(positions, words) == 2 * SilenceLength
  {
    if words != [] {
      EmptyAnnouncement(positions, words[..|words| - 1]);
    }
  }

  /**
   * Index "a 0 1" and "b 2 1": announcing a then b takes 4 + 2 + 4 = 10
   * frames, already even.
   */
  lemma TwoWordAnnouncement()
    ensures var lines := [FormatLine(Entry("a", Position(0, 1))), FormatLine(Entry("b", Position(2, 1)))];
            var positions := Load(map[], lines);
            Resolve(positions, "a") == Some(Position(0, 1)) &&
            Resolve(positions, "b") == Some(Position(2, 1)) &&
            AllocatedFrames(positions, ["a", "b"]) == 10 &&
            VoiceFrames(positions, ["a", "b"]) == 10
  {
    var entries := [Entry("a", Position(0, 1)), Entry("b", Position(2, 1))];
    var lines := [FormatLine(entries[0]), FormatLine(entries[1])];
    assert lines == seq(|entries|, k requires 0 <= k < |entries| => FormatLine(entries[k]));
    ResolveLoadedRecord(map[], entries, 0);
    ResolveLoadedRecord(map[], entries, 1);
    var positions := Load(map[], lines);
    assert ResolvedFrames(positions, ["a"]) == 1 by {
      assert ["a"][..0] == [];
      assert WordFrames(positions, "a") == 1;
    }
    assert ResolvedFrames(positions, ["a", "b"]) == 2 by {
      assert ["a", "b"][..1] == ["a"];
      assert WordFrames(positions, "b") == 1;
    }
  }

  /** Without a "linkedto" phrase, linkedTo("X") asks for "linked", "2", "X". */
  lemma LinkedToX(positions: Positions)
    requires LinkedToPhrase !in positions
    ensures LinkedToWords(positions, "X") == ["linked", "2", "X"]
  {
  }

  // ---------------------------------------------------------------------
  // createFrame's assertion

  /** `n` copies of 1: the silence frames createVoice adds one call at a time. */
  function Ones(n: nat): (s: seq<nat>)
    ensures |s| == n && forall i :: 0 <= i < n ==> s[i] == 1
  {
    if n == 0 then [] else Ones(n - 1) + [1]
  }

  /** The length of each resolved word, in order. */
  function ResolvedLengths(positions: Positions, words: seq<string>): (s: seq<nat>)
    ensures |s| <= |words|
  {
    if words == [] then []
    else
      ResolvedLengths(positions, words[..|words| - 1]) +
      (if words[|words| - 1] in positions then [positions[words[|words| - 1]].length] else [])
  }

  /**
   * The `length` argument of every createFrame call createVoice makes, in
   * order, as the code is written: no guard stands between the catalog's
   * length and the call.
   */
  function FrameCallsAsWritten(positions: Positions, words: seq<string>): (calls: seq<nat>)
    ensures |calls| == 2 * SilenceLength + |ResolvedLengths(positions, words)|
    ensures forall i :: 0 <= i < SilenceLength ==> calls[i] == 1
    ensures forall i :: |calls| - SilenceLength <= i < |calls| ==> calls[i] == 1
  {
    Ones(SilenceLength) + ResolvedLengths(positions, words) + Ones(SilenceLength)
  }

  function Sum(s: seq<nat>): nat {
    if s == [] then 0 else Sum(s[..|s| - 1]) + s[|s| - 1]
  }

  lemma {:induction false} SumAppend(a: seq<nat>, b: seq<nat>)
    ensures Sum(a + b) == Sum(a) + Sum(b)
  {
    if b == [] {
      assert a + b == a;
    } else {
      assert (a + b)[..|a + b| - 1] == a + b[..|b| - 1];
      SumAppend(a, b[..|b| - 1]);
    }
  }

  lemma {:induction false} SumOnes(n: nat)
    ensures Sum(Ones(n)) == n
  {
    if n > 0 {
      assert Ones(n)[..n - 1] == Ones(n - 1);
      SumOnes(n - 1);
    }
  }

  lemma {:induction false} SumResolvedLengths(positions: Positions, words: seq<string>)
    ensures Sum(ResolvedLengths(positions, words)) == ResolvedFrames(positions, words)
  {
    if words != [] {
      var init := words[..|words| - 1];
      var w := words[|words| - 1];
      SumResolvedLengths(positions, init);
      SumAppend(ResolvedLengths(positions, init), if w in positions then [positions[w].length] else []);
      assert Sum([]) == 0;
    }
  }

  /** The frames the createFrame calls add up to are exactly the voice frames. */
  lemma FrameCallsTotal(positions: Positions, words: seq<string>)
    ensures Sum(FrameCallsAsWritten(positions, words)) == VoiceFrames(positions, words)
  {
    SumAppend(Ones(SilenceLength) + ResolvedLengths(positions, words), Ones(SilenceLength));
    SumAppend(Ones(SilenceLength), ResolvedLengths(positions, words));
    SumOnes(SilenceLength);
    SumResolvedLengths(positions, words);
  }

  /** A length field that starts with neither a digit nor white space reads as 0. */
  lemma NonNumericLengthParses(symbol: string, start: string, length: string)
    requires WellFormedSymbol(symbol)
    requires start != [] && NoDelims(start)
    requires length != [] && NoDelims(length) && !IsDigit(length[0]) && !IsSpace(length[0])
    requires length[0] != '+' && length[0] != '-'
    ensures ParseLine(symbol + "\t" + start + "\t" + length + "\n")
            == Some(Entry(symbol, Position(Atoi(start), 0)))
  {
    ParseThreeFields(symbol, start, length, '\t', '\t', '\n');
  }

  /**
   * An index line whose length field is not a number (for instance "a",
   * "0", "x") gives its symbol a length of 0, and announcing that symbol
   * makes createVoice call createFrame with length 0, which its
   * assert(length > 0U) rejects.
   */
  lemma ZeroLengthFrameCall(positions: Positions, symbol: string, start: string, length: string)
    requires WellFormedSymbol(symbol)
    requires start != [] && NoDelims(start)
    requires length != [] && NoDelims(length) && !IsDigit(length[0]) && !IsSpace(length[0])
    requires length[0] != '+' && length[0] != '-'
    ensures var catalog := Load(positions, [symbol + "\t" + start + "\t" + length + "\n"]);
            Resolve(catalog, symbol) == Some(Position(Atoi(start), 0)) &&
            0 in FrameCallsAsWritten(catalog, [symbol])
  {
    var line := symbol + "\t" + start + "\t" + length + "\n";
    NonNumericLengthParses(symbol, start, length);
    var catalog := Load(positions, [line]);
    LoadOne(positions, line);
    assert ResolvedLengths(catalog, [symbol]) == [0] by {
      assert [symbol][..0] == [];
    }
    assert FrameCallsAsWritten(catalog, [symbol])[SilenceLength] == 0;
  }
}
