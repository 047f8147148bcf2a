# CVoice: voice announcements for the M17 gateway

`CVoice` speaks short announcements ("linked to M17-XYZ", "not linked") into
the M17 network stream. It has three parts:

- `open` reads an index file that maps each symbol (a letter, a digit or a
  phrase such as `linkedto`) to a byte offset and a frame count in an audio
  blob.
- `linkedTo` and `unlinked` turn an announcement into a list of symbols.
  `createVoice` sizes a buffer for that list and counts the announcement's
  length frame by frame with `createFrame`.
- `eof`, `clock` and `read` run a small state machine with the states
  `VS_NONE`, `VS_WAITING` and `VS_SENDING`. `eof` arms a timer. `clock`
  starts sending when the timer has expired. `read` releases at most one
  network frame per call, paced by a stopwatch. After the last frame, `read`
  stops the timer, frees the buffer and goes back to `VS_NONE`.

The model has seven modules:

- `M17` (`m17.dfy`): the two protocol constants the class uses,
  `M17_NETWORK_FRAME_LENGTH` and `M17_FRAME_TIME`, and byte/frame
  arithmetic. The header that defines them is not part of this model, so
  the constants are left open and are only known to be positive.
- `Tokens` (`tokens.dfy`): `strtok` on tab/CR/LF, and `atoi`, both as pure
  functions. Each has an independent reference definition and a lemma tying
  the two together.
- `Catalog` (`catalog.dfy`): parsing an index line, and the catalog as a fold
  of the index lines.
- `Announcement` (`announcement.dfy`): the word lists and the frame
  accounting of `createVoice`.
- `Playback` (`playback.dfy`): `read`, `eof` and `clock` as step functions on
  the playback fields, plus lemmas about runs of `read` calls.
- `Wrappers` (`wrappers.dfy`): the `Option` type used for lookups, parse
  results and files that cannot be opened.
- `Voice` (`voice.dfy`): the class `CVoice`. Its fields are the C++ members,
  and each method is proved to perform the matching pure step.

The buffer is a `seq<byte>` field. Allocation picks an arbitrary sequence of
the allocated length, because the C++ code never writes into the buffer. The
timer is two booleans, running and expired. The stopwatch reading is an
argument of `Read`. Each file that `open` reads is an argument: the index as
its lines, the blob as its bytes, and `None` when the file cannot be opened.

On these points the model follows the code:

- An index line needs at least three tokens, not exactly three. Only tab,
  CR and LF separate tokens; a space does not.
- `linkedTo` spells the reflector with its characters unchanged. It does
  not lower-case them.
- Nothing checks an entry's `(start, length)` against the size of the blob.
- `createVoice` copies neither silence nor audio into the buffer. `read`
  sends whatever bytes the buffer holds.

## Model

| member | source | states |
|---|---|---|
| Tokens.NextToken | Voice.cpp:103-105 | strtok finds no token exactly when only tab/CR/LF remain; otherwise the token is non-empty, holds no delimiter, and the token plus the rest is no longer than the input |
| Tokens.NextTokenWords | Voice.cpp:103-105 | one strtok call returns the first word of the reference split, and the text it resumes from holds exactly the remaining words |
| Tokens.FirstThreeWords | Voice.cpp:103-107 | the three strtok calls all succeed exactly when the line has at least three words, and they return the first three |
| Tokens.Atoi | Voice.cpp:109-110 | atoi of an empty field, or of a field starting with neither white space nor a digit, is 0 |
| Tokens.AtoiDecimal | Voice.cpp:109-110 | atoi reads a decimal rendering back exactly, whatever non-digit text follows it |
| Catalog.ParseLineWords | Voice.cpp:103-114 | a line yields an entry exactly when it has at least three words; symbol, start and length come from the first three, and further words are ignored |
| Tokens.FirstThree | Voice.cpp:103-107 | each of the three tokens it returns is non-empty and free of tab, CR and LF (FirstThreeWords pins them to the first three words) |
| Catalog.ParseLine | Voice.cpp:103-114 | an accepted line's symbol is non-empty and free of tab, CR and LF (ParseLineWords gives when a line is accepted and what it yields) |
| Catalog.Insert | Voice.cpp:107-116 | handling one line sets the symbol that line defines to its position and leaves every other symbol's presence and position alone; no entry is removed |
| Catalog.Load | Voice.cpp:102-118 | folding the lines in file order never removes an entry (LoadLatest, LoadUntouched and LoadOnlyDefined give the rest) |
| Catalog.LoadOnlyDefined | Voice.cpp:102-118 | a symbol in the loaded catalog was there before or is defined by some index line |
| Catalog.LoadLatest | Voice.cpp:102-117 | a symbol resolves to the position on the last line that defines it (last write wins) |
| Catalog.LoadUntouched | Voice.cpp:102-117 | a symbol that no line defines keeps its earlier presence and position |
| Catalog.ParseFormatLine | Voice.cpp:103-116 | round trip: a record written as `symbol TAB start TAB length LF` parses back into the same entry |
| Catalog.ResolveLoadedRecord | Voice.cpp:102-117 | a catalog loaded from well-formed records resolves each record whose symbol no later record repeats to that record's position |
| Announcement.Spell | Voice.cpp:139-140 | one single-character word per reflector character, in order |
| Announcement.LinkedToWords | Voice.cpp:131-140 | the word list is `linkedto` when the catalog has it, else `linked`, `2`; then exactly the spelled reflector |
| Announcement.LinkedToX | Voice.cpp:131-140 | without `linkedto` in the catalog, linkedTo("X") asks for exactly `linked`, `2`, `X` |
| Announcement.ResolvedFrames | Voice.cpp:155-163 | the frame sum includes the length of every resolved word (ResolvedFramesAppend and UnresolvedWordIgnored give how it adds up) |
| Announcement.VoiceFrames | Voice.cpp:175-191 | the counted frames include the 2 x 4 silence frames and every resolved word's length |
| Announcement.FrameCallsAsWritten | Voice.cpp:175-191 | the createFrame lengths as written: four calls of length 1 at each end, and between them the resolved words' calls, at most one per word |
| Announcement.RoundUpEven | Voice.cpp:165-167 | the frame sum is rounded up to the smallest even number not below it |
| Announcement.AllocatedFrames | Voice.cpp:155-173 | the allocated frame count is even, holds at least the 2 x 4 silence frames, and is at most one frame more than the counted length |
| Announcement.UnresolvedWordIgnored | Voice.cpp:156-163 | a word missing from the catalog changes neither the resolved frame sum nor the allocation |
| Announcement.EmptyAnnouncement | Voice.cpp:155-191 | with no word resolved, both the allocation and the counted length are the 8 silence frames |
| Announcement.VoiceFitsAllocation | Voice.cpp:165-191 | the counted length is a positive whole number of frames, never exceeds the allocated bytes, and falls short of them by at most one frame; it falls short by none exactly when the resolved sum is even |
| Announcement.TwoWordAnnouncement | Voice.cpp:155-191 | with index records `a 0 1` and `b 2 1`, announcing `a`, `b` allocates and counts 4 + 2 + 4 = 10 frames |
| Announcement.FrameCallsTotal | Voice.cpp:176-191 | the lengths passed to createFrame, in call order, add up to the counted frames |
| Announcement.NonNumericLengthParses | Voice.cpp:103-110 | a line whose length field starts with neither a digit, white space, `+` nor `-` is accepted with length 0 |
| Announcement.ZeroLengthFrameCall | Voice.cpp:180-185 | such a line (for instance a length field `x`) makes createVoice, as written, call createFrame with length 0 |
| Playback.ReadStep | Voice.cpp:198-221 | read releases a frame exactly when sending with fewer frames sent than are due, and otherwise changes nothing; a released frame is number `sent`, the count goes up by exactly one and never passes the frames due; the machine then either keeps sending with nothing else changed, or is in VS_NONE with the length cleared and the timer stopped |
| Playback.EofStep | Voice.cpp:224-232 | eof never touches the count or the length; with no announcement it changes nothing, otherwise it waits with the timer restarted |
| Playback.ClockStep | Voice.cpp:234-244 | clock keeps the length and whether the timer runs; the timer has expired exactly when it runs and had expired or expires now; the status changes exactly when a waiting machine's timer has expired, and then to VS_SENDING from frame 0; otherwise the count is kept |
| Playback.ReadAll | Voice.cpp:194-222 | a run of reads never lowers the count and releases exactly as many frames as the count went up (FramesInOrder says which) |
| Playback.ReadEndsAtLastFrame | Voice.cpp:204-216 | a released frame returns the machine to VS_NONE exactly when it is the announcement's last frame |
| Playback.StepsKeepConsistent | Voice.cpp:194-244 | read, eof and clock keep the length a whole number of frames, keep a waiting machine non-empty, and keep the next frame inside the announcement while sending |
| Playback.StatusTransitions | Voice.cpp:194-244 | the only status changes are SENDING to NONE by read, WAITING to SENDING with the count reset by clock (exactly when the timer runs and has expired), and any status to WAITING by eof when there is an announcement |
| Playback.IdleReadsNothing | Voice.cpp:198-199 | when not sending, any number of reads releases nothing and changes nothing |
| Playback.FramesInOrder | Voice.cpp:203-208 | a run of reads releases consecutive frame numbers, each once, none skipped |
| Playback.ReadsArePaced | Voice.cpp:201-203 | after a run of reads, the count is no more than the frames due at the latest stopwatch reading (or the starting count) |
| Playback.ReadsStopAtEnd | Voice.cpp:207-216 | reads never release more frames than the announcement holds; they reach VS_NONE exactly when all frames are out, and until then they keep sending the same announcement |
| Playback.ReadsFinish | Voice.cpp:201-216 | once the stopwatch covers the whole announcement, one read per remaining frame releases them all, stops the timer and clears the length |
| Playback.ArmThenStart | Voice.cpp:224-244 | eof arms; a tick without expiry keeps waiting; a tick on which the timer expires starts sending from frame 0 |
| Playback.AnnouncementCycle | Voice.cpp:194-244 | for an announcement of k frames, eof, an expiring tick and k paced reads release frames 0 to k - 1 in order and end in VS_NONE with length 0 |
| Voice.CVoice.constructor | Voice.cpp:37-50 | starts with an empty catalog, no blob, no buffer, VS_NONE, count and length 0, and the timer stopped |
| Voice.CVoice.Open | Voice.cpp:74-127 | fails exactly when a file cannot be opened, leaving the catalog and blob alone; otherwise keeps the blob and, only when the blob is non-empty, folds the index lines into the catalog |
| Voice.CVoice.LinkedTo | Voice.cpp:129-143 | builds the linkedTo word list with its loop and leaves the buffer and length createVoice gives that list |
| Voice.CVoice.Unlinked | Voice.cpp:145-151 | leaves the buffer and length createVoice gives `notlinked` |
| Voice.CVoice.CreateVoice | Voice.cpp:153-192 | the buffer has the allocated size and the length is the counted frames in bytes; the class invariant holds, and a machine that is not sending stays consistent; createFrame is only called with a positive length |
| Voice.CVoice.CreateFrame | Voice.cpp:246-255 | adds exactly `length` frames of bytes to the length |
| Voice.CVoice.Read | Voice.cpp:194-222 | performs ReadStep on the fields; when a frame is released from a consistent state, returns L and exactly bytes `sent * L` to `sent * L + L` of the buffer; frees the buffer on the last frame; keeps the invariants |
| Voice.CVoice.Eof | Voice.cpp:224-232 | performs EofStep on the fields and keeps the invariants |
| Voice.CVoice.Clock | Voice.cpp:234-244 | performs ClockStep on the fields and keeps the invariants |

`VoiceStatus`, `Position`, `Positions` and the fields of `CVoice` model the
`VOICE_STATUS` enum, the `CPositions` record and the members of the class
(Voice.h:29-38, 61-68). The counts are `nat`, so they are never negative.
Dafny has no private members. `CreateVoice` and `CreateFrame` are
class methods like the others, but only `LinkedTo` and `Unlinked` call
`CreateVoice`, and only `CreateVoice` calls `CreateFrame`, as in
Voice.h:70-71.

## Left out

- File I/O in `open` (fopen, stat, fread, fgets, fclose): the index arrives as its lines and the blob as its bytes, and a file that cannot be opened or statted is `None`. A short fread is not modelled.
- fgets reads the index in 80-byte pieces, so a longer line is split into several pieces that are each parsed. The model parses whole lines.
- The constructor's path building from directory and language, and the unused callsign.
- The destructor, `new`/`delete`, and the leak when createVoice allocates while a buffer already exists.
- Logging, and the unused BIT_MASK_TABLE, WRITE_BIT1 and READ_BIT1 macros.
- The internals of CTimer and CStopWatch: the timer is running/expired flags and the stopwatch is the `elapsed` argument of `Read`. The 1-second timeout is not modelled.
- Voice.CVoice.Clock: the `ms` argument is replaced by `expires`, whether this advance reaches the timeout.
- The values of M17_NETWORK_FRAME_LENGTH, M17_FRAME_TIME and M17_3200_SILENCE: M17Defines.h is not part of this model.
- Voice.CVoice.CreateVoice: states nothing about the buffer's bytes, because createFrame copies none. The catalog's start offsets are never used.
- Voice.CVoice.Read: when createVoice has replaced the buffer during sending, the frame can lie past the buffer. There the returned bytes are left unspecified, and only the length L is stated.
- A Dafny `char` stands for one C byte. linkedTo splits a multi-byte UTF-8 reflector character into several one-byte words, while `Spell` makes one word per character. A NUL byte inside an index line ends strtok's string in C but not in `NextToken`.
- Tokens.Atoi: does not model signs, overflow or the 32-bit unsigned conversion of atoi's result; it reads optional white space and then a run of decimal digits.
- Voice.CVoice.CreateVoice: does not model 32-bit wrap-around of m17Length, m_voiceLength or the allocation size; the counts are unbounded naturals.
- Voice.CVoice.Read: does not model 32-bit wrap-around of `sent * L`.

## Findings

| source | as written | input that shows it | evidently intended | confidence | as-written member | corrected member |
|---|---|---|---|---|---|---|
| Voice.cpp:180-185 | createVoice passes a resolved word's catalog length to createFrame unchecked, and createFrame asserts `length > 0` (Voice.cpp:249) | the index line `a TAB 0 TAB x`: atoi reads the length `x` as 0; then announce the word `a` | a word of length 0 adds no frames and calls nothing, as the release build's empty loop already behaves | not executed; medium | Announcement.ZeroLengthFrameCall | Voice.CVoice.CreateVoice |

`CreateVoice` skips the `createFrame` call for a length of 0. The verifier
proves `CreateFrame`'s `requires length > 0` at every call, and the counted
length stays `VoiceFrames(...) * L` (`Announces`).
