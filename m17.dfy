/**
 * The protocol constants the voice module consumes from M17Defines.h.
 * That header is not part of this model: its values are left open and only
 * what the module relies on (both are positive) is known here.
 */
module M17 {
  /** An unsigned octet, the unit of the audio blob and of the frame buffer. */
  newtype byte = x: int | 0 <= x < 256

  /** n zero bytes: shows that a buffer of n bytes exists. */
  function Zeros(n: nat): (s: seq<byte>)
    ensures |s| == n && forall i :: 0 <= i < n ==> s[i] == 0
  {
    if n == 0 then [] else Zeros(n - 1) + [0]
  }

  type Positive = n: nat | n > 0 witness 1

  /** M17_NETWORK_FRAME_LENGTH: bytes in one network frame. */
  const NetworkFrameLength: Positive

  /** M17_FRAME_TIME: milliseconds of audio carried by one frame. */
  const FrameTime: Positive

  /** Product of a frame count and the frame length is monotone in the count. */
  lemma {:induction false} MulFrameLength(a: nat, b: nat)
    requires a <= b
    ensures a * NetworkFrameLength <= b * NetworkFrameLength
    ensures (b - a) * NetworkFrameLength == b * NetworkFrameLength - a * NetworkFrameLength
  {
    var d := b - a;
    assert b * NetworkFrameLength == a * NetworkFrameLength + d * NetworkFrameLength;
  }

  /** The bytes in `frames` network frames. */
  function Bytes(frames: nat): nat {
    frames * NetworkFrameLength
  }

  /** For a whole number of frames, comparing byte offsets is comparing frame counts. */
  lemma FrameCompare(a: nat, b: nat)
    ensures a * NetworkFrameLength < b * NetworkFrameLength <==> a < b
  {
    if a < b {
      MulFrameLength(a + 1, b);
      assert (a + 1) * NetworkFrameLength == a * NetworkFrameLength + NetworkFrameLength;
    } else {
      MulFrameLength(b, a);
    }
  }

  /** Byte counts of frame counts add up. */
  lemma AddFrames(a: nat, b: nat)
    ensures Bytes(a + b) == Bytes(a) + Bytes(b)
    ensures (a + b) * NetworkFrameLength == a * NetworkFrameLength + b * NetworkFrameLength
  {
  }

  /** A byte count of k whole frames is a multiple of the frame length, and k frames long. */
  lemma {:induction false} WholeFrames(k: nat)
    ensures Bytes(k) % NetworkFrameLength == 0
    ensures Bytes(k) / NetworkFrameLength == k
  {
    var n := k * NetworkFrameLength;
    var q := n / NetworkFrameLength;
    var r := n % NetworkFrameLength;
    assert n == q * NetworkFrameLength + r;
    if q < k {
      MulFrameLength(q + 1, k);
    } else if q > k {
      MulFrameLength(k, q);
    }
  }

  lemma {:induction false} MulFrameTime(a: nat, b: nat)
    requires a <= b
    ensures a * FrameTime <= b * FrameTime
  {
    var d := b - a;
    assert b * FrameTime == a * FrameTime + d * FrameTime;
  }

  /** Whole milliseconds to whole frame times: a longer time never has fewer frames due. */
  lemma DivFrameTimeMonotone(a: nat, b: nat)
    requires a <= b
    ensures a / FrameTime <= b / FrameTime
  {
    var qa, qb := a / FrameTime, b / FrameTime;
    assert a == qa * FrameTime + a % FrameTime;
    assert b == qb * FrameTime + b % FrameTime;
    if qa > qb {
      MulFrameTime(qb + 1, qa);
    }
  }
}
