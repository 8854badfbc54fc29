/**
 The inputs of the frame extractor: encoded frames as byte strings and the
 candidates the video decoder yields, one per whole second of playback.
 */
module Frames {
  import opened Wrappers

  /** One byte of an encoded image. */
  newtype byte = x: int | 0 <= x < 256

  /** The JPEG bytes the encoder produces for one decoded frame. */
  type Bytes = seq<byte>

  /**
   The candidates of one run. `decode(sec)` is what seeking to second `sec`
   and reading one frame gives: `Some` of the frame's encoded bytes, or `None`
   when the read fails. `n` is the whole number of seconds of the video; the
   loop over `range(0, n)` visits nothing when `n` is zero or negative.
   */
  function Candidates(n: int, decode: int -> Option<Bytes>): (cs: seq<Option<Bytes>>)
    ensures n <= 0 ==> cs == []
    ensures n > 0 ==> |cs| == n
    ensures forall sec :: 0 <= sec < |cs| ==> cs[sec] == decode(sec)
  {
    seq(if n <= 0 then 0 else n, sec => decode(sec))
  }
}
