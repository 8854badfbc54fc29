/**
 An independent description of which frames the extractor should keep: the
 frame decoded at a second is kept exactly when no earlier second decoded a
 frame with the same hash.
 */
module FirstOccurrence {
  import opened Wrappers
  import opened Frames

  /** Second `sec` decoded a frame whose hash no earlier decoded frame has. */
  predicate IsFirstOccurrence<H(==)>(hash: Bytes -> H, cs: seq<Option<Bytes>>, sec: int) {
    && 0 <= sec < |cs|
    && cs[sec].Some?
    && forall i :: 0 <= i < sec && cs[i].Some? ==> hash(cs[i].value) != hash(cs[sec].value)
  }

  /** The seconds holding the first occurrence of each hash, in increasing order. */
  function FirstSeconds<H(==)>(hash: Bytes -> H, cs: seq<Option<Bytes>>): (secs: seq<nat>)
    ensures |secs| <= |cs|
    ensures forall k, l :: 0 <= k < l < |secs| ==> secs[k] < secs[l]
    ensures forall sec: int :: sec in secs <==> IsFirstOccurrence(hash, cs, sec)
    decreases |cs|
  {
    if |cs| == 0 then []
    else
      var init := cs[..|cs| - 1];
      var rest := FirstSeconds(hash, init);
      assert forall sec: int :: sec < |cs| - 1 ==>
        (IsFirstOccurrence(hash, init, sec) <==> IsFirstOccurrence(hash, cs, sec));
      assert forall k :: 0 <= k < |rest| ==> rest[k] in rest;
      rest + (if IsFirstOccurrence(hash, cs, |cs| - 1) then [|cs| - 1] else [])
  }

  /** The frames decoded at the given seconds, in the order given. */
  function FramesAt(cs: seq<Option<Bytes>>, secs: seq<nat>): (frames: seq<Bytes>)
    requires forall k :: 0 <= k < |secs| ==> secs[k] < |cs| && cs[secs[k]].Some?
    ensures |frames| == |secs|
    ensures forall k :: 0 <= k < |secs| ==> cs[secs[k]] == Some(frames[k])
  {
    seq(|secs|, k requires 0 <= k < |secs| => cs[secs[k]].value)
  }

  /** The frames decoded at the first occurrence of each hash, in second order. */
  function FirstFrames<H(==)>(hash: Bytes -> H, cs: seq<Option<Bytes>>): seq<Bytes> {
    var secs := FirstSeconds(hash, cs);
    assert forall k :: 0 <= k < |secs| ==> secs[k] in secs;
    FramesAt(cs, secs)
  }

  /** The hashes of every frame that decoded. */
  function DecodedHashes<H>(hash: Bytes -> H, cs: seq<Option<Bytes>>): set<H> {
    set sec | 0 <= sec < |cs| && cs[sec].Some? :: hash(cs[sec].value)
  }
}
