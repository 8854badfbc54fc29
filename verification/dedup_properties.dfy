/**
 What the extractor's loop computes, stated against the first-occurrence
 description: the retained frames are exactly the first frame of each hash,
 in second order, and so they are pairwise different by hash, cover every
 hash that was decoded, and start with the first frame that decoded.
 */
module DedupProperties {
  import opened Wrappers
  import opened Frames
  import opened Dedup
  import opened FirstOccurrence

  /** Strictly increasing seconds. */
  predicate Increasing(secs: seq<nat>) {
    forall k, l :: 0 <= k < l < |secs| ==> secs[k] < secs[l]
  }

  /** `frames` is what decoded at the seconds `secs` of `cs`, one for one. */
  predicate DecodedAt(cs: seq<Option<Bytes>>, secs: seq<nat>, frames: seq<Bytes>) {
    && |secs| == |frames|
    && forall k :: 0 <= k < |secs| ==> secs[k] < |cs| && cs[secs[k]] == Some(frames[k])
  }

  /** One more second adds its frame to the first-occurrence frames exactly when it is a first occurrence. */
  lemma FirstFramesSnoc<H>(hash: Bytes -> H, cs: seq<Option<Bytes>>)
    requires |cs| > 0
    ensures FirstFrames(hash, cs) ==
      FirstFrames(hash, cs[..|cs| - 1])
        + (if IsFirstOccurrence(hash, cs, |cs| - 1) then [cs[|cs| - 1].value] else [])
  {
    var init := cs[..|cs| - 1];
    var secs0 := FirstSeconds(hash, init);
    assert forall k :: 0 <= k < |secs0| ==> secs0[k] in secs0;
    assert forall k :: 0 <= k < |secs0| ==> cs[secs0[k]] == init[secs0[k]];
  }

  /** The last second is a first occurrence exactly when its hash was not decoded before. */
  lemma LastIsFirstOccurrence<H>(hash: Bytes -> H, cs: seq<Option<Bytes>>)
    requires |cs| > 0 && cs[|cs| - 1].Some?
    ensures IsFirstOccurrence(hash, cs, |cs| - 1)
      <==> hash(cs[|cs| - 1].value) !in DecodedHashes(hash, cs[..|cs| - 1])
  {
  }

  /** One more second keeps the seen set equal to the hashes of everything decoded. */
  lemma StepKeepsSeen<H>(hash: Bytes -> H, s: State<H>, cs: seq<Option<Bytes>>)
    requires |cs| > 0
    requires s.seen == DecodedHashes(hash, cs[..|cs| - 1])
    requires s.prev.Some? ==> s.prev.value in s.seen
    ensures Step(hash, s, cs[|cs| - 1]).seen == DecodedHashes(hash, cs)
  {
  }

  /** One more second keeps the kept frames equal to the first-occurrence frames. */
  lemma StepKeepsFrames<H>(hash: Bytes -> H, s: State<H>, cs: seq<Option<Bytes>>)
    requires |cs| > 0
    requires s.frames == FirstFrames(hash, cs[..|cs| - 1])
    requires s.seen == DecodedHashes(hash, cs[..|cs| - 1])
    requires s.prev.Some? ==> s.prev.value in s.seen
    ensures Step(hash, s, cs[|cs| - 1]).frames == FirstFrames(hash, cs)
  {
    FirstFramesSnoc(hash, cs);
    match cs[|cs| - 1]
    case None =>
      assert !IsFirstOccurrence(hash, cs, |cs| - 1);
    case Some(img) =>
      LastIsFirstOccurrence(hash, cs);
  }

  /**
   The main correspondence: after any number of seconds the loop has kept
   exactly the first-occurrence frames, in second order, and its seen set is
   the set of hashes of every frame decoded so far.
   */
  lemma {:induction false} RunKeepsFirstOccurrences<H>(hash: Bytes -> H, cs: seq<Option<Bytes>>)
    ensures Run(hash, Init(), cs).frames == FirstFrames(hash, cs)
    ensures Run(hash, Init(), cs).seen == DecodedHashes(hash, cs)
    decreases |cs|
  {
    if |cs| > 0 {
      var init := cs[..|cs| - 1];
      RunKeepsFirstOccurrences(hash, init);
      SeenMatchesFrames(hash, init);
      var s := Run(hash, Init(), init);
      StepKeepsSeen(hash, s, cs);
      StepKeepsFrames(hash, s, cs);
    }
  }

  /** The extractor returns exactly the first-occurrence frames, in second order. */
  lemma ExtractIsFirstFrames<H>(hash: Bytes -> H, cs: seq<Option<Bytes>>)
    ensures Extract(hash, cs) == FirstFrames(hash, cs)
  {
    RunKeepsFirstOccurrences(hash, cs);
  }

  /** No two retained frames have the same hash. */
  lemma RetainedHashesDistinct<H>(hash: Bytes -> H, cs: seq<Option<Bytes>>)
    ensures HashesDistinct(hash, Extract(hash, cs))
  {
    SeenMatchesFrames(hash, cs);
  }

  /**
   The retained frames are a subsequence of the decoded candidates taken in
   increasing second order, and each is the first frame of its hash.
   */
  lemma RetainedInSecondOrder<H>(hash: Bytes -> H, cs: seq<Option<Bytes>>)
    ensures exists secs ::
      && Increasing(secs)
      && DecodedAt(cs, secs, Extract(hash, cs))
      && forall k :: 0 <= k < |secs| ==> IsFirstOccurrence(hash, cs, secs[k])
  {
    ExtractIsFirstFrames(hash, cs);
    var secs := FirstSeconds(hash, cs);
    assert forall k :: 0 <= k < |secs| ==> secs[k] in secs;
    assert DecodedAt(cs, secs, Extract(hash, cs));
  }

  /** Every second that decodes the first frame of its hash contributes a retained frame. */
  lemma FirstOccurrenceRetained<H>(hash: Bytes -> H, cs: seq<Option<Bytes>>, sec: nat)
    requires IsFirstOccurrence(hash, cs, sec)
    ensures cs[sec].value in Extract(hash, cs)
  {
    ExtractIsFirstFrames(hash, cs);
    var secs := FirstSeconds(hash, cs);
    var k :| 0 <= k < |secs| && secs[k] == sec;
    assert forall j :: 0 <= j < |secs| ==> secs[j] in secs;
    assert Extract(hash, cs)[k] == cs[sec].value;
  }

  /** The hashes of the retained frames are exactly the hashes of all decoded frames. */
  lemma RetainedHashesComplete<H>(hash: Bytes -> H, cs: seq<Option<Bytes>>)
    ensures HashSet(hash, Extract(hash, cs)) == DecodedHashes(hash, cs)
  {
    RunKeepsFirstOccurrences(hash, cs);
    SeenMatchesFrames(hash, cs);
  }

  /**
   The first second that decodes at all is always retained, and it is the
   first retained frame.
   */
  lemma FirstDecodedRetained<H>(hash: Bytes -> H, cs: seq<Option<Bytes>>, sec: nat)
    requires sec < |cs| && cs[sec].Some?
    requires forall i :: 0 <= i < sec ==> cs[i].None?
    ensures |Extract(hash, cs)| > 0
    ensures Extract(hash, cs)[0] == cs[sec].value
  {
    ExtractIsFirstFrames(hash, cs);
    var secs := FirstSeconds(hash, cs);
    assert IsFirstOccurrence(hash, cs, sec);
    assert sec in secs;
    assert secs[0] in secs;
  }

  /**
   The extractor returns at most one frame per sampled second, and nothing
   at all when no second is sampled or no read succeeds.
   */
  lemma OutputBounded<H>(hash: Bytes -> H, n: int, decode: int -> Option<Bytes>)
    ensures |Extract(hash, Candidates(n, decode))| <= (if n <= 0 then 0 else n)
    ensures (forall sec :: 0 <= sec < n ==> decode(sec).None?) ==> Extract(hash, Candidates(n, decode)) == []
  {
    var cs := Candidates(n, decode);
    ExtractIsFirstFrames(hash, cs);
    var secs := FirstSeconds(hash, cs);
    if |secs| > 0 {
      assert secs[0] in secs;
    }
  }

  lemma {:induction false} ConstantRun<H>(hash: Bytes -> H, cs: seq<Option<Bytes>>, img: Bytes)
    requires |cs| > 0
    requires forall sec :: 0 <= sec < |cs| ==> cs[sec] == Some(img)
    ensures Run(hash, Init(), cs) == State({hash(img)}, [img], Some(hash(img)))
    decreases |cs|
  {
    if |cs| > 1 {
      ConstantRun(hash, cs[..|cs| - 1], img);
    }
  }

  /** A video whose every second decodes to the same image yields one frame. */
  lemma ConstantVideoKeepsOne<H>(hash: Bytes -> H, cs: seq<Option<Bytes>>, img: Bytes)
    requires |cs| > 0
    requires forall sec :: 0 <= sec < |cs| ==> cs[sec] == Some(img)
    ensures Extract(hash, cs) == [img]
  {
    ConstantRun(hash, cs, img);
  }

  lemma {:induction false} AlternatingRun<H>(hash: Bytes -> H, cs: seq<Option<Bytes>>, a: Bytes, b: Bytes)
    requires hash(a) != hash(b)
    requires |cs| >= 2
    requires forall sec :: 0 <= sec < |cs| ==> cs[sec] == Some(if sec % 2 == 0 then a else b)
    ensures Run(hash, Init(), cs) ==
      State({hash(a), hash(b)}, [a, b], Some(hash(cs[|cs| - 1].value)))
    decreases |cs|
  {
    if |cs| > 2 {
      AlternatingRun(hash, cs[..|cs| - 1], a, b);
    } else {
      assert cs[..|cs| - 1] == [Some(a)];
      assert Run(hash, Init(), [Some(a)]) == State({hash(a)}, [a], Some(hash(a)));
    }
  }

  /**
   A video alternating every second between two images of different hashes
   yields just those two frames, however long it runs: an image that comes
   back is dropped, because the seen set is global, not only the last frame.
   */
  lemma AlternatingVideoKeepsTwo<H>(hash: Bytes -> H, cs: seq<Option<Bytes>>, a: Bytes, b: Bytes)
    requires hash(a) != hash(b)
    requires |cs| >= 2
    requires forall sec :: 0 <= sec < |cs| ==> cs[sec] == Some(if sec % 2 == 0 then a else b)
    ensures Extract(hash, cs) == [a, b]
  {
    AlternatingRun(hash, cs, a, b);
  }
}
