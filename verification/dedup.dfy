/**
 The deduplication loop of the frame extractor as a left fold over the
 per-second candidates. The state is the one the loop carries: the set of
 hashes seen so far, the retained frames in order, and the hash of the last
 decoded candidate that was not skipped by the "same as previous" check.
 */
module Dedup {
  import opened Wrappers
  import opened Frames

  datatype State<H> = State(seen: set<H>, frames: seq<Bytes>, prev: Option<H>)

  /** The state before the first second: nothing seen, nothing kept, no previous hash. */
  function Init<H>(): State<H> {
    State({}, [], None)
  }

  /**
   One iteration of the loop. A failed read is skipped; a frame whose hash
   equals the previous hash is skipped; otherwise a hash never seen before is
   recorded and its frame appended, and in either case the previous hash
   becomes this frame's hash.
   */
  function Step<H(==)>(hash: Bytes -> H, s: State<H>, c: Option<Bytes>): State<H> {
    match c
    case None => s
    case Some(img) =>
      var h := hash(img);
      if s.prev == Some(h) then s
      else if h !in s.seen then State(s.seen + {h}, s.frames + [img], Some(h))
      else s.(prev := Some(h))
  }

  /** The loop run from state `s` over the candidates `cs`, in order. */
  function Run<H(==)>(hash: Bytes -> H, s: State<H>, cs: seq<Option<Bytes>>): State<H>
    decreases |cs|
  {
    if |cs| == 0 then s
    else Step(hash, Run(hash, s, cs[..|cs| - 1]), cs[|cs| - 1])
  }

  /** What the extractor returns: the frames the loop retained. */
  function Extract<H(==)>(hash: Bytes -> H, cs: seq<Option<Bytes>>): seq<Bytes> {
    Run(hash, Init(), cs).frames
  }

  /** The loop with the "same as previous hash" test removed. */
  function StepWithoutPrevCheck<H(==)>(hash: Bytes -> H, s: State<H>, c: Option<Bytes>): State<H> {
    match c
    case None => s
    case Some(img) =>
      var h := hash(img);
      var s' := if h !in s.seen then s.(seen := s.seen + {h}, frames := s.frames + [img]) else s;
      s'.(prev := Some(h))
  }

  function RunWithoutPrevCheck<H(==)>(hash: Bytes -> H, s: State<H>, cs: seq<Option<Bytes>>): State<H>
    decreases |cs|
  {
    if |cs| == 0 then s
    else StepWithoutPrevCheck(hash, RunWithoutPrevCheck(hash, s, cs[..|cs| - 1]), cs[|cs| - 1])
  }

  /** The set of hashes of a sequence of frames. */
  function HashSet<H>(hash: Bytes -> H, frames: seq<Bytes>): set<H> {
    set k | 0 <= k < |frames| :: hash(frames[k])
  }

  /** No two frames of the sequence have the same hash. */
  predicate HashesDistinct<H(==)>(hash: Bytes -> H, frames: seq<Bytes>) {
    forall k, l :: 0 <= k < l < |frames| ==> hash(frames[k]) != hash(frames[l])
  }

  /**
   What the loop keeps true: the seen set is exactly the hashes of the kept
   frames, the kept frames have pairwise different hashes, and a previous
   hash, once set, has been seen.
   */
  predicate Inv<H(==)>(hash: Bytes -> H, s: State<H>) {
    && s.seen == HashSet(hash, s.frames)
    && HashesDistinct(hash, s.frames)
    && (s.prev.Some? ==> s.prev.value in s.seen)
  }

  lemma HashSetAppend<H>(hash: Bytes -> H, frames: seq<Bytes>, img: Bytes)
    ensures HashSet(hash, frames + [img]) == HashSet(hash, frames) + {hash(img)}
  {
    var fs := frames + [img];
    forall h | h in HashSet(hash, fs)
      ensures h in HashSet(hash, frames) + {hash(img)}
    {
      var k :| 0 <= k < |fs| && hash(fs[k]) == h;
      if k < |frames| {
        assert fs[k] == frames[k];
      }
    }
    forall h | h in HashSet(hash, frames)
      ensures h in HashSet(hash, fs)
    {
      var k :| 0 <= k < |frames| && hash(frames[k]) == h;
      assert fs[k] == frames[k];
    }
    assert hash(fs[|frames|]) == hash(img);
  }

  /** Each iteration keeps the loop invariant. */
  lemma StepPreservesInv<H>(hash: Bytes -> H, s: State<H>, c: Option<Bytes>)
    requires Inv(hash, s)
    ensures Inv(hash, Step(hash, s, c))
  {
    match c
    case None =>
    case Some(img) =>
      var h := hash(img);
      if s.prev != Some(h) && h !in s.seen {
        HashSetAppend(hash, s.frames, img);
        var fs := s.frames + [img];
        forall k, l | 0 <= k < l < |fs|
          ensures hash(fs[k]) != hash(fs[l])
        {
          if l == |s.frames| {
            assert hash(fs[k]) in HashSet(hash, s.frames);
          }
        }
      }
  }

  /** Any number of iterations keeps the loop invariant. */
  lemma {:induction false} RunPreservesInv<H>(hash: Bytes -> H, s: State<H>, cs: seq<Option<Bytes>>)
    requires Inv(hash, s)
    ensures Inv(hash, Run(hash, s, cs))
    decreases |cs|
  {
    if |cs| > 0 {
      RunPreservesInv(hash, s, cs[..|cs| - 1]);
      StepPreservesInv(hash, Run(hash, s, cs[..|cs| - 1]), cs[|cs| - 1]);
    }
  }

  /** Frames with pairwise different hashes have as many hashes as frames. */
  lemma {:induction false} DistinctHashCount<H>(hash: Bytes -> H, frames: seq<Bytes>)
    requires HashesDistinct(hash, frames)
    ensures |HashSet(hash, frames)| == |frames|
    decreases |frames|
  {
    if |frames| > 0 {
      var init := frames[..|frames| - 1];
      var last := frames[|frames| - 1];
      assert frames == init + [last];
      assert HashesDistinct(hash, init) by {
        forall k, l | 0 <= k < l < |init|
          ensures hash(init[k]) != hash(init[l])
        {
          assert init[k] == frames[k] && init[l] == frames[l];
        }
      }
      DistinctHashCount(hash, init);
      HashSetAppend(hash, init, last);
    }
  }

  /**
   The loop invariant of the extractor: after any prefix of the run the set
   of seen hashes is exactly the hashes of the kept frames, it has as many
   elements as there are kept frames, and the previous hash is one of them.
   */
  lemma SeenMatchesFrames<H>(hash: Bytes -> H, cs: seq<Option<Bytes>>)
    ensures var s := Run(hash, Init(), cs);
      && s.seen == HashSet(hash, s.frames)
      && |s.seen| == |s.frames|
      && HashesDistinct(hash, s.frames)
      && (s.prev.Some? ==> s.prev.value in s.seen)
  {
    var s0: State<H> := Init();
    assert HashSet(hash, s0.frames) == {};
    RunPreservesInv(hash, s0, cs);
    DistinctHashCount(hash, Run(hash, s0, cs).frames);
  }

  /** Running over a concatenation is running over the first part, then the second. */
  lemma {:induction false} RunAppend<H>(hash: Bytes -> H, s: State<H>, a: seq<Option<Bytes>>, b: seq<Option<Bytes>>)
    ensures Run(hash, s, a + b) == Run(hash, Run(hash, s, a), b)
    decreases |b|
  {
    if |b| == 0 {
      assert a + b == a;
    } else {
      assert (a + b)[..|a + b| - 1] == a + b[..|b| - 1];
      RunAppend(hash, s, a, b[..|b| - 1]);
    }
  }

  /**
   A second whose read fails changes nothing: the run over the candidates with
   that second removed ends in exactly the same state, so no frame is added and
   neither the seen set nor the previous hash moves.
   */
  lemma FailedDecodeChangesNothing<H>(hash: Bytes -> H, s: State<H>, a: seq<Option<Bytes>>, b: seq<Option<Bytes>>)
    ensures Run(hash, s, a + [None] + b) == Run(hash, s, a + b)
  {
    var gap: seq<Option<Bytes>> := [None];
    RunAppend(hash, s, a + gap, b);
    RunAppend(hash, s, a, gap);
    assert gap[..0] == [];
    RunAppend(hash, s, a, b);
  }

  /**
   The "same as previous hash" test never decides anything: from any state
   satisfying the loop invariant, the loop with the test removed ends in the
   same state, because a set previous hash is always already in the seen set.
   */
  lemma {:induction false} PrevCheckRedundant<H>(hash: Bytes -> H, s: State<H>, cs: seq<Option<Bytes>>)
    requires Inv(hash, s)
    ensures Run(hash, s, cs) == RunWithoutPrevCheck(hash, s, cs)
    decreases |cs|
  {
    if |cs| > 0 {
      PrevCheckRedundant(hash, s, cs[..|cs| - 1]);
      RunPreservesInv(hash, s, cs[..|cs| - 1]);
    }
  }

  /** The extractor's result equals that of the loop without the previous-hash test. */
  lemma ExtractWithoutPrevCheck<H>(hash: Bytes -> H, cs: seq<Option<Bytes>>)
    ensures Extract(hash, cs) == RunWithoutPrevCheck(hash, Init(), cs).frames
  {
    var s0: State<H> := Init();
    assert HashSet(hash, s0.frames) == {};
    PrevCheckRedundant(hash, s0, cs);
  }
}
