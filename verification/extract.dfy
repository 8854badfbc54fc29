/**
 The frame extractor written as the loop it is: one candidate per second,
 skip failed reads, skip a hash equal to the previous one, keep a hash never
 seen before. Opening and releasing the video and encoding the image are the
 decoder's business; the loop sees only `decode` and `hash`.
 */
module Vid2Pdf {
  import opened Wrappers
  import opened Frames
  import opened Dedup
  import opened FirstOccurrence
  import opened DedupProperties

  method ExtractUniqueFrames<H(==)>(hash: Bytes -> H, n: int, decode: int -> Option<Bytes>)
    returns (uniqueFrames: seq<Bytes>)
    ensures uniqueFrames == FirstFrames(hash, Candidates(n, decode))
    ensures HashesDistinct(hash, uniqueFrames)
    ensures HashSet(hash, uniqueFrames) == DecodedHashes(hash, Candidates(n, decode))
    ensures |uniqueFrames| <= (if n <= 0 then 0 else n)
  {
    ghost var cs := Candidates(n, decode);
    var uniqueHashes: set<H> := {};
    uniqueFrames := [];
    var prevHash: Option<H> := None;
    var count := if n <= 0 then 0 else n;
    for sec := 0 to count
      invariant State(uniqueHashes, uniqueFrames, prevHash) == Run(hash, Init(), cs[..sec])
    {
      assert cs[..sec + 1][..sec] == cs[..sec];
      var image := decode(sec);
      if image.None? {
        continue;
      }
      var imgBytes := image.value;
      var md5Hash := hash(imgBytes);
      if prevHash == Some(md5Hash) {
        continue;
      }
      if md5Hash !in uniqueHashes {
        uniqueHashes := uniqueHashes + {md5Hash};
        uniqueFrames := uniqueFrames + [imgBytes];
      }
      prevHash := Some(md5Hash);
    }
    assert cs[..count] == cs;
    ExtractIsFirstFrames(hash, cs);
    SeenMatchesFrames(hash, cs);
    RetainedHashesComplete(hash, cs);
    OutputBounded(hash, n, decode);
  }
}
