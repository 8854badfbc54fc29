# vid2pdf frame extraction, modelled in Dafny

vid2pdf turns a video into a PDF with one page per distinct frame. Its core
is `extract_unique_frames`. This function seeks to every whole second of the
video and decodes one frame there. It encodes the frame as JPEG and hashes
the bytes with MD5. It keeps the frame only if that hash has not appeared
earlier in the run. The result is the ordered list of kept JPEG byte strings.

The model works over three inputs:

- `n`, the whole number of seconds (`int(duration)`).
- `decode: int -> Option<Bytes>`, standing for the seek to a second plus one
  read. `None` means the read failed.
- `hash: Bytes -> H`, standing for MD5 as an uninterpreted, deterministic
  function.

Modules:

- `Frames` (`frames.dfy`): bytes and the per-second candidates of a run.
- `Dedup` (`dedup.dfy`): the loop as a pure left fold. Its state holds the
  seen-hash set, the kept frames and the previous hash. The module also has
  the loop invariant and the variant of the loop without the previous-hash
  test.
- `FirstOccurrence` (`first_occurrence.dfy`): an independent reference
  description. A second's frame should be kept exactly when no earlier
  second decoded a frame with the same hash.
- `DedupProperties` (`dedup_properties.dfy`): the theorems that connect the
  fold to the reference, and their consequences.
- `Vid2Pdf` (`extract.dfy`): the imperative loop, proved equal to the
  reference.

The deduplication is exact and global. A frame is dropped if any earlier
kept frame has the same hash, not only the one just before it. The code has
no pixel-difference or mean-squared-error threshold, so the model has none
either. Two consequences of this follow from the code alone:

- A frame that comes back after a different one is also dropped.
  `AlternatingVideoKeepsTwo` proves that a video alternating between two
  images keeps exactly two frames, however long it runs.
- The function returns only the JPEG bytes, not the seconds they came from.
  The specification function `FirstSeconds` recovers those seconds so that
  order can be stated.

## Model

| member | source | states |
|---|---|---|
| Frames.Candidates | vid2pdf.py:23-25 | one candidate per whole second of `[0, n)`: none when `n <= 0`, otherwise exactly `n`, the candidate at each second being that second's decode |
| Dedup.StepPreservesInv | vid2pdf.py:25-36 | one loop iteration keeps the invariant: the seen set is the set of kept hashes, kept hashes are pairwise distinct, and a set previous hash has been seen |
| Dedup.RunPreservesInv | vid2pdf.py:23-36 | the invariant holds after any number of iterations |
| Dedup.SeenMatchesFrames | vid2pdf.py:20-36 | after any prefix of the run, `unique_hashes` is exactly the set of hashes of `unique_frames`, it has as many elements as `unique_frames`, kept hashes are distinct, and `prev_hash` is in the set |
| Dedup.FailedDecodeChangesNothing | vid2pdf.py:25-27 | a second whose read fails can be deleted from the input without changing the final state: no frame added, seen set and previous hash untouched |
| Dedup.PrevCheckRedundant | vid2pdf.py:31-36 | from any state satisfying the invariant, the loop with the `md5_hash == prev_hash` test removed ends in the identical state |
| Dedup.ExtractWithoutPrevCheck | vid2pdf.py:20-38 | the returned frames equal those of the loop that filters by the seen set alone |
| DedupProperties.RunKeepsFirstOccurrences | vid2pdf.py:20-36 | after any prefix, the kept frames are exactly the first frame of each hash in second order, and the seen set is the set of hashes of all decoded frames |
| DedupProperties.ExtractIsFirstFrames | vid2pdf.py:15-38 | the function returns exactly the first-occurrence frames in increasing second order |
| DedupProperties.RetainedHashesDistinct | vid2pdf.py:33-35 | no two returned frames have the same hash |
| DedupProperties.RetainedInSecondOrder | vid2pdf.py:23-35 | there are strictly increasing seconds at which the returned frames were decoded, one for one, and each is the first occurrence of its hash |
| DedupProperties.FirstOccurrenceRetained | vid2pdf.py:33-35 | every frame that is the first of its hash among decoded frames is returned |
| DedupProperties.RetainedHashesComplete | vid2pdf.py:33-35 | the set of hashes of the returned frames equals the set of hashes of all decoded frames |
| DedupProperties.FirstDecodedRetained | vid2pdf.py:20-35 | if some second decodes, the earliest such frame is returned, and it is the first element of the result |
| DedupProperties.OutputBounded | vid2pdf.py:23-38 | at most one frame per sampled second is returned, and the result is empty when `n <= 0` or no read succeeds |
| DedupProperties.ConstantVideoKeepsOne | vid2pdf.py:31-36 | a video whose every second decodes to the same image yields exactly that one image |
| DedupProperties.AlternatingVideoKeepsTwo | vid2pdf.py:31-36 | a video alternating between two images of different hashes yields exactly the two images, however long it runs |
| Vid2Pdf.ExtractUniqueFrames | vid2pdf.py:15-38 | the loop returns the first-occurrence frames with pairwise distinct hashes, covering every decoded hash, at most one per sampled second |

## Left out

- `download_youtube_video` (vid2pdf.py:9-13) is left out because it needs the network and the pytube library.
- The OpenCV calls are left out because they are native decoding. These are `VideoCapture`, `get`, `set`, `read`, `imencode` and `release`. Seeking plus reading becomes the `decode` parameter. `release` has no counterpart.
- `imencode`'s success flag is ignored by the source. The model assumes encoding always yields bytes.
- The duration computation `frame_count / fps` is left out. It uses float division and raises on `fps == 0`. The model takes the whole number of seconds `n` as a parameter.
- The internals of MD5 are left out. The hash is an uninterpreted function parameter. So a hash collision between different images is possible in the model, as it is for MD5.
- The `frame_interval` parameter is left out because the source never reads it.
- `save_frames_to_pdf` (vid2pdf.py:40-52) is left out because it is file I/O and PDF page layout.
- `main` (vid2pdf.py:54-68) is left out because it is argument handling, printing, process exit and file deletion.
