# UniPic duplicate finder, modelled in Dafny

UniPic is a desktop photo organiser. Its duplicate finder hashes every
image twice: an MD5 digest of the bytes, and a 63-bit perceptual hash.
The perceptual hash comes from the 8x8 low-frequency block of a DCT of the
image, scaled to 32x32 grey. Each of the 63 AC terms becomes one bit: 1 when
it is above their median. An image that cannot be decoded gets a fallback
fingerprint instead. That fallback is the parities of the first 63 hex
digits of a SHA-256 over its path, size and modification time.

Files are hashed in slices sized from the CPU count, or by a worker thread
that walks its list one file at a time. The surviving records are then
grouped by a seed-anchored pass. Each record not yet placed becomes a seed,
and every later free record joins its group when the two records share a
content hash, or when their perceptual hashes lie within a Hamming-distance
threshold. A group is reported as "identical" or "similar". A "similar"
group comes with the smallest seed-to-member distance. A separate viewer
window steps through a list of images and can delete the one on screen.

The model is split into modules along the source:

- `Hamming` (hamming.dfy): `hammingDistance`.
- `Sorting` (sorting.dfy): the ascending numeric sort, plus counting.
- `PerceptualHash` (phash.dfy): the quantiser, the fallback and
  `calculatePHash` of main.js.
- `Records` (records.dfy): the per-file try block and the null filter.
- `Worker` (worker.dfy): hash-worker.js.
- `Batch` (batch.dfy): `processFilesBatch`.
- `Cluster` (cluster.dfy): the grouping pass as a function, with its
  properties.
- `FindDuplicates` (find_duplicates.dfy): the `find-duplicates` handler,
  with its nested loops as written.
- `ImageViewer` (viewer.dfy): the viewer's index state machine.

The outside world becomes plain values:

- The decoder's DCT block is 64 real numbers, or a failure.
- `fs.statSync` gives a metadata digest, or a failure.
- `readFileSync` gives an MD5 hex digest, or a failure. Only this
  failure flags a progress event as an error: a file that is read but
  cannot be decoded posts with `error: false` (`Batch.ErrorOnlyOnRead`).
- The CPU count is a parameter.
- The confirm dialog and the main process's reply to a delete are
  parameters.
- The event loop's choices are parameters as well. These are the order in
  which the readable files of a slice finish hashing, and the order in
  which viewer presses and delete replies arrive.

Two files with identical bytes might be expected to always land in an
"identical" group. The code does not guarantee this:

- The label depends only on whether every member shares the seed's
  content hash. Files b and c with equal bytes, grouped with a visually
  close seed a, form a group labelled "similar" (`Cluster.TwinsLabelledSimilar`).
- Matching is against the seed only. A file can be taken by an earlier
  seed, which leaves its byte-identical twin unreported
  (`Cluster.ChainSplitsSameContent`).

Two files with equal bytes and equal perceptual hashes do always share a
group (`Cluster.ClustersKeepSameContent`).

## Model

| member | source | states |
|---|---|---|
| Hamming.Distance | main.js:161-171 | -1 exactly when the lengths differ; otherwise a count between 0 and the length |
| Hamming.DistanceSymmetric | main.js:161-171 | swapping the two hashes does not change the distance |
| Hamming.DistanceZeroIff | main.js:161-171 | the distance is 0 exactly when the two hashes are equal |
| Hamming.DistanceSelf | main.js:161-171 | a hash is at distance 0 from itself |
| Hamming.DistanceTriangle | main.js:161-171 | on hashes of one length, the distance obeys the triangle inequality |
| Hamming.DistanceCountsPositions | main.js:161-171 | on hashes of one length, the distance is the size of the set of positions where they differ |
| Sorting.SortCorrect | main.js:132 | the ascending sort gives a sorted permutation of its input |
| Sorting.SortedUnique | main.js:132 | two sorted permutations of one multiset are equal, so the sorted order does not depend on the algorithm |
| PerceptualHash.MedianIndex | main.js:133 | `Math.floor(length / 2)` is within the list and splits it into halves that differ by at most one |
| PerceptualHash.MedianIndexOfAcTerms | main.js:133 | for the 63 AC terms the median index is 31 |
| PerceptualHash.Median | main.js:131-133 | the median is one of the AC terms |
| PerceptualHash.MedianWellDefined | main.js:131-133 | every ascending arrangement of the AC terms has the same element at index 31 |
| PerceptualHash.Quantise | main.js:130-139 | the hash has 63 characters, each '0' or '1' |
| PerceptualHash.QuantiseRank | main.js:131-139 | bit k is set exactly when at least 32 of the 63 AC terms are below AC term k: a rank fact that does not mention sorting |
| PerceptualHash.QuantiseAtMost31Ones | main.js:133-139 | at most 31 of the 63 bits are set |
| PerceptualHash.HexValue | main.js:150 | `parseInt(c, 16)` of one hex digit is below 16 |
| PerceptualHash.Fallback | main.js:148-150 | the fallback fingerprint has 63 characters, each '0' or '1' |
| PerceptualHash.FallbackOddDigits | main.js:150 | bit i of the fallback is set exactly when hex digit i of the digest is odd |
| PerceptualHash.FallbackIgnoresTail | main.js:150 | only the first 63 digits of the digest reach the fingerprint |
| PerceptualHash.CalculatePHash | main.js:102-158 | the result is a 63-bit fingerprint; it is null exactly when both decoding and stat fail |
| PerceptualHash.CalculatePHashNeverEmpty | main.js:141-155 | the result is never "", so the caller's truthiness test only filters null |
| PerceptualHash.DecodedIgnoresStat | main.js:102-141 | a decoded image's hash does not depend on file metadata |
| Records.ProcessFile | main.js:184-224 | the try block throws exactly when the file cannot be read; otherwise it yields the file's MD5 and a fingerprint or null |
| Records.KeepsIff | main.js:184-207 | a file yields a record exactly when it can be read and either decoded or stat-ed |
| Records.KeptAppend | main.js:227-228 | filtering the results of a list is filtering its parts and concatenating |
| Records.KeptMembers | main.js:200-207 | a record is in the result exactly when some file's processing kept it, with that file's path and hashes |
| Records.KeptFingerprints | main.js:200-206 | every surviving record carries a 63-bit fingerprint |
| Worker.QuantiseInWorker | hash-worker.js:89-101 | the worker's quantiser, with its copy loop and literal index 31, agrees with main.js's on every coefficient block |
| Worker.CalculatePHashInWorker | hash-worker.js:58-120 | for the same coefficient block and metadata, the worker's hash equals main.js's, fallback and null included |
| Worker.ProcessFiles | hash-worker.js:123-187 | one progress message per file in order, with the error flag exactly for files that threw, then one completion with the in-order survivors |
| Batch.BasenameShape | main.js:195 | the base name is a separator-free suffix of the path that follows a separator or starts the path |
| Batch.BasenameUnique | main.js:195 | only one suffix has that shape |
| Batch.BasenameJoin | main.js:195 | a file name joined onto a directory has that file name as its base name |
| Batch.BatchSizeFor | main.js:255-256 | the slice size is at least 1, twice the CPU count when that is positive, and 1 when no CPU is reported |
| Batch.UnreadableBeforeShape | main.js:184-186 | the listed positions are exactly the slice's unreadable files, in increasing order |
| Batch.SlicePosting | main.js:183-224 | in a slice, every file posts exactly once, and no error event follows a successful one |
| Batch.ErrorOnlyOnRead | main.js:208-221 | an event is flagged as an error exactly when reading the file threw; a read but undecodable file posts with the flag false |
| Batch.UnreadableOvertakes | main.js:183-224 | in a slice of a readable file then an unreadable one, the unreadable one posts first under every schedule |
| Batch.ProcessBatch | main.js:183-228 | one slice: the unreadable files post first in slice order, then the readable ones as they finish; event k carries count before+k+1 and its file's base name and error flag; the survivors keep slice order; the counter advances by the slice length |
| Batch.ProcessFilesBatch | main.js:174-237 | the slices cover the list once in order and all but the last have the full size; the counter ends at the total; the results are the in-order survivors; event k carries count k+1 and the base name of file `posted[k]`; every file posts exactly once, slice by slice in each slice's posting order; one pause between consecutive slices |
| Cluster.MatchesAtZero | main.js:298-309 | at threshold 0 only equal content hashes or equal perceptual hashes match |
| Cluster.Scan | main.js:282-310 | the inner loop takes at most one index per remaining position |
| Cluster.ScanMembers | main.js:282-310 | the inner loop collects exactly the later free indices that match the seed |
| Cluster.ScanIncreasing | main.js:282-310 | the collected indices are in increasing order |
| Cluster.ClustersAreGroups | main.js:276-313 | each group has at least two members in increasing order, seed first, and every member matches the seed |
| Cluster.ClustersDisjoint | main.js:272-310 | no index is in two groups |
| Cluster.ClustersOrdered | main.js:276-280 | groups come in increasing order of their seeds |
| Cluster.ClustersMaximal | main.js:282-310 | a later index that matches a group's seed is in that group or an earlier one |
| Cluster.ClustersLonely | main.js:276-310 | if an ungrouped index has a later match, that match was taken by a group seeded earlier |
| Cluster.ClustersKeepSameContent | main.js:298-310 | two records with equal content and perceptual hashes share a group |
| Cluster.ClustersNoneIff | main.js:276-313 | no group is reported exactly when no pair of records matches |
| Cluster.ComparisonsBound | main.js:273-285 | the comparison count never exceeds n(n-1)/2 |
| Cluster.ComparisonsWhenNoneMatch | main.js:274-285 | when no pair matches, the count is exactly n(n-1)/2 |
| Cluster.MinDistance | main.js:320 | the reported distance is at most every seed-to-member distance and equals one of them |
| Cluster.Report | main.js:313-321 | one report entry per group |
| Cluster.ReportEntry | main.js:313-321 | entry p describes group p |
| Cluster.MinDistanceWithin | main.js:305-320 | if some member is within the threshold, so is the minimum, and it is non-negative when the lengths agree |
| Cluster.DescribeSimilar | main.js:305-320 | a group not all of one content is labelled similar, with a distance within the threshold |
| Cluster.ReportSimilarWithin | main.js:305-320 | a similar entry's distance is within the threshold; it is -1 only when hash lengths differ |
| Cluster.ReportIdenticalIff | main.js:315-318 | an entry is identical exactly when all its files share one content hash |
| Cluster.ReportFiles | main.js:319 | an entry lists its group's paths, seed first, in group order |
| Cluster.ChainSplitsSameContent | main.js:276-310 | a file equal in bytes to a grouped file can be left out of every group |
| Cluster.TwinsLabelledSimilar | main.js:313-320 | a group holding two byte-identical files is labelled similar when the seed differs from them |
| FindDuplicates.ProgressStep | main.js:285-295 | a notice is posted exactly at every hundredth comparison |
| FindDuplicates.NoticesShape | main.js:285-295 | after m hundred comparisons there are m notices, the k-th reporting count 100(k+1) |
| FindDuplicates.Tick | main.js:285-295 | one comparison raises the count by one and keeps one notice per hundred |
| FindDuplicates.CompareWithSeed | main.js:282-310 | the inner loop as written collects the model's members, marks them processed, and counts one comparison per free later index |
| FindDuplicates.GroupingPass | main.js:272-323 | the nested loops as written return exactly the model's report and comparison count, with one notice per hundred comparisons |
| FindDuplicates.KeptUniform | main.js:200-206 | all hashes reaching the grouping pass have one length |
| FindDuplicates.FindDuplicatesHandler | main.js:240-336 | the handler reports the grouping of the in-order survivors under the given threshold, or 10 when none is given, with its comparison count and one notice per hundred comparisons; hash event k carries count k+1 and comes from file `hashOrder[k]`, each file once, in the pass's posting order; every similar distance lies between 0 and the threshold |
| ImageViewer.Load | image-viewer.js:24-28 | loading installs the list and the start index, or 0 when none is given |
| ImageViewer.NavigationKeepsRange | image-viewer.js:73-86 | previous and next keep the index on the list and leave the list unchanged |
| ImageViewer.NavigationSteps | image-viewer.js:73-86 | previous steps back exactly when the index is positive, next steps on exactly when it is not last; otherwise nothing changes |
| ImageViewer.PrevNextInverse | image-viewer.js:73-86 | a step that moved is undone by the opposite step |
| ImageViewer.ScreenMatchesNavigation | image-viewer.js:219-252 | a button is disabled exactly when pressing it would change nothing; the counter reads a position between 1 and the count |
| ImageViewer.LoadShowsFirst | image-viewer.js:24-28 | a load without a start index shows the first image with previous disabled |
| ImageViewer.LoadDoesNotClamp | image-viewer.js:24-28 | a start index off the list is kept, and the counter then reads past the count |
| ImageViewer.RequestDelete | image-viewer.js:89-98 | a request is sent only for an index on the list, and it carries the path on screen at the confirm |
| ImageViewer.DeleteRemovesCurrent | image-viewer.js:100-114 | the reply to a successful delete removes exactly the path on screen when it arrives, keeps the order of the rest, closes the window exactly when the list empties, and otherwise lands the index on the list |
| ImageViewer.DeleteOtherwiseUnchanged | image-viewer.js:89-131 | nothing is sent exactly when the index is off the list or the dialog is declined; a failed or throwing delete changes nothing |
| ImageViewer.DeleteUninterrupted | image-viewer.js:89-114 | a delete whose reply arrives before any other event removes the path confirmed |
| ImageViewer.DeleteDuringNextRemovesOther | image-viewer.js:82-114 | on [p0, p1] at p0, a next press before the reply leaves the list as [p0]: the deleted file stays listed and p1 is dropped |
| ImageViewer.ApplyKeepsRange | image-viewer.js:73-114 | any single press or reply keeps an in-range index in range and never adds paths |
| ImageViewer.ReplayKeepsRange | image-viewer.js:73-114 | after any run of presses and replies, in any order, an open window's index is on the list, and the list holds only paths from the start |

## Left out

- The DCT and the Sharp decode and resize are abstracted into the 64
  coefficients (or a failure) they produce. Floating-point rounding, and
  the worker's `Float32Array` storage, are not modelled: coefficients are
  reals.
- Worker.CalculatePHashInWorker: it agrees with main.js only for the same
  coefficient block. The worker rounds each DCT sum to a 32-bit float
  (hash-worker.js:72, 90), while main.js keeps doubles. A coefficient just
  above the median can round onto it, and its bit then flips from 1 to 0.
- MD5 and SHA-256 are not computed. Their hex digests are inputs.
- Batch.ProcessBatch: the order in which the readable files of a slice
  finish is a parameter, not derived from the decoder's timing.
- The 50 ms pause between slices is counted, not timed.
- Percentages are not modelled, because they are rounded floats. Neither
  are timings, logging, or the phase notices at the start, middle and end
  of `find-duplicates` (main.js:244-252, 262-270, 326-333).
- Batch.ProcessFilesBatch: the default `batchSize = 10` is not modelled,
  because the handler always passes a size.
- Batch.Basename: Windows separators are not modelled. A path ending in a
  separator gets the base name "" here, while `path.basename` drops the
  trailing separator first; the listed files never end in one.
- The worker's error handlers and start-up checks (hash-worker.js:8-47)
  are not modelled. Neither is the thread pool that would dispatch to it,
  which is not part of this model.
- The viewer's zoom, the fullscreen and close keys, the file-information panel, date and size
  formatting, and the title message after a delete are not modelled.
  Neither are the IPC and window plumbing, `scan-images` and the other
  handlers.
- ImageViewer.Load: only integer start indices are modelled. NaN and
  other falsy non-integers are not.
