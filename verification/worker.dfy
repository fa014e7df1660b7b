/**
 * hash-worker.js: the worker thread's own copy of the perceptual hash
 * (array copy, sort, hard-coded median index 31) and its sequential
 * per-file loop, which posts one `progress` message per file and a final
 * `completed` message carrying the surviving records.
 */
module Worker {
  import opened Wrappers
  import opened Sorting
  import PerceptualHash
  import opened Records

  /** The worker writes the median index as a literal. */
  const WorkerMedianIndex: nat := 31

  /** The worker's quantiser agrees with main.js's for every coefficient
      block: the copy loop keeps the AC order and the literal index 31 is
      `Math.floor(63 / 2)`. */
  method QuantiseInWorker(dct: PerceptualHash.Coefficients) returns (hash: string)
    ensures hash == PerceptualHash.Quantise(dct)
  {
    var withoutDC: seq<real> := [];
    for i := 1 to 64
      invariant withoutDC == dct[1..i]
    {
      withoutDC := withoutDC + [dct[i]];
    }
    assert withoutDC == dct[1..];
    var sorted := Sort(withoutDC);
    var median := sorted[WorkerMedianIndex];
    PerceptualHash.MedianIndexOfAcTerms();
    assert median == PerceptualHash.Median(dct[1..]);
    hash := "";
    for i := 1 to 64
      invariant |hash| == i - 1
      invariant forall k :: 0 <= k < i - 1 ==> hash[k] == PerceptualHash.Bit(dct[k + 1], median)
    {
      hash := hash + [if dct[i] > median then '1' else '0'];
    }
  }

  /** The worker's `calculatePHash`: same fallback chain as main.js. */
  method CalculatePHashInWorker(decoding: PerceptualHash.Decoding, stat: PerceptualHash.Stat)
    returns (r: Option<string>)
    ensures r == PerceptualHash.CalculatePHash(decoding, stat)
    ensures r.Some? ==> PerceptualHash.IsFingerprint(r.value)
  {
    match decoding {
      case Decoded(dct) =>
        var hash := QuantiseInWorker(dct);
        r := Some(hash);
      case DecodeFailed =>
        match stat {
          case Stat(digest) => r := Some(PerceptualHash.Fallback(digest));
          case StatFailed => r := None;
        }
    }
  }

  /** Messages posted to the parent thread by `processFiles`. */
  datatype Message =
    | Progress(filePath: string, error: bool)
    | Completed(results: seq<ImageRecord>)

  /** `processFiles`: one progress message per file in input order, flagged
      as an error exactly when the file's processing threw, then a single
      completion message with the in-order surviving records. */
  method ProcessFiles(files: seq<FileInput>) returns (messages: seq<Message>)
    ensures |messages| == |files| + 1
    ensures forall k :: 0 <= k < |files| ==>
      messages[k] == Progress(files[k].path, ProcessFile(files[k].env).Threw?)
    ensures messages[|files|] == Completed(Kept(Jobs(files)))
  {
    var results: seq<ImageRecord> := [];
    messages := [];
    for i := 0 to |files|
      invariant |messages| == i
      invariant forall k :: 0 <= k < i ==>
        messages[k] == Progress(files[k].path, ProcessFile(files[k].env).Threw?)
      invariant results == Kept(Jobs(files[..i]))
    {
      var file := files[i];
      match file.env.contentDigest {
        case None =>
          messages := messages + [Progress(file.path, true)];
        case Some(fileHash) =>
          var pHash := CalculatePHashInWorker(file.env.decoding, file.env.stat);
          messages := messages + [Progress(file.path, false)];
          if pHash.Some? && pHash.value != "" {
            results := results + [ImageRecord(file.path, fileHash, pHash.value)];
          }
      }
      KeptStep(files, i);
    }
    assert files[..|files|] == files;
    messages := messages + [Completed(results)];
  }
}
