/**
 * Per-file processing shared by main.js (`processFilesBatch`) and
 * hash-worker.js (`processFiles`): compute the MD5 content hash, then the
 * perceptual hash, and keep a record only when the perceptual hash is
 * truthy. Reading the file is the one step that can throw; the perceptual
 * hash catches its own failures.
 */
module Records {
  import opened Wrappers
  import PerceptualHash
  import Seqs

  /** One fingerprinted file, the element of the list the clusterer reads. */
  datatype ImageRecord = ImageRecord(path: string, fileHash: string, pHash: string)

  /** What the try block around one file ends with. */
  datatype Outcome =
    | Threw
    | Hashed(fileHash: string, pHash: Option<string>)

  /** What the outside world answers for one file: the MD5 hex digest of its
      bytes (`None` when `fs.readFileSync` throws), the decoder's verdict and
      the metadata digest for the fallback. */
  datatype FileEnv = FileEnv(
    contentDigest: Option<string>,
    decoding: PerceptualHash.Decoding,
    stat: PerceptualHash.Stat)

  datatype FileInput = FileInput(path: string, env: FileEnv)

  /** The body of the per-file `try`: hash the bytes, then the pixels. */
  function ProcessFile(env: FileEnv): (o: Outcome)
    ensures o.Threw? <==> env.contentDigest.None?
    ensures o.Hashed? ==> o.fileHash == env.contentDigest.value
    ensures o.Hashed? && o.pHash.Some? ==> PerceptualHash.IsFingerprint(o.pHash.value)
  {
    match env.contentDigest
    case None => Threw
    case Some(digest) => Hashed(digest, PerceptualHash.CalculatePHash(env.decoding, env.stat))
  }

  /** JavaScript truthiness of a perceptual hash: `null` and "" are falsy. */
  predicate Truthy(pHash: Option<string>) {
    pHash.Some? && pHash.value != ""
  }

  predicate Keeps(o: Outcome) {
    o.Hashed? && Truthy(o.pHash)
  }

  function RecordOf(path: string, o: Outcome): ImageRecord
    requires Keeps(o)
  {
    ImageRecord(path, o.fileHash, o.pHash.value)
  }

  /** A file together with how its processing ended. */
  datatype FileJob = FileJob(path: string, outcome: Outcome)

  function Job(file: FileInput): FileJob {
    FileJob(file.path, ProcessFile(file.env))
  }

  /** The in-order jobs of a list of files. */
  function Jobs(files: seq<FileInput>): (js: seq<FileJob>)
    ensures |js| == |files|
    ensures forall k :: 0 <= k < |files| ==> js[k] == Job(files[k])
  {
    seq(|files|, k requires 0 <= k < |files| => Job(files[k]))
  }

  lemma JobsSplit(files: seq<FileInput>, lo: nat, hi: nat)
    requires lo <= hi <= |files|
    ensures Jobs(files[..hi]) == Jobs(files[..lo]) + Jobs(files[lo..hi])
  {
  }

  /** The record one job contributes: none unless its hash is truthy. */
  function Survivor(job: FileJob): (rs: seq<ImageRecord>)
    ensures |rs| <= 1
  {
    if Keeps(job.outcome) then [RecordOf(job.path, job.outcome)] else []
  }

  /** The records that survive, in input order. */
  function Kept(jobs: seq<FileJob>): (rs: seq<ImageRecord>)
    ensures |rs| <= |jobs|
  {
    if jobs == [] then [] else Survivor(jobs[0]) + Kept(jobs[1..])
  }

  /** Keeping distributes over concatenation: the filter never reorders and
      never looks at neighbours. */
  lemma KeptCons(head: FileJob, tail: seq<FileJob>)
    ensures Kept([head] + tail) == Survivor(head) + Kept(tail)
  {
    assert ([head] + tail)[1..] == tail;
  }

  lemma {:induction false} KeptAppend(a: seq<FileJob>, b: seq<FileJob>)
    ensures Kept(a + b) == Kept(a) + Kept(b)
  {
    if a == [] {
      assert a + b == b;
    } else {
      Seqs.SplitHead(a, b);
      KeptAppend(a[1..], b);
      KeptCons(a[0], a[1..] + b);
      KeptCons(a[0], a[1..]);
      Seqs.AppendAssoc(Survivor(a[0]), Kept(a[1..]), Kept(b));
    }
  }

  /** Survivors of a prefix extend by the survivors of the next slice. */
  lemma KeptSplit(files: seq<FileInput>, lo: nat, hi: nat)
    requires lo <= hi <= |files|
    ensures Kept(Jobs(files[..hi])) == Kept(Jobs(files[..lo])) + Kept(Jobs(files[lo..hi]))
  {
    JobsSplit(files, lo, hi);
    KeptAppend(Jobs(files[..lo]), Jobs(files[lo..hi]));
  }

  lemma KeptStep(files: seq<FileInput>, k: nat)
    requires k < |files|
    ensures Kept(Jobs(files[..k + 1])) == Kept(Jobs(files[..k])) + Survivor(Job(files[k]))
  {
    KeptSplit(files, k, k + 1);
    assert Jobs(files[k..k + 1]) == [Job(files[k])];
    KeptCons(Job(files[k]), []);
    assert Survivor(Job(files[k])) + [] == Survivor(Job(files[k]));
  }

  /** A record is kept exactly when it comes from a job whose outcome was a
      truthy hash. */
  lemma {:induction false} KeptMembers(jobs: seq<FileJob>, r: ImageRecord)
    ensures r in Kept(jobs) <==>
      exists k :: 0 <= k < |jobs| && Keeps(jobs[k].outcome)
        && r == RecordOf(jobs[k].path, jobs[k].outcome)
  {
    if jobs != [] {
      KeptMembers(jobs[1..], r);
      if r in Kept(jobs[1..]) {
        var k :| 0 <= k < |jobs[1..]| && Keeps(jobs[1..][k].outcome)
          && r == RecordOf(jobs[1..][k].path, jobs[1..][k].outcome);
        assert jobs[k + 1] == jobs[1..][k];
      }
      if exists k :: 0 <= k < |jobs| && Keeps(jobs[k].outcome)
          && r == RecordOf(jobs[k].path, jobs[k].outcome) {
        var k :| 0 <= k < |jobs| && Keeps(jobs[k].outcome)
          && r == RecordOf(jobs[k].path, jobs[k].outcome);
        if k > 0 {
          assert jobs[1..][k - 1] == jobs[k];
        }
      }
    }
  }

  /** A file survives exactly when it could be read and either decoded or
      stat-ed: those are the only ways to lose it. */
  lemma KeepsIff(env: FileEnv)
    ensures Keeps(ProcessFile(env)) <==>
      env.contentDigest.Some? && !(env.decoding.DecodeFailed? && env.stat.StatFailed?)
  {
    if env.contentDigest.Some? {
      PerceptualHash.CalculatePHashNeverEmpty(env.decoding, env.stat);
    }
  }

  /** Every record that survives processing carries a 63-character
      fingerprint, so the records the clusterer reads have hashes of one
      length. */
  lemma KeptFingerprints(files: seq<FileInput>)
    ensures forall k :: 0 <= k < |Kept(Jobs(files))| ==>
      PerceptualHash.IsFingerprint(Kept(Jobs(files))[k].pHash)
  {
    var jobs := Jobs(files);
    forall k | 0 <= k < |Kept(jobs)|
      ensures PerceptualHash.IsFingerprint(Kept(jobs)[k].pHash)
    {
      KeptMembers(jobs, Kept(jobs)[k]);
      var m :| 0 <= m < |jobs| && Keeps(jobs[m].outcome)
        && Kept(jobs)[k] == RecordOf(jobs[m].path, jobs[m].outcome);
      assert jobs[m].outcome == ProcessFile(files[m].env);
    }
  }
}
