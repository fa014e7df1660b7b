/**
 * `processFilesBatch` of main.js: the file list is cut into contiguous
 * slices of `batchSize` files; each slice is processed (in the source
 * concurrently through `Promise.all`), every file bumps the shared
 * `processed` counter and posts a `hash-progress` event, and the non-null
 * results are appended in slice order. A pause separates consecutive
 * slices.
 */
module Batch {
  import opened Records
  import Seqs

  /** The payload of one `hash-progress` event (the percentage, a rounded
      float, is not modelled). */
  datatype HashProgress = HashProgress(current: nat, total: nat, currentFile: string, error: bool)

  /** The index of the last `/` among the first `n` characters of `p`, or
      -1 when there is none. */
  function LastSeparator(p: string, n: nat): int
    requires n <= |p|
  {
    if n == 0 then -1
    else if p[n - 1] == '/' then n - 1
    else LastSeparator(p, n - 1)
  }

  lemma {:induction false} LastSeparatorShape(p: string, n: nat)
    requires n <= |p|
    ensures -1 <= LastSeparator(p, n) < n
    ensures LastSeparator(p, n) >= 0 ==> p[LastSeparator(p, n)] == '/'
    ensures forall k :: LastSeparator(p, n) < k < n ==> p[k] != '/'
  {
    if n > 0 && p[n - 1] != '/' {
      LastSeparatorShape(p, n - 1);
    }
  }

  /** `path.basename` on a POSIX path that does not end in a separator:
      everything after the last `/`. */
  function Basename(p: string): string
  {
    LastSeparatorShape(p, |p|);
    p[LastSeparator(p, |p|) + 1..]
  }

  /** The base name is a suffix of the path without a separator, and it is
      either the whole path or preceded by a separator. */
  lemma BasenameShape(p: string)
    ensures |Basename(p)| <= |p| && Basename(p) == p[|p| - |Basename(p)|..]
    ensures '/' !in Basename(p)
    ensures |Basename(p)| < |p| ==> p[|p| - |Basename(p)| - 1] == '/'
  {
    LastSeparatorShape(p, |p|);
    var r := LastSeparator(p, |p|);
    var b := Basename(p);
    assert |b| == |p| - r - 1;
    forall k | 0 <= k < |b|
      ensures b[k] != '/'
    {
      assert b[k] == p[r + 1 + k];
    }
  }

  /** A suffix without a separator has no separator just before any of
      its own proper suffixes. */
  lemma NoSeparatorInside(p: string, b: string, m: int)
    requires |b| <= |p| && b == p[|p| - |b|..] && '/' !in b && 0 <= m < |b|
    ensures p[|p| - m - 1] != '/'
  {
    assert b[|b| - m - 1] == p[|p| - m - 1];
  }

  /** The base name is the only suffix without a separator that is the
      whole path or follows a separator. */
  lemma BasenameUnique(p: string, b: string)
    requires |b| <= |p| && b == p[|p| - |b|..] && '/' !in b
    requires |b| < |p| ==> p[|p| - |b| - 1] == '/'
    ensures Basename(p) == b
  {
    var c := Basename(p);
    BasenameShape(p);
    if |c| < |b| {
      NoSeparatorInside(p, b, |c|);
    } else if |b| < |c| {
      NoSeparatorInside(p, c, |b|);
    }
    assert |c| == |b|;
  }

  /** A file name joined onto a directory has that name as base name. */
  lemma BasenameJoin(dir: string, name: string)
    requires '/' !in name
    ensures Basename(dir + "/" + name) == name
  {
    var p := dir + "/" + name;
    assert p[|p| - |name|..] == name;
    assert p[|p| - |name| - 1] == '/';
    BasenameUnique(p, name);
  }

  /** The event posted for `file` when it is the `current`-th to finish. */
  function EventFor(file: FileInput, current: nat, total: nat): HashProgress
  {
    HashProgress(current, total, Basename(file.path), ProcessFile(file.env).Threw?)
  }

  function Flatten(slices: seq<seq<FileInput>>): seq<FileInput> {
    if slices == [] then [] else slices[0] + Flatten(slices[1..])
  }

  lemma FlattenCons(head: seq<FileInput>, tail: seq<seq<FileInput>>)
    ensures Flatten([head] + tail) == head + Flatten(tail)
  {
    assert ([head] + tail)[1..] == tail;
  }

  /** The slices `files.slice(i, i + size)` for i = 0, size, 2 * size, ...
      while i is below the length. */
  function Slices(files: seq<FileInput>, size: int): seq<seq<FileInput>>
    requires size >= 1
    decreases |files|
  {
    if files == [] then []
    else if |files| <= size then [files]
    else [files[..size]] + Slices(files[size..], size)
  }

  /** Every slice is non-empty and at most `size` long, and all but the
      last are exactly `size` long. */
  predicate SliceSizes(slices: seq<seq<FileInput>>, size: int) {
    && (forall b :: 0 <= b < |slices| ==> 1 <= |slices[b]| <= size)
    && (forall b :: 0 <= b < |slices| - 1 ==> |slices[b]| == size)
  }

  lemma SliceSizesCons(head: seq<FileInput>, tail: seq<seq<FileInput>>, size: int)
    requires 1 <= |head| <= size && (tail != [] ==> |head| == size)
    requires SliceSizes(tail, size)
    ensures SliceSizes([head] + tail, size)
  {
    forall b | 1 <= b < |[head] + tail|
      ensures ([head] + tail)[b] == tail[b - 1]
    {
    }
  }

  /** The slices partition the list: concatenated they give it back, in
      order, and each has the size the loop gives it. */
  lemma {:induction false} SlicesPartition(files: seq<FileInput>, size: int)
    requires size >= 1
    ensures Flatten(Slices(files, size)) == files
    ensures SliceSizes(Slices(files, size), size)
    decreases |files|
  {
    if files == [] {
    } else if |files| <= size {
      FlattenCons(files, []);
      assert files + [] == files;
    } else {
      var rest := Slices(files[size..], size);
      SlicesPartition(files[size..], size);
      FlattenCons(files[..size], rest);
      assert files[..size] + files[size..] == files;
      assert rest != [] by {
        assert Flatten(rest) != [];
      }
      SliceSizesCons(files[..size], rest, size);
    }
  }

  /** The slices from offset `i` on: the one at `i`, then those after it. */
  lemma SlicesStep(files: seq<FileInput>, size: int, i: nat, hi: nat)
    requires size >= 1 && i < |files|
    requires hi == if i + size < |files| then i + size else |files|
    ensures Slices(files[i..], size) == [files[i..hi]] + Slices(files[hi..], size)
  {
    var tail := files[i..];
    if |tail| <= size {
      assert files[hi..] == [];
      assert tail == files[i..hi];
    } else {
      assert tail[..size] == files[i..hi];
      assert tail[size..] == files[hi..];
    }
  }

  /** The batch size main.js chooses: twice the CPU count, at least 1. */
  function BatchSizeFor(cpuCount: nat): (b: nat)
    ensures b >= 1
    ensures cpuCount > 0 ==> b == 2 * cpuCount
    ensures cpuCount == 0 ==> b == 1
  {
    if 2 * cpuCount >= 1 then 2 * cpuCount else 1
  }

  /** A file whose `readFileSync` throws: its callback in `batch.map` never
      reaches an `await`, so its catch block posts while the slice is still
      being mapped. */
  predicate Unreadable(file: FileInput) {
    ProcessFile(file.env).Threw?
  }

  /** The positions below `n` of the unreadable files of a slice, in slice
      order: the order in which their error events are posted. */
  function UnreadableBefore(batch: seq<FileInput>, n: nat): seq<nat>
    requires n <= |batch|
  {
    if n == 0 then []
    else UnreadableBefore(batch, n - 1) + (if Unreadable(batch[n - 1]) then [n - 1] else [])
  }

  function UnreadableIn(batch: seq<FileInput>): seq<nat> {
    UnreadableBefore(batch, |batch|)
  }

  /** The unreadable positions below `n` are listed, in increasing order,
      and nothing else is. */
  lemma {:induction false} UnreadableBeforeShape(batch: seq<FileInput>, n: nat)
    requires n <= |batch|
    ensures forall k :: 0 <= k < |UnreadableBefore(batch, n)| ==>
      UnreadableBefore(batch, n)[k] < n && Unreadable(batch[UnreadableBefore(batch, n)[k]])
    ensures forall a, b :: 0 <= a < b < |UnreadableBefore(batch, n)| ==>
      UnreadableBefore(batch, n)[a] < UnreadableBefore(batch, n)[b]
    ensures forall i :: 0 <= i < n && Unreadable(batch[i]) ==> i in UnreadableBefore(batch, n)
  {
    if n > 0 {
      UnreadableBeforeShape(batch, n - 1);
    }
  }

  /** No position occurs twice. */
  predicate Distinct(s: seq<nat>) {
    forall a, b :: 0 <= a < b < |s| ==> s[a] != s[b]
  }

  /** `finish` is an order in which the readable files of a slice can
      finish `calculatePHash`: each readable position exactly once. Which
      order happens is up to the event loop, so it is a parameter. */
  predicate FinishOrder(batch: seq<FileInput>, finish: seq<nat>) {
    && |UnreadableIn(batch)| + |finish| == |batch|
    && (forall k :: 0 <= k < |finish| ==> finish[k] < |batch| && !Unreadable(batch[finish[k]]))
    && Distinct(finish)
  }

  /** The order in which a slice posts: the unreadable files in slice
      order, then the readable ones as they finish. Every file of the slice
      posts exactly once, and no error event follows a successful one. */
  lemma SlicePosting(batch: seq<FileInput>, finish: seq<nat>)
    requires FinishOrder(batch, finish)
    ensures |UnreadableIn(batch) + finish| == |batch|
    ensures forall k :: 0 <= k < |batch| ==> (UnreadableIn(batch) + finish)[k] < |batch|
    ensures Distinct(UnreadableIn(batch) + finish)
    ensures forall a, b :: 0 <= a < b < |batch| && Unreadable(batch[(UnreadableIn(batch) + finish)[b]]) ==>
      Unreadable(batch[(UnreadableIn(batch) + finish)[a]])
  {
    var u := UnreadableIn(batch);
    var p := u + finish;
    UnreadableBeforeShape(batch, |batch|);
    forall a, b | 0 <= a < b < |p|
      ensures p[a] != p[b]
      ensures Unreadable(batch[p[b]]) ==> Unreadable(batch[p[a]])
    {
      if b < |u| {
        assert p[a] == u[a] && p[b] == u[b];
      } else if a < |u| {
        assert p[b] == finish[b - |u|];
      } else {
        assert p[a] == finish[a - |u|] && p[b] == finish[b - |u|];
      }
    }
  }

  /** Only a failed read flags an event as an error: a file that is read
      but cannot be decoded posts from the success path, with `error`
      false, whether or not it survives. */
  lemma ErrorOnlyOnRead(file: FileInput, current: nat, total: nat)
    ensures EventFor(file, current, total).error <==> file.env.contentDigest.None?
    ensures file.env.contentDigest.Some? && file.env.decoding.DecodeFailed? ==>
      !EventFor(file, current, total).error
  {
  }

  /** The one schedule of a slice with a readable file followed by an
      unreadable one: the unreadable file posts first, whatever the event
      loop does, so the events never come in slice order. */
  lemma UnreadableOvertakes(a: FileInput, b: FileInput, finish: seq<nat>)
    requires !Unreadable(a) && Unreadable(b)
    requires FinishOrder([a, b], finish)
    ensures UnreadableIn([a, b]) + finish == [1, 0]
  {
    var batch := [a, b];
    assert UnreadableBefore(batch, 1) == [];
    assert UnreadableIn(batch) == [1];
    assert finish[0] != 1;
  }

  /** `events` are the events of the files at `posted`, posted in that
      order after `before` files of the pass were counted. */
  predicate Posted(batch: seq<FileInput>, before: nat, total: nat,
                   posted: seq<nat>, events: seq<HashProgress>, processed: nat)
  {
    && processed == before + |posted|
    && |events| == |posted|
    && forall k :: 0 <= k < |posted| ==>
      posted[k] < |batch| && events[k] == EventFor(batch[posted[k]], before + k + 1, total)
  }

  /** One slice. `batch.map` runs every callback up to its first `await`:
      unreadable files throw there and post at once, in slice order; the
      readable ones post after `calculatePHash` resolves, in the order
      `finish`. Every post bumps the shared counter first. `Promise.all`
      then hands back the results in slice order, and the non-null ones are
      kept. `posted` lists the slice position of each event. */
  method ProcessBatch(batch: seq<FileInput>, finish: seq<nat>, before: nat, total: nat)
    returns (kept: seq<ImageRecord>, processed: nat, events: seq<HashProgress>, posted: seq<nat>)
    requires FinishOrder(batch, finish)
    ensures kept == Kept(Jobs(batch))
    ensures processed == before + |batch|
    ensures |events| == |batch| && |posted| == |batch|
    ensures forall k :: 0 <= k < |batch| ==>
      posted[k] < |batch| && events[k] == EventFor(batch[posted[k]], before + k + 1, total)
    ensures posted == UnreadableIn(batch) + finish
  {
    processed, events, posted := PostUnreadable(batch, before, total);
    processed, events, posted := PostFinished(batch, finish, before, total, processed, events, posted);
    SlicePosting(batch, finish);
    kept := KeepInOrder(batch);
  }

  /** The callbacks up to their first `await`: unreadable files post at
      once, in slice order. */
  method PostUnreadable(batch: seq<FileInput>, before: nat, total: nat)
    returns (processed: nat, events: seq<HashProgress>, posted: seq<nat>)
    ensures posted == UnreadableIn(batch)
    ensures Posted(batch, before, total, posted, events, processed)
  {
    processed, events, posted := before, [], [];
    for i := 0 to |batch|
      invariant posted == UnreadableBefore(batch, i)
      invariant Posted(batch, before, total, posted, events, processed)
    {
      if Unreadable(batch[i]) {
        processed := processed + 1;
        events := events + [EventFor(batch[i], processed, total)];
        posted := posted + [i];
      } else {
        assert posted + [] == posted;
      }
    }
  }

  /** The readable files post as their hashes resolve, in the order
      `finish`. */
  method PostFinished(batch: seq<FileInput>, finish: seq<nat>, before: nat, total: nat,
                      processed0: nat, events0: seq<HashProgress>, posted0: seq<nat>)
    returns (processed: nat, events: seq<HashProgress>, posted: seq<nat>)
    requires forall k :: 0 <= k < |finish| ==> finish[k] < |batch|
    requires Posted(batch, before, total, posted0, events0, processed0)
    ensures posted == posted0 + finish
    ensures Posted(batch, before, total, posted, events, processed)
  {
    processed, events, posted := processed0, events0, posted0;
    for k := 0 to |finish|
      invariant posted == posted0 + finish[..k]
      invariant Posted(batch, before, total, posted, events, processed)
    {
      assert finish[..k + 1] == finish[..k] + [finish[k]];
      processed := processed + 1;
      events := events + [EventFor(batch[finish[k]], processed, total)];
      posted := posted + [finish[k]];
    }
    assert finish[..|finish|] == finish;
  }

  /** `Promise.all` hands the results back in slice order, and the
      non-null ones are kept. */
  method KeepInOrder(batch: seq<FileInput>) returns (kept: seq<ImageRecord>)
    ensures kept == Kept(Jobs(batch))
  {
    kept := [];
    assert batch[..0] == [];
    for k := 0 to |batch|
      invariant kept == Kept(Jobs(batch[..k]))
    {
      KeptStep(batch, k);
      var outcome := ProcessFile(batch[k].env);
      if Keeps(outcome) {
        kept := kept + [RecordOf(batch[k].path, outcome)];
      } else {
        assert kept + [] == kept;
      }
    }
    assert batch[..|batch|] == batch;
  }

  /** Slice positions as positions in the whole list. */
  function Shift(p: seq<nat>, offset: nat): (q: seq<nat>)
    ensures |q| == |p|
    ensures forall k :: 0 <= k < |p| ==> q[k] == p[k] + offset
  {
    seq(|p|, k requires 0 <= k < |p| => p[k] + offset)
  }

  lemma ShiftAppend(p: seq<nat>, q: seq<nat>, offset: nat)
    ensures Shift(p + q, offset) == Shift(p, offset) + Shift(q, offset)
  {
  }

  lemma ShiftShift(p: seq<nat>, a: nat, b: nat)
    ensures Shift(Shift(p, a), b) == Shift(p, a + b)
  {
  }

  lemma ShiftSplit(head: seq<nat>, rest: seq<nat>, i: nat, hi: nat)
    requires i <= hi
    ensures Shift(head + Shift(rest, hi - i), i) == Shift(head, i) + Shift(rest, hi)
  {
    ShiftAppend(head, Shift(rest, hi - i), i);
    ShiftShift(rest, hi - i, i);
  }

  /** One finishing order per slice of the pass. */
  predicate PassSchedule(files: seq<FileInput>, size: int, finishes: seq<seq<nat>>)
    requires size >= 1
  {
    && |finishes| == |Slices(files, size)|
    && forall j :: 0 <= j < |finishes| ==> FinishOrder(Slices(files, size)[j], finishes[j])
  }

  /** The posting order of a whole pass, as positions in `files`: each
      slice posts after the one before it has settled, in its own order. */
  function PassOrder(files: seq<FileInput>, size: int, finishes: seq<seq<nat>>): seq<nat>
    requires size >= 1 && |finishes| == |Slices(files, size)|
    decreases |files|
  {
    if files == [] then []
    else
      var hi := if |files| <= size then |files| else size;
      (UnreadableIn(files[..hi]) + finishes[0])
        + Shift(PassOrder(files[hi..], size, finishes[1..]), hi)
  }

  /** The pass from offset `i` on: the slice at `i`, then the rest. */
  lemma PassOrderUnfold(files: seq<FileInput>, size: int, finishes: seq<seq<nat>>, i: nat, hi: nat, j: nat)
    requires size >= 1 && i < |files|
    requires hi == if i + size < |files| then i + size else |files|
    requires j < |finishes| && |finishes| - j == |Slices(files[i..], size)|
    ensures |finishes| - j - 1 == |Slices(files[hi..], size)|
    ensures PassOrder(files[i..], size, finishes[j..])
      == (UnreadableIn(files[i..hi]) + finishes[j])
         + Shift(PassOrder(files[hi..], size, finishes[j + 1..]), hi - i)
  {
    SlicesStep(files, size, i, hi);
    var tail, later := files[i..], finishes[j..];
    var h := if |tail| <= size then |tail| else size;
    assert h == hi - i;
    assert tail[..h] == files[i..hi];
    assert tail[h..] == files[hi..];
    assert later[0] == finishes[j];
    assert later[1..] == finishes[j + 1..];
    assert tail != [] && |later[1..]| == |Slices(tail[h..], size)|;
    assert PassOrder(tail, size, later)
      == (UnreadableIn(tail[..h]) + later[0]) + Shift(PassOrder(tail[h..], size, later[1..]), h);
  }

  lemma PassOrderStep(files: seq<FileInput>, size: int, finishes: seq<seq<nat>>, i: nat, hi: nat, j: nat)
    requires size >= 1 && i < |files|
    requires hi == if i + size < |files| then i + size else |files|
    requires j < |finishes| && |finishes| - j == |Slices(files[i..], size)|
    ensures |finishes| - j - 1 == |Slices(files[hi..], size)|
    ensures Shift(PassOrder(files[i..], size, finishes[j..]), i)
      == Shift(UnreadableIn(files[i..hi]) + finishes[j], i)
         + Shift(PassOrder(files[hi..], size, finishes[j + 1..]), hi)
  {
    PassOrderUnfold(files, size, finishes, i, hi, j);
    ShiftSplit(UnreadableIn(files[i..hi]) + finishes[j], PassOrder(files[hi..], size, finishes[j + 1..]), i, hi);
  }

  /** `events` are the first `n` events of a pass over `files`, the files
      at `posted` in that order. */
  predicate EventsUpTo(events: seq<HashProgress>, posted: seq<nat>, files: seq<FileInput>, n: nat)
  {
    && n <= |files| && |events| == n && |posted| == n
    && (forall k :: 0 <= k < n ==>
         posted[k] < n && events[k] == EventFor(files[posted[k]], k + 1, |files|))
    && Distinct(posted)
  }

  /** Appending a slice's events, positions shifted by the slice's offset. */
  lemma EventsExtend(events: seq<HashProgress>, posted: seq<nat>, more: seq<HashProgress>, local: seq<nat>,
                     files: seq<FileInput>, lo: nat, hi: nat)
    requires lo <= hi <= |files|
    requires EventsUpTo(events, posted, files, lo)
    requires |more| == hi - lo && |local| == hi - lo && Distinct(local)
    requires forall k :: 0 <= k < hi - lo ==>
      local[k] < hi - lo && more[k] == EventFor(files[lo..hi][local[k]], lo + k + 1, |files|)
    ensures EventsUpTo(events + more, posted + Shift(local, lo), files, hi)
  {
    var all := posted + Shift(local, lo);
    forall k | lo <= k < hi
      ensures all[k] < hi && (events + more)[k] == EventFor(files[all[k]], k + 1, |files|)
    {
      assert files[lo..hi][local[k - lo]] == files[lo + local[k - lo]];
    }
    forall a, b | 0 <= a < b < hi
      ensures all[a] != all[b]
    {
      if lo <= a {
        assert local[a - lo] != local[b - lo];
      }
    }
  }

  /** What holds of the pass before the slice starting at `i`: the files
      before `processed` are done, counted and filtered, their events are
      the first of the pass's posting order, and the slices taken so far
      are the first slices of the list. */
  ghost predicate PassInvariant(files: seq<FileInput>, size: int, finishes: seq<seq<nat>>, i: int,
                                results: seq<ImageRecord>, processed: nat,
                                events: seq<HashProgress>, posted: seq<nat>,
                                batches: seq<seq<FileInput>>, pauses: nat)
  {
    && 0 <= i && size >= 1
    && |finishes| == |Slices(files, size)|
    && processed == (if i < |files| then i else |files|)
    && batches + Slices(files[processed..], size) == Slices(files, size)
    && |batches| <= |finishes|
    && posted + Shift(PassOrder(files[processed..], size, finishes[|batches|..]), processed)
       == PassOrder(files, size, finishes)
    && results == Kept(Jobs(files[..processed]))
    && EventsUpTo(events, posted, files, processed)
    && pauses == (if i < |files| || batches == [] then |batches| else |batches| - 1)
    && (i >= |files| && |files| > 0 ==> batches != [])
  }

  lemma PassCovers(files: seq<FileInput>, size: int, i: nat, hi: nat, batches: seq<seq<FileInput>>)
    requires size >= 1 && i < |files|
    requires hi == if i + size < |files| then i + size else |files|
    requires batches + Slices(files[i..], size) == Slices(files, size)
    ensures (batches + [files[i..hi]]) + Slices(files[hi..], size) == Slices(files, size)
    ensures Slices(files, size)[|batches|] == files[i..hi]
  {
    SlicesStep(files, size, i, hi);
    Seqs.AppendAssoc(batches, [files[i..hi]], Slices(files[hi..], size));
  }

  /** The slice at `i` runs under its own finishing order. */
  lemma PassSlice(files: seq<FileInput>, size: int, finishes: seq<seq<nat>>, i: nat, hi: nat,
                  batches: seq<seq<FileInput>>)
    requires size >= 1 && i < |files| && PassSchedule(files, size, finishes)
    requires hi == if i + size < |files| then i + size else |files|
    requires batches + Slices(files[i..], size) == Slices(files, size)
    ensures |batches| < |finishes|
    ensures FinishOrder(files[i..hi], finishes[|batches|])
  {
    PassCovers(files, size, i, hi, batches);
  }

  lemma PassKeeps(files: seq<FileInput>, i: nat, hi: nat, results: seq<ImageRecord>, kept: seq<ImageRecord>)
    requires i <= hi <= |files|
    requires results == Kept(Jobs(files[..i])) && kept == Kept(Jobs(files[i..hi]))
    ensures results + kept == Kept(Jobs(files[..hi]))
  {
    KeptSplit(files, i, hi);
  }

  lemma PassOrders(files: seq<FileInput>, size: int, finishes: seq<seq<nat>>, i: nat, hi: nat,
                   posted: seq<nat>, batches: seq<seq<FileInput>>, local: seq<nat>)
    requires size >= 1 && i < |files|
    requires hi == if i + size < |files| then i + size else |files|
    requires |batches| < |finishes| && |finishes| == |Slices(files, size)|
    requires batches + Slices(files[i..], size) == Slices(files, size)
    requires posted + Shift(PassOrder(files[i..], size, finishes[|batches|..]), i)
      == PassOrder(files, size, finishes)
    requires local == UnreadableIn(files[i..hi]) + finishes[|batches|]
    ensures (posted + Shift(local, i))
      + Shift(PassOrder(files[hi..], size, finishes[|batches| + 1..]), hi)
      == PassOrder(files, size, finishes)
  {
    PassOrderStep(files, size, finishes, i, hi, |batches|);
    Seqs.AppendAssoc(posted, Shift(local, i), Shift(PassOrder(files[hi..], size, finishes[|batches| + 1..]), hi));
  }

  /** One iteration of the slice loop keeps `PassInvariant`. */
  lemma PassStep(files: seq<FileInput>, size: int, finishes: seq<seq<nat>>, i: nat, hi: nat,
                 results: seq<ImageRecord>, events: seq<HashProgress>, posted: seq<nat>,
                 batches: seq<seq<FileInput>>, pauses: nat,
                 kept: seq<ImageRecord>, more: seq<HashProgress>, local: seq<nat>)
    requires size >= 1 && i < |files|
    requires PassInvariant(files, size, finishes, i, results, i, events, posted, batches, pauses)
    requires hi == if i + size < |files| then i + size else |files|
    requires |batches| < |finishes|
    requires kept == Kept(Jobs(files[i..hi]))
    requires |more| == hi - i && |local| == hi - i
    requires forall k :: 0 <= k < hi - i ==>
      local[k] < hi - i && more[k] == EventFor(files[i..hi][local[k]], i + k + 1, |files|)
    requires local == UnreadableIn(files[i..hi]) + finishes[|batches|]
    requires Distinct(local)
    ensures PassInvariant(files, size, finishes, i + size, results + kept, hi, events + more,
                          posted + Shift(local, i), batches + [files[i..hi]],
                          if i + size < |files| then pauses + 1 else pauses)
  {
    EventsExtend(events, posted, more, local, files, i, hi);
    PassKeeps(files, i, hi, results, kept);
    PassCovers(files, size, i, hi, batches);
    PassOrders(files, size, finishes, i, hi, posted, batches, local);
  }

  lemma PassStart(files: seq<FileInput>, size: int, finishes: seq<seq<nat>>)
    requires size >= 1 && PassSchedule(files, size, finishes)
    ensures PassInvariant(files, size, finishes, 0, [], 0, [], [], [], 0)
  {
    assert files[0..] == files;
    assert files[..0] == [];
    assert finishes[0..] == finishes;
    assert [] + Slices(files, size) == Slices(files, size);
    var order := PassOrder(files, size, finishes);
    assert Shift(order, 0) == order;
    assert [] + order == order;
  }

  /** Once the loop has passed the end, the invariant gives the results. */
  lemma PassEnd(files: seq<FileInput>, size: int, finishes: seq<seq<nat>>, i: int,
                results: seq<ImageRecord>, processed: nat, events: seq<HashProgress>, posted: seq<nat>,
                batches: seq<seq<FileInput>>, pauses: nat)
    requires i >= |files|
    requires PassInvariant(files, size, finishes, i, results, processed, events, posted, batches, pauses)
    ensures results == Kept(Jobs(files))
    ensures processed == |files|
    ensures EventsUpTo(events, posted, files, |files|)
    ensures posted == PassOrder(files, size, finishes)
    ensures batches == Slices(files, size)
    ensures pauses == if batches == [] then 0 else |batches| - 1
  {
    assert files[..|files|] == files;
    assert files[|files|..] == [];
    assert batches + [] == batches;
    assert Shift([], |files|) == [];
    assert posted + [] == posted;
  }

  /** One round of the slice loop: process `files.slice(i, i + size)`,
      append its survivors and events, and pause unless it was the last. */
  method NextSlice(files: seq<FileInput>, size: int, finishes: seq<seq<nat>>, i: nat,
                   results: seq<ImageRecord>, processed: nat, events: seq<HashProgress>, posted: seq<nat>,
                   batches: seq<seq<FileInput>>, pauses: nat)
    returns (results': seq<ImageRecord>, processed': nat, events': seq<HashProgress>, posted': seq<nat>,
             batches': seq<seq<FileInput>>, pauses': nat)
    requires i < |files| && size >= 1 && PassSchedule(files, size, finishes)
    requires PassInvariant(files, size, finishes, i, results, processed, events, posted, batches, pauses)
    ensures PassInvariant(files, size, finishes, i + size, results', processed', events', posted', batches', pauses')
  {
    var hi := if i + size < |files| then i + size else |files|;
    var batch := files[i..hi];
    PassSlice(files, size, finishes, i, hi, batches);
    assert processed == i;
    var kept, batchEvents, local;
    kept, processed', batchEvents, local := ProcessBatch(batch, finishes[|batches|], processed, |files|);
    assert processed' == hi;
    SlicePosting(batch, finishes[|batches|]);
    PassStep(files, size, finishes, i, hi, results, events, posted, batches, pauses, kept, batchEvents, local);
    results' := results + kept;
    events' := events + batchEvents;
    posted' := posted + Shift(local, i);
    batches' := batches + [batch];
    pauses' := if i + size < |files| then pauses + 1 else pauses;
  }

  /** The whole pass: the slices cover the file list exactly once, in order;
      the counter ends at the total; the results are the in-order survivors;
      event k carries count k + 1 and is posted by file `posted[k]`, every
      file exactly once, in the pass's posting order; and the pause happens
      between slices only. `finishes` holds the order in which each slice's
      readable files finish. */
  method ProcessFilesBatch(files: seq<FileInput>, batchSize: int, finishes: seq<seq<nat>>)
    returns (results: seq<ImageRecord>, processed: nat, events: seq<HashProgress>, posted: seq<nat>,
             batches: seq<seq<FileInput>>, pauses: nat)
    requires batchSize >= 1 && PassSchedule(files, batchSize, finishes)
    ensures results == Kept(Jobs(files))
    ensures processed == |files|
    ensures |events| == |files| && |posted| == |files|
    ensures forall k :: 0 <= k < |files| ==>
      posted[k] < |files| && events[k] == EventFor(files[posted[k]], k + 1, |files|)
    ensures Distinct(posted)
    ensures batches == Slices(files, batchSize)
    ensures pauses == if batches == [] then 0 else |batches| - 1
    ensures posted == PassOrder(files, batchSize, finishes)
  {
    results := [];
    processed := 0;
    events := [];
    posted := [];
    batches := [];
    pauses := 0;
    var total := |files|;
    var i := 0;
    PassStart(files, batchSize, finishes);
    while i < total
      invariant PassInvariant(files, batchSize, finishes, i, results, processed, events, posted, batches, pauses)
      decreases total - i
    {
      results, processed, events, posted, batches, pauses :=
        NextSlice(files, batchSize, finishes, i, results, processed, events, posted, batches, pauses);
      i := i + batchSize;
    }
    PassEnd(files, batchSize, finishes, i, results, processed, events, posted, batches, pauses);
  }
}
