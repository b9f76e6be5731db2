/** The duplicate grouper of find-duplicates: a map from hash to the files
    carrying it, and the statistics computed over its buckets. */
module Grouping {
  import opened Comparisons
  import opened Sums
  import opened Seqs

  /** The files of `files` with hash `h`, in their original order. */
  function Bucket(files: seq<Fingerprint>, h: string): (b: seq<Fingerprint>)
    ensures |b| <= |files|
    ensures forall i :: 0 <= i < |b| ==> b[i].hash == h
  {
    if |files| == 0 then []
    else (if files[0].hash == h then [files[0]] else []) + Bucket(files[1..], h)
  }

  /** A file is in the bucket of `h` exactly when it is one of the files and
      carries hash `h`: each file lands in the bucket of its own hash and in
      no other. */
  lemma {:induction false} BucketMembers(files: seq<Fingerprint>, h: string)
    ensures forall f :: f in Bucket(files, h) <==> f in files && f.hash == h
  {
    if |files| > 0 {
      BucketMembers(files[1..], h);
      assert forall f :: f in files <==> f == files[0] || f in files[1..];
    }
  }

  lemma {:induction false} BucketAppend(a: seq<Fingerprint>, b: seq<Fingerprint>, h: string)
    ensures Bucket(a + b, h) == Bucket(a, h) + Bucket(b, h)
  {
    if |a| == 0 {
      assert a + b == b;
    } else {
      assert (a + b)[1..] == a[1..] + b;
      BucketAppend(a[1..], b, h);
    }
  }

  /** Every hash occurring among `files`. */
  function HashesOf(files: seq<Fingerprint>): set<string> {
    set f | f in files :: f.hash
  }

  lemma {:induction false} BucketSnoc(init: seq<Fingerprint>, file: Fingerprint, h: string)
    ensures Bucket(init + [file], h) == Bucket(init, h) + (if file.hash == h then [file] else [])
  {
    BucketAppend(init, [file], h);
    assert [file][1..] == [];
  }

  lemma {:induction false} HashesOfSnoc(init: seq<Fingerprint>, file: Fingerprint)
    ensures HashesOf(init + [file]) == HashesOf(init) + {file.hash}
  {
    var files := init + [file];
    forall h | h in HashesOf(files) ensures h in HashesOf(init) + {file.hash} {
      var f :| f in files && f.hash == h;
    }
    forall h | h in HashesOf(init) ensures h in HashesOf(files) {
      var f :| f in init && f.hash == h;
      assert f in files;
    }
    assert file in files;
  }

  /** The loop filling `duplicateMap`: each file is appended to the bucket
      of its hash, a bucket being created on the first file with that hash.
      The result keys exactly the hashes present and maps each to all files
      with that hash in scan order, so every file sits in exactly one bucket. */
  function GroupByHash(files: seq<Fingerprint>): (m: map<string, seq<Fingerprint>>)
    ensures m.Keys == HashesOf(files)
    ensures forall h :: h in m ==> m[h] == Bucket(files, h)
  {
    if |files| == 0 then map[]
    else
      var init := files[..|files| - 1];
      var file := files[|files| - 1];
      var m := GroupByHash(init);
      SnocSplit(files);
      GroupStep(init, file, m);
      m[file.hash := (if file.hash in m then m[file.hash] else []) + [file]]
  }

  /** One iteration of the grouping loop keeps the map describing the
      files seen so far. */
  lemma GroupStep(init: seq<Fingerprint>, file: Fingerprint, m: map<string, seq<Fingerprint>>)
    requires m.Keys == HashesOf(init)
    requires forall h :: h in m ==> m[h] == Bucket(init, h)
    ensures var m' := m[file.hash := (if file.hash in m then m[file.hash] else []) + [file]];
            && m'.Keys == HashesOf(init + [file])
            && forall h :: h in m' ==> m'[h] == Bucket(init + [file], h)
  {
    var m' := m[file.hash := (if file.hash in m then m[file.hash] else []) + [file]];
    HashesOfSnoc(init, file);
    forall h | h in m' ensures m'[h] == Bucket(init + [file], h) {
      BucketSnoc(init, file, h);
      BucketOfPresent(init, h);
    }
  }

  /** A non-empty bucket belongs to a hash that occurs among the files. */
  lemma BucketOfPresent(files: seq<Fingerprint>, h: string)
    ensures Bucket(files, h) != [] ==> h in HashesOf(files)
  {
    if Bucket(files, h) != [] {
      BucketMembers(files, h);
      var f := Bucket(files, h)[0];
      assert f in files && f.hash == h;
    }
  }

  /** The length of each bucket, as a term to sum over the keys. */
  function BucketLen(files: seq<Fingerprint>): string -> int {
    h => |Bucket(files, h)|
  }

  /** The bucket lengths add up to the number of files: grouping loses and
      duplicates nothing, whatever order the keys are visited in. */
  lemma {:induction false} BucketsPartition(files: seq<Fingerprint>, order: seq<string>)
    requires Distinct(order)
    requires forall f :: f in files ==> f.hash in order
    ensures SumBy(order, BucketLen(files)) == |files|
  {
    if |files| == 0 {
      SumByZero(order, BucketLen(files));
    } else {
      var rest := files[1..];
      BucketsPartition(rest, order);
      SumByBump(order, BucketLen(files), BucketLen(rest), files[0].hash, 1);
    }
  }

  // ---------------------------------------------------------------------
  // Statistics over the buckets with more than one member.
  // ---------------------------------------------------------------------

  /** A bucket's contribution to "Duplicated files": its length when it has
      more than one member. */
  function DuplicatedTerm(m: map<string, seq<Fingerprint>>): string -> int {
    h => if h in m && |m[h]| > 1 then |m[h]| else 0
  }

  /** A bucket's contribution to "Wasted space": the size of its first file
      once for every further member. */
  function WastedTerm(m: map<string, seq<Fingerprint>>): string -> int {
    h => if h in m then Waste(m[h]) else 0
  }

  /** The space a bucket wastes: the size of its first file once for every
      further member, and nothing for a single file. */
  function Waste(bucket: seq<Fingerprint>): int {
    if |bucket| > 1 then bucket[0].size * (|bucket| - 1) else 0
  }

  /** Reference count: the files of `xs` whose hash some other file of
      `all` shares. */
  function SharedCount(all: seq<Fingerprint>, xs: seq<Fingerprint>): (n: nat)
    ensures n <= |xs|
  {
    if |xs| == 0 then 0
    else (if |Bucket(all, xs[0].hash)| > 1 then 1 else 0) + SharedCount(all, xs[1..])
  }

  /** Reference waste, scanning files in order: a file whose hash was seen
      before adds the size of the first file seen with that hash. */
  function WasteScan(files: seq<Fingerprint>): (w: nat)
  {
    if |files| == 0 then 0
    else
      var init := files[..|files| - 1];
      var file := files[|files| - 1];
      var seen := Bucket(init, file.hash);
      WasteScan(init) + (if |seen| > 0 then seen[0].size else 0)
  }

  /** The count of qualifying buckets' members, restricted to the files in xs. */
  function SharedTerm(all: seq<Fingerprint>, xs: seq<Fingerprint>): string -> int {
    h => if |Bucket(all, h)| > 1 then |Bucket(xs, h)| else 0
  }

  lemma {:induction false} SharedSum(all: seq<Fingerprint>, xs: seq<Fingerprint>, order: seq<string>)
    requires Distinct(order)
    requires forall f :: f in xs ==> f.hash in order
    ensures SumBy(order, SharedTerm(all, xs)) == SharedCount(all, xs)
  {
    if |xs| == 0 {
      SumByZero(order, SharedTerm(all, xs));
    } else {
      var rest := xs[1..];
      SharedSum(all, rest, order);
      SumByBump(order, SharedTerm(all, xs), SharedTerm(all, rest), xs[0].hash,
                if |Bucket(all, xs[0].hash)| > 1 then 1 else 0);
    }
  }

  /** "Duplicated files" summed over the buckets in any key order is the
      number of files whose hash at least one other file shares. */
  lemma DuplicatedFilesCountsSharedHashes(files: seq<Fingerprint>, order: seq<string>)
    requires IsEnumeration(order, HashesOf(files))
    ensures SumBy(order, DuplicatedTerm(GroupByHash(files))) == SharedCount(files, files)
  {
    var m := GroupByHash(files);
    forall i | 0 <= i < |order|
      ensures DuplicatedTerm(m)(order[i]) == SharedTerm(files, files)(order[i])
    {
      assert order[i] in m;
    }
    SumByCongruent(order, DuplicatedTerm(m), SharedTerm(files, files));
    SharedSum(files, files, order);
  }

  /** The waste term restricted to a prefix of the scan. */
  function PrefixWasteTerm(xs: seq<Fingerprint>): string -> int {
    h => Waste(Bucket(xs, h))
  }

  /** Appending a file raises the prefix waste term of its own hash by the
      size of the first earlier file with that hash, and no other term. */
  lemma {:induction false} PrefixWasteStep(init: seq<Fingerprint>, file: Fingerprint, h: string)
    ensures var seen := Bucket(init, file.hash);
            Waste(Bucket(init + [file], h))
            == Waste(Bucket(init, h)) + (if h == file.hash then (if |seen| > 0 then seen[0].size else 0) else 0)
  {
    BucketSnoc(init, file, h);
    var b := Bucket(init, h);
    if h == file.hash && |b| > 0 {
      WasteSnoc(b, file);
    }
  }

  /** Growing a non-empty bucket by one file adds the first file's size. */
  lemma WasteSnoc(b: seq<Fingerprint>, file: Fingerprint)
    requires |b| > 0
    ensures Waste(b + [file]) == Waste(b) + b[0].size
  {
    var n := |b| - 1;
    assert (b + [file])[0] == b[0];
    assert b[0].size * (n + 1) == b[0].size * n + b[0].size;
  }

  /** The last file's contribution: the size of the first earlier file with
      its hash, or nothing when it is the first of its hash. */
  function LastCharge(xs: seq<Fingerprint>): int
    requires |xs| > 0
  {
    var seen := Bucket(xs[..|xs| - 1], xs[|xs| - 1].hash);
    if |seen| > 0 then seen[0].size else 0
  }

  /** `PrefixWasteStep` at every listed key. */
  lemma PrefixWasteTerms(xs: seq<Fingerprint>, order: seq<string>)
    requires |xs| > 0
    ensures forall i :: 0 <= i < |order| ==>
              PrefixWasteTerm(xs)(order[i])
              == PrefixWasteTerm(xs[..|xs| - 1])(order[i]) + (if order[i] == xs[|xs| - 1].hash then LastCharge(xs) else 0)
  {
    SnocSplit(xs);
    forall i | 0 <= i < |order|
      ensures PrefixWasteTerm(xs)(order[i])
              == PrefixWasteTerm(xs[..|xs| - 1])(order[i]) + (if order[i] == xs[|xs| - 1].hash then LastCharge(xs) else 0)
    {
      PrefixWasteStep(xs[..|xs| - 1], xs[|xs| - 1], order[i]);
    }
  }

  lemma {:induction false} PrefixWasteSum(xs: seq<Fingerprint>, order: seq<string>)
    requires Distinct(order)
    requires forall i :: 0 <= i < |xs| ==> xs[i].hash in order
    ensures SumBy(order, PrefixWasteTerm(xs)) == WasteScan(xs)
  {
    if |xs| == 0 {
      SumByZero(order, PrefixWasteTerm(xs));
    } else {
      var init := xs[..|xs| - 1];
      PrefixWasteSum(init, order);
      PrefixWasteTerms(xs, order);
      SumByBump(order, PrefixWasteTerm(xs), PrefixWasteTerm(init), xs[|xs| - 1].hash, LastCharge(xs));
    }
  }

  /** "Wasted space" summed over the buckets in any key order equals the
      scan that charges every repeat of a hash the size of that hash's
      first file. Buckets are keyed by hash alone, so the charge is the
      first file's size even when a repeat has a different size. */
  lemma WastedSpaceChargesRepeats(files: seq<Fingerprint>, order: seq<string>)
    requires IsEnumeration(order, HashesOf(files))
    ensures SumBy(order, WastedTerm(GroupByHash(files))) == WasteScan(files)
  {
    var m := GroupByHash(files);
    forall i | 0 <= i < |order|
      ensures WastedTerm(m)(order[i]) == PrefixWasteTerm(files)(order[i])
    {
      WastedTermAt(files, order[i]);
    }
    SumByCongruent(order, WastedTerm(m), PrefixWasteTerm(files));
    assert forall i :: 0 <= i < |files| ==> files[i] in files;
    PrefixWasteSum(files, order);
  }

  /** On a present hash, the bucket's waste term is the waste term of the
      whole scan. */
  lemma WastedTermAt(files: seq<Fingerprint>, h: string)
    requires h in HashesOf(files)
    ensures WastedTerm(GroupByHash(files))(h) == PrefixWasteTerm(files)(h)
  {
    var m := GroupByHash(files);
    assert m[h] == Bucket(files, h);
  }
}
