/** find-duplicates: groups the files of one tree by hash and prints every
    group with more than one member, after an optional summary. Both
    variants of the command (the one with private helpers and the one using
    the shared utilities) behave alike and are modelled once. */
module FindDuplicates {
  import opened Wrappers
  import opened Hex
  import opened FileTree
  import opened Comparisons
  import opened Hashes
  import opened Walker
  import opened HumanSize
  import opened Sums
  import opened Grouping
  import opened Seqs

  /** The parsed command line; `-g` is accepted but never used. */
  datatype Config = Config(
    sourcePath: string,
    bytesForHash: nat,
    verbosity: int,
    generateDeleteCommands: bool)

  /** One printed line. */
  datatype Line =
    | ViewedFiles(count: int)
    | DuplicatedFiles(count: int)
    | WastedSpace(size: HumanSize)
    | GroupHeader(hash: string)
    | GroupMember(path: string)

  /** The statistics loop over `duplicateMap`, visiting the keys in the
      order the runtime picks. Whatever that order, the duplicated-file count
      is the number of files sharing their hash with another file, and the
      wasted space charges every repeat of a hash the size of the first file
      with that hash. */
  method DuplicateStats(filesOnSource: seq<Fingerprint>, order: seq<string>)
    returns (duplicatedFiles: int, duplicatedSize: int)
    requires IsEnumeration(order, HashesOf(filesOnSource))
    ensures duplicatedFiles == SharedCount(filesOnSource, filesOnSource)
    ensures duplicatedSize == WasteScan(filesOnSource)
  {
    var duplicateMap := GroupByHash(filesOnSource);
    duplicatedFiles, duplicatedSize := 0, 0;
    var i := 0;
    while i < |order|
      invariant 0 <= i <= |order|
      invariant duplicatedFiles == SumBy(order[..i], DuplicatedTerm(duplicateMap))
      invariant duplicatedSize == SumBy(order[..i], WastedTerm(duplicateMap))
    {
      assert order[i] in duplicateMap;
      var duplicates := duplicateMap[order[i]];
      StatsStep(duplicateMap, order, i);
      if |duplicates| > 1 {
        duplicatedFiles := duplicatedFiles + |duplicates|;
        duplicatedSize := duplicatedSize + duplicates[0].size * (|duplicates| - 1);
      }
      i := i + 1;
    }
    assert order[..i] == order;
    DuplicatedFilesCountsSharedHashes(filesOnSource, order);
    WastedSpaceChargesRepeats(filesOnSource, order);
  }

  /** One iteration of the statistics loop adds the visited bucket's terms. */
  lemma StatsStep(m: map<string, seq<Fingerprint>>, order: seq<string>, i: int)
    requires 0 <= i < |order| && order[i] in m
    ensures var b := m[order[i]];
            && SumBy(order[..i + 1], DuplicatedTerm(m)) == SumBy(order[..i], DuplicatedTerm(m)) + (if |b| > 1 then |b| else 0)
            && SumBy(order[..i + 1], WastedTerm(m)) == SumBy(order[..i], WastedTerm(m)) + (if |b| > 1 then b[0].size * (|b| - 1) else 0)
  {
    SumByPrefixStep(order, i, DuplicatedTerm(m));
    SumByPrefixStep(order, i, WastedTerm(m));
  }

  function MemberLines(bucket: seq<Fingerprint>): (r: seq<Line>)
    ensures |r| == |bucket|
    ensures forall i :: 0 <= i < |bucket| ==> r[i] == GroupMember(bucket[i].path)
  {
    if |bucket| == 0 then [] else [GroupMember(bucket[0].path)] + MemberLines(bucket[1..])
  }

  /** What one key of the map prints: nothing for a single file, otherwise
      the hash followed by every member's path. */
  function GroupBlock(m: map<string, seq<Fingerprint>>, h: string): seq<Line> {
    if h in m && |m[h]| > 1 then [GroupHeader(h)] + MemberLines(m[h]) else []
  }

  /** The printing loop over the map, in the order the runtime picks. The
      listing holds only group headers and member paths, and it opens with
      a header, so no path is printed outside a group. */
  function GroupLines(m: map<string, seq<Fingerprint>>, order: seq<string>): (r: seq<Line>)
    ensures forall l :: l in r ==> l.GroupHeader? || l.GroupMember?
    ensures r != [] ==> r[0].GroupHeader?
  {
    if |order| == 0 then []
    else
      var block := GroupBlock(m, order[0]);
      assert forall l :: l in block ==> l.GroupHeader? || l.GroupMember? by {
        if block != [] {
          var members := MemberLines(m[order[0]]);
          assert forall l :: l in members ==> l.GroupMember?;
        }
      }
      block + GroupLines(m, order[1..])
  }

  /** A hash is printed exactly when its bucket has more than one member. */
  lemma {:induction false} PrintedHeaders(m: map<string, seq<Fingerprint>>, order: seq<string>)
    requires forall h :: h in m ==> h in order
    ensures forall h :: GroupHeader(h) in GroupLines(m, order) <==> h in m && |m[h]| > 1
  {
    PrintedHeadersAmong(m, order);
  }

  lemma {:induction false} PrintedHeadersAmong(m: map<string, seq<Fingerprint>>, order: seq<string>)
    ensures forall h :: GroupHeader(h) in GroupLines(m, order) <==> h in order && h in m && |m[h]| > 1
  {
    if |order| > 0 {
      PrintedHeadersAmong(m, order[1..]);
      var block := GroupBlock(m, order[0]);
      if order[0] in m && |m[order[0]]| > 1 {
        var members := MemberLines(m[order[0]]);
        assert block == [GroupHeader(order[0])] + members;
        assert forall l :: l in members ==> l.GroupMember?;
      }
      assert forall h :: h in order <==> h == order[0] || h in order[1..];
    }
  }

  /** Every printed hash is immediately followed by the paths of all the
      files in its bucket, in scan order. */
  lemma {:induction false} HeaderFollowedByMembers(m: map<string, seq<Fingerprint>>, order: seq<string>, i: int)
    requires 0 <= i < |GroupLines(m, order)|
    requires GroupLines(m, order)[i].GroupHeader?
    ensures var lines := GroupLines(m, order);
            var h := lines[i].hash;
            && h in m && |m[h]| > 1
            && i + |m[h]| < |lines|
            && forall k :: 0 <= k < |m[h]| ==> lines[i + 1 + k] == GroupMember(m[h][k].path)
    decreases |order|, 1
  {
    if i < |GroupBlock(m, order[0])| {
      HeaderInFirstBlock(m, order, i);
    } else {
      HeaderInLaterBlock(m, order, i);
    }
  }

  /** A header in the first key's block is that block's own header. */
  lemma HeaderInFirstBlock(m: map<string, seq<Fingerprint>>, order: seq<string>, i: int)
    requires |order| > 0 && 0 <= i < |GroupBlock(m, order[0])|
    requires GroupLines(m, order)[i].GroupHeader?
    ensures var lines := GroupLines(m, order);
            var h := lines[i].hash;
            && h in m && |m[h]| > 1
            && i + |m[h]| < |lines|
            && forall k :: 0 <= k < |m[h]| ==> lines[i + 1 + k] == GroupMember(m[h][k].path)
  {
    var block := GroupBlock(m, order[0]);
    var rest := GroupLines(m, order[1..]);
    assert GroupLines(m, order) == block + rest;
    assert block[i].GroupHeader?;
    BlockHeaderFirst(m, order[0], i);
    var h := order[0];
    var members := MemberLines(m[h]);
    forall k | 0 <= k < |m[h]|
      ensures GroupLines(m, order)[i + 1 + k] == GroupMember(m[h][k].path)
    {
      assert (block + rest)[1 + k] == members[k];
    }
  }

  /** A header past the first block is a header of the remaining keys'
      listing, shifted by the first block's length. */
  lemma {:induction false} HeaderInLaterBlock(m: map<string, seq<Fingerprint>>, order: seq<string>, i: int)
    requires |order| > 0 && |GroupBlock(m, order[0])| <= i < |GroupLines(m, order)|
    requires GroupLines(m, order)[i].GroupHeader?
    ensures var lines := GroupLines(m, order);
            var h := lines[i].hash;
            && h in m && |m[h]| > 1
            && i + |m[h]| < |lines|
            && forall k :: 0 <= k < |m[h]| ==> lines[i + 1 + k] == GroupMember(m[h][k].path)
    decreases |order|, 0
  {
    var block := GroupBlock(m, order[0]);
    var rest := GroupLines(m, order[1..]);
    var lines := GroupLines(m, order);
    assert lines == block + rest;
    var j := i - |block|;
    assert lines[i] == rest[j];
    HeaderFollowedByMembers(m, order[1..], j);
    var h := rest[j].hash;
    forall k | 0 <= k < |m[h]|
      ensures lines[i + 1 + k] == GroupMember(m[h][k].path)
    {
      AppendAt(block, rest, i + 1 + k);
    }
  }

  /** Inside one block, only the first line is a header, and the rest of the
      block is the bucket's paths. */
  lemma BlockHeaderFirst(m: map<string, seq<Fingerprint>>, h: string, i: int)
    requires 0 <= i < |GroupBlock(m, h)|
    requires GroupBlock(m, h)[i].GroupHeader?
    ensures i == 0 && h in m && |m[h]| > 1
    ensures GroupBlock(m, h) == [GroupHeader(h)] + MemberLines(m[h])
  {
    var members := MemberLines(m[h]);
    assert GroupBlock(m, h) == [GroupHeader(h)] + members;
  }

  /** The number of printed member paths. */
  function MemberCount(lines: seq<Line>): nat {
    if |lines| == 0 then 0 else (if lines[0].GroupMember? then 1 else 0) + MemberCount(lines[1..])
  }

  lemma {:induction false} MemberCountAppend(a: seq<Line>, b: seq<Line>)
    ensures MemberCount(a + b) == MemberCount(a) + MemberCount(b)
  {
    if |a| == 0 {
      assert a + b == b;
    } else {
      assert (a + b)[1..] == a[1..] + b;
      MemberCountAppend(a[1..], b);
    }
  }

  lemma {:induction false} MemberLinesCount(bucket: seq<Fingerprint>)
    ensures MemberCount(MemberLines(bucket)) == |bucket|
  {
    if |bucket| > 0 {
      MemberLinesCount(bucket[1..]);
      assert MemberLines(bucket)[1..] == MemberLines(bucket[1..]);
    }
  }

  lemma {:induction false} GroupLinesMemberCount(m: map<string, seq<Fingerprint>>, order: seq<string>)
    ensures MemberCount(GroupLines(m, order)) == SumBy(order, DuplicatedTerm(m))
  {
    if |order| == 0 {
    } else {
      GroupLinesMemberCount(m, order[1..]);
      MemberCountAppend(GroupBlock(m, order[0]), GroupLines(m, order[1..]));
      if order[0] in m && |m[order[0]]| > 1 {
        MemberLinesCount(m[order[0]]);
        MemberCountAppend([GroupHeader(order[0])], MemberLines(m[order[0]]));
        assert MemberCount([GroupHeader(order[0])]) == 0 by {
          assert [GroupHeader(order[0])][1..] == [];
        }
      }
      SumByCons(order[0], order[1..], DuplicatedTerm(m));
      assert [order[0]] + order[1..] == order;
    }
  }

  /** The listing and the summary agree: the paths printed under all the
      groups number exactly the "Duplicated files" count. */
  lemma PrintedMembersMatchSummary(filesOnSource: seq<Fingerprint>, order: seq<string>)
    requires IsEnumeration(order, HashesOf(filesOnSource))
    ensures MemberCount(GroupLines(GroupByHash(filesOnSource), order)) == SharedCount(filesOnSource, filesOnSource)
  {
    GroupLinesMemberCount(GroupByHash(filesOnSource), order);
    DuplicatedFilesCountsSharedHashes(filesOnSource, order);
  }

  /** The summary block, printed only at verbosity exactly 2. */
  function Summary(verbosity: int, viewed: int, duplicatedFiles: int, duplicatedSize: int): (r: seq<Line>)
    ensures r != [] <==> verbosity == 2
    ensures forall l :: l in r ==> l.ViewedFiles? || l.DuplicatedFiles? || l.WastedSpace?
    ensures ViewedFiles(viewed) in r <==> verbosity == 2
    ensures DuplicatedFiles(duplicatedFiles) in r <==> verbosity == 2
  {
    if verbosity == 2 then [ViewedFiles(viewed), DuplicatedFiles(duplicatedFiles), WastedSpace(HumanReadableSize(duplicatedSize))]
    else []
  }

  /** Grouping, statistics and printing for the scanned files, with the two
      map iteration orders the runtime picks. */
  method Report(filesOnSource: seq<Fingerprint>, verbosity: int, statsOrder: seq<string>, printOrder: seq<string>)
    returns (lines: seq<Line>)
    requires IsEnumeration(statsOrder, HashesOf(filesOnSource))
    requires IsEnumeration(printOrder, HashesOf(filesOnSource))
    ensures lines == Summary(verbosity, |filesOnSource|, SharedCount(filesOnSource, filesOnSource), WasteScan(filesOnSource))
                     + GroupLines(GroupByHash(filesOnSource), printOrder)
  {
    var duplicateMap := GroupByHash(filesOnSource);
    var summary := [];
    if verbosity == 2 {
      var duplicatedFiles, duplicatedSize := DuplicateStats(filesOnSource, statsOrder);
      summary := [ViewedFiles(|filesOnSource|), DuplicatedFiles(duplicatedFiles), WastedSpace(HumanReadableSize(duplicatedSize))];
    }
    lines := summary + GroupLines(duplicateMap, printOrder);
  }

  /** The summary appears exactly at verbosity 2 (not at 3, unlike
      secure-remove's summary). */
  lemma SummaryOnlyAtTwo(verbosity: int, filesOnSource: seq<Fingerprint>, printOrder: seq<string>)
    ensures var lines := Summary(verbosity, |filesOnSource|, SharedCount(filesOnSource, filesOnSource), WasteScan(filesOnSource))
                         + GroupLines(GroupByHash(filesOnSource), printOrder);
            ViewedFiles(|filesOnSource|) in lines <==> verbosity == 2
  {
    var g := GroupLines(GroupByHash(filesOnSource), printOrder);
    assert ViewedFiles(|filesOnSource|) !in g;
  }

  /** The whole run after flag parsing: walk the tree, then report. A failed
      walk ends the run with its error. */
  method FindDuplicates(cfg: Config, sourceTree: Node, md5: Md5, statsOrder: seq<string>, printOrder: seq<string>)
    returns (r: Result<seq<Line>, Error>)
    requires var walk := ListPathFiles(cfg.sourcePath, sourceTree, cfg.bytesForHash, md5);
             walk.Success? ==>
               IsEnumeration(statsOrder, HashesOf(walk.value)) && IsEnumeration(printOrder, HashesOf(walk.value))
    ensures var walk := ListPathFiles(cfg.sourcePath, sourceTree, cfg.bytesForHash, md5);
            && (walk.Failure? ==> r == Failure(walk.error))
            && (walk.Success? ==>
                  r == Success(Summary(cfg.verbosity, |walk.value|, SharedCount(walk.value, walk.value), WasteScan(walk.value))
                               + GroupLines(GroupByHash(walk.value), printOrder)))
  {
    var filesOnSource :- ListPathFiles(cfg.sourcePath, sourceTree, cfg.bytesForHash, md5);
    var lines := Report(filesOnSource, cfg.verbosity, statsOrder, printOrder);
    r := Success(lines);
  }

  /** With `-b 0` nothing is hashed, every file of a successful walk gets
      the digest of the empty input, and the whole tree falls into at most
      one bucket. */
  lemma ZeroBytesOneBucket(path: string, dir: Node, md5: Md5)
    requires ListPathFiles(path, dir, 0, md5).Success?
    ensures var files := ListPathFiles(path, dir, 0, md5).value;
            && (forall i :: 0 <= i < |files| ==> files[i].hash == Encode(md5([])))
            && GroupByHash(files).Keys <= {Encode(md5([]))}
  {
    var files := ListPathFiles(path, dir, 0, md5).value;
    WalkIsFailFast(path, dir, 0, md5);
    var fs := FileSteps(Steps(path, dir));
    forall i | 0 <= i < |files| ensures files[i].hash == Encode(md5([])) {
      var info := fs[i].info;
      assert FileHash(fs[i].folder, info, 0, md5) == Success(files[i].hash);
      ZeroBytesHashEmptyPrefix(fs[i].folder, info, md5);
    }
    forall h | h in HashesOf(files) ensures h == Encode(md5([])) {
      var f :| f in files && f.hash == h;
    }
  }

  /** Buckets are keyed by hash alone: two files with one hash but different
      sizes share a bucket and are reported as duplicates although they are
      not the same file, and the waste is charged at the first one's size. */
  lemma HashOnlyGroupingMixesSizes()
    ensures var a := Fingerprint("/d/a", 10, "h");
            var b := Fingerprint("/d/b", 3, "h");
            var m := GroupByHash([a, b]);
            && !FilesAreTheSame(a, b)
            && m.Keys == {"h"}
            && m["h"] == [a, b]
            && SharedCount([a, b], [a, b]) == 2
            && WasteScan([a, b]) == 10
  {
    var a := Fingerprint("/d/a", 10, "h");
    var b := Fingerprint("/d/b", 3, "h");
    var files := [a, b];
    assert files[1..] == [b];
    assert [b][1..] == [];
    assert Bucket([b], "h") == [b];
    assert Bucket(files, "h") == [a, b];
    assert HashesOf(files) == {"h"} by {
      assert a in files && b in files;
      forall h | h in HashesOf(files) ensures h == "h" {
        var f :| f in files && f.hash == h;
      }
    }
    assert SharedCount(files, [b]) == 1 by {
      assert SharedCount(files, []) == 0;
    }
    assert files[..1] == [a];
    assert [a][..0] == [];
    assert Bucket([a], "h") == [a] by {
      assert [a][1..] == [];
    }
    assert WasteScan([a]) == 0 by {
      assert Bucket([], "h") == [];
    }
    assert WasteScan(files) == WasteScan([a]) + a.size;
  }
}
