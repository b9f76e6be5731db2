/** secure-remove: lists the files of a source tree that also exist, as far
    as hash and size tell, in a target tree, with statistics and optional
    `rm` commands. Nothing is ever deleted; the commands are only printed. */
module SecureRemove {
  import opened Wrappers
  import opened FileTree
  import opened Comparisons
  import opened Hashes
  import opened Walker
  import opened HumanSize
  import opened Seqs

  /** The parsed command line; `bytesForHash` is already known non-negative. */
  datatype Config = Config(
    sourcePath: string,
    targetPath: string,
    bytesForHash: nat,
    verbosity: int,
    generateDeleteCommands: bool)

  /** One printed line. */
  datatype Line =
    | RemovablePath(path: string)     // verbosity 0
    | YouCanDelete(path: string)      // verbosity 1 and 2
    | DuplicateOn(path: string)       // verbosity 2: the matching target file
    | FilesOnSource(count: nat)
    | FilesOnTarget(count: nat)
    | CanRemove(count: nat)
    | CanFree(size: HumanSize)
    | CommandsHeader
    | Command(text: string)

  predicate HasMatch(file: Fingerprint, target: seq<Fingerprint>) {
    FileExistInList(file, target).Some?
  }

  /** The source files that have a match in the target, in source order. */
  function Removable(source: seq<Fingerprint>, target: seq<Fingerprint>): (r: seq<Fingerprint>)
    ensures |r| <= |source|
    ensures forall i :: 0 <= i < |r| ==> HasMatch(r[i], target)
  {
    if |source| == 0 then []
    else (if HasMatch(source[0], target) then [source[0]] else []) + Removable(source[1..], target)
  }

  /** A file is removable exactly when it is a source file that is the same
      as some target file. */
  lemma {:induction false} RemovableMembers(source: seq<Fingerprint>, target: seq<Fingerprint>)
    ensures forall f :: f in Removable(source, target) <==>
              f in source && exists t :: t in target && FilesAreTheSame(f, t)
  {
    if |source| > 0 {
      RemovableMembers(source[1..], target);
      assert forall f :: f in source <==> f == source[0] || f in source[1..];
    }
  }

  /** Filtering commutes with concatenation, so the removable files keep
      their relative source order. */
  lemma {:induction false} RemovableAppend(a: seq<Fingerprint>, b: seq<Fingerprint>, target: seq<Fingerprint>)
    ensures Removable(a + b, target) == Removable(a, target) + Removable(b, target)
  {
    if |a| == 0 {
      assert a + b == b;
    } else {
      assert (a + b)[1..] == a[1..] + b;
      RemovableAppend(a[1..], b, target);
    }
  }

  function TotalSize(files: seq<Fingerprint>): nat {
    if |files| == 0 then 0 else TotalSize(files[..|files| - 1]) + files[|files| - 1].size
  }

  /** The target file each removable file was matched with. */
  function MatchesOf(files: seq<Fingerprint>, target: seq<Fingerprint>): (r: seq<Fingerprint>)
    requires forall i :: 0 <= i < |files| ==> HasMatch(files[i], target)
    ensures |r| == |files|
    ensures forall i :: 0 <= i < |r| ==> r[i] in target && FilesAreTheSame(files[i], r[i])
  {
    if |files| == 0 then []
    else
      var last := files[|files| - 1];
      assert HasMatch(last, target);
      MatchesOf(files[..|files| - 1], target) + [FileExistInList(last, target).value]
  }

  /** The space to free is summed over the source files; since a match has
      the same size by definition, the matched target files total the same. */
  lemma {:induction false} MatchedSizesAgree(files: seq<Fingerprint>, target: seq<Fingerprint>)
    requires forall i :: 0 <= i < |files| ==> HasMatch(files[i], target)
    ensures TotalSize(MatchesOf(files, target)) == TotalSize(files)
  {
    if |files| > 0 {
      var init := files[..|files| - 1];
      var last := files[|files| - 1];
      assert HasMatch(last, target);
      var duplicate := FileExistInList(last, target).value;
      MatchedSizesAgree(init, target);
      var matches := MatchesOf(files, target);
      assert matches == MatchesOf(init, target) + [duplicate];
      assert matches[..|matches| - 1] == MatchesOf(init, target);
      assert duplicate.size == last.size;
    }
  }

  /** The lines printed for one removable file at a verbosity level;
      levels other than 0, 1 and 2 print nothing per file. */
  function MatchLines(verbosity: int, file: Fingerprint, duplicate: Fingerprint): (r: seq<Line>)
    ensures |r| == (if verbosity == 2 then 2 else if verbosity == 0 || verbosity == 1 then 1 else 0)
    ensures forall i :: 0 <= i < |r| ==>
              (r[i].RemovablePath? || r[i].YouCanDelete? || r[i].DuplicateOn?)
              && r[i].path == (if r[i].DuplicateOn? then duplicate.path else file.path)
  {
    if verbosity == 0 then [RemovablePath(file.path)]
    else if verbosity == 1 then [YouCanDelete(file.path)]
    else if verbosity == 2 then [YouCanDelete(file.path), DuplicateOn(duplicate.path)]
    else []
  }

  /** The lines printed for one source file: its match lines when it has a
      match on the target, nothing otherwise. */
  function FileLines(verbosity: int, file: Fingerprint, target: seq<Fingerprint>): seq<Line> {
    match FileExistInList(file, target)
    case None => []
    case Some(duplicate) => MatchLines(verbosity, file, duplicate)
  }

  /** The per-file lines for a list of files, in order. */
  function ReportLines(verbosity: int, files: seq<Fingerprint>, target: seq<Fingerprint>): seq<Line> {
    if |files| == 0 then []
    else ReportLines(verbosity, files[..|files| - 1], target) + FileLines(verbosity, files[|files| - 1], target)
  }

  /** Per-file lines are only ever path, "You can delete" or "duplicate
      on" lines, never a summary or command line. */
  lemma {:induction false} ReportLinesKinds(verbosity: int, files: seq<Fingerprint>, target: seq<Fingerprint>)
    ensures forall l :: l in ReportLines(verbosity, files, target) ==> l.RemovablePath? || l.YouCanDelete? || l.DuplicateOn?
  {
    if |files| > 0 {
      ReportLinesKinds(verbosity, files[..|files| - 1], target);
    }
  }

  /** At verbosity 0, one bare path per removable file, in order. */
  lemma {:induction false} ReportLinesAtZero(files: seq<Fingerprint>, target: seq<Fingerprint>)
    requires forall i :: 0 <= i < |files| ==> HasMatch(files[i], target)
    ensures var lines := ReportLines(0, files, target);
            |lines| == |files| && forall i :: 0 <= i < |files| ==> lines[i] == RemovablePath(files[i].path)
  {
    if |files| > 0 {
      ReportLinesAtZero(files[..|files| - 1], target);
    }
  }

  /** At verbosity 1, one "You can delete file" line per removable file. */
  lemma {:induction false} ReportLinesAtOne(files: seq<Fingerprint>, target: seq<Fingerprint>)
    requires forall i :: 0 <= i < |files| ==> HasMatch(files[i], target)
    ensures var lines := ReportLines(1, files, target);
            |lines| == |files| && forall i :: 0 <= i < |files| ==> lines[i] == YouCanDelete(files[i].path)
  {
    if |files| > 0 {
      ReportLinesAtOne(files[..|files| - 1], target);
    }
  }

  /** At verbosity 2, each removable file's line is followed by the path of
      the first target file it matched. */
  lemma {:induction false} ReportLinesAtTwo(files: seq<Fingerprint>, target: seq<Fingerprint>)
    requires forall i :: 0 <= i < |files| ==> FileExistInList(files[i], target).Some?
    ensures var lines := ReportLines(2, files, target);
            && |lines| == 2 * |files|
            && forall i :: 0 <= i < |files| ==>
                 && lines[2 * i] == YouCanDelete(files[i].path)
                 && lines[2 * i + 1] == DuplicateOn(FileExistInList(files[i], target).value.path)
  {
    if |files| > 0 {
      var init := files[..|files| - 1];
      var last := files[|files| - 1];
      ReportLinesAtTwo(init, target);
      assert FileExistInList(last, target).Some?;
      var prev := ReportLines(2, init, target);
      var lines := ReportLines(2, files, target);
      var a, b := YouCanDelete(last.path), DuplicateOn(FileExistInList(last, target).value.path);
      assert lines == prev + [a, b];
      forall i | 0 <= i < |files|
        ensures lines[2 * i] == YouCanDelete(files[i].path)
        ensures lines[2 * i + 1] == DuplicateOn(FileExistInList(files[i], target).value.path)
      {
        AppendPairAt(prev, a, b, |init|, i);
        if i < |init| {
          assert files[i] == init[i];
        }
      }
    }
  }

  /** At any other verbosity nothing is printed per file. */
  lemma {:induction false} ReportLinesSilent(verbosity: int, files: seq<Fingerprint>, target: seq<Fingerprint>)
    requires verbosity !in {0, 1, 2}
    ensures ReportLines(verbosity, files, target) == []
  {
    if |files| > 0 {
      ReportLinesSilent(verbosity, files[..|files| - 1], target);
    }
  }

  /** The loop over the source files: collects the removable files, counts
      them, adds up their sizes and prints one entry per removable file. */
  method FindRemovable(filesOnSource: seq<Fingerprint>, filesOnTarget: seq<Fingerprint>, verbosity: int)
    returns (lines: seq<Line>, removableFiles: seq<Fingerprint>, removableFilesCount: nat, possiblyFreeSpace: nat)
    ensures removableFiles == Removable(filesOnSource, filesOnTarget)
    ensures removableFilesCount == |removableFiles|
    ensures possiblyFreeSpace == TotalSize(removableFiles)
    ensures lines == ReportLines(verbosity, removableFiles, filesOnTarget)
  {
    lines, removableFiles, removableFilesCount, possiblyFreeSpace := [], [], 0, 0;
    var i := 0;
    while i < |filesOnSource|
      invariant 0 <= i <= |filesOnSource|
      invariant removableFiles == Removable(filesOnSource[..i], filesOnTarget)
      invariant removableFilesCount == |removableFiles|
      invariant possiblyFreeSpace == TotalSize(removableFiles)
      invariant lines == ReportLines(verbosity, removableFiles, filesOnTarget)
    {
      var file := filesOnSource[i];
      var fileDuplicate := FileExistInList(file, filesOnTarget);
      FindRemovableStep(filesOnSource, filesOnTarget, verbosity, i, removableFiles);
      if fileDuplicate.Some? {
        lines := lines + MatchLines(verbosity, file, fileDuplicate.value);
        possiblyFreeSpace := possiblyFreeSpace + file.size;
        removableFilesCount := removableFilesCount + 1;
        removableFiles := removableFiles + [file];
      }
      i := i + 1;
    }
    assert filesOnSource[..i] == filesOnSource;
  }

  /** One iteration of the loop: a matched file extends the removable files,
      their lines and their total size; an unmatched one changes nothing. */
  lemma FindRemovableStep(source: seq<Fingerprint>, target: seq<Fingerprint>, verbosity: int, i: int, removable: seq<Fingerprint>)
    requires 0 <= i < |source|
    requires removable == Removable(source[..i], target)
    ensures var file := source[i];
            HasMatch(file, target) ==>
              && Removable(source[..i + 1], target) == removable + [file]
              && ReportLines(verbosity, removable + [file], target)
                 == ReportLines(verbosity, removable, target) + MatchLines(verbosity, file, FileExistInList(file, target).value)
              && TotalSize(removable + [file]) == TotalSize(removable) + file.size
    ensures !HasMatch(source[i], target) ==> Removable(source[..i + 1], target) == removable
  {
    var file := source[i];
    TakeSnoc(source, i);
    RemovableSnoc(source[..i], file, target);
    if HasMatch(file, target) {
      ReportLinesSnoc(verbosity, removable, file, target);
    } else {
      assert removable + [] == removable;
    }
  }

  /** One more source file extends the removable files by that file exactly
      when it has a match. */
  lemma RemovableSnoc(init: seq<Fingerprint>, file: Fingerprint, target: seq<Fingerprint>)
    ensures Removable(init + [file], target)
            == Removable(init, target) + (if HasMatch(file, target) then [file] else [])
  {
    RemovableAppend(init, [file], target);
    assert [file][1..] == [];
  }

  /** One more removable file adds its own lines after the earlier ones, and
      its size to the total. */
  lemma ReportLinesSnoc(verbosity: int, files: seq<Fingerprint>, file: Fingerprint, target: seq<Fingerprint>)
    requires HasMatch(file, target)
    ensures ReportLines(verbosity, files + [file], target)
            == ReportLines(verbosity, files, target) + MatchLines(verbosity, file, FileExistInList(file, target).value)
    ensures TotalSize(files + [file]) == TotalSize(files) + file.size
  {
    assert (files + [file])[..|files|] == files;
  }

  /** The summary block, printed only above verbosity 1. */
  function Summary(verbosity: int, sourceCount: nat, targetCount: nat, removableFilesCount: nat, possiblyFreeSpace: nat): (r: seq<Line>)
    ensures r != [] <==> verbosity > 1
    ensures forall l :: l in r ==> l.FilesOnSource? || l.FilesOnTarget? || l.CanRemove? || l.CanFree?
    ensures CanRemove(removableFilesCount) in r <==> verbosity > 1
    ensures CanFree(HumanReadableSize(possiblyFreeSpace)) in r <==> verbosity > 1
  {
    if verbosity > 1 then
      [FilesOnSource(sourceCount), FilesOnTarget(targetCount), CanRemove(removableFilesCount),
       CanFree(HumanReadableSize(possiblyFreeSpace))]
    else []
  }

  /** The position of the first single quote in `s` at or after `from`.
      Inside single quotes a shell takes every character literally up to
      the next single quote, which closes the word. */
  function NextQuote(s: string, from: nat): (r: Option<nat>)
    ensures r.Some? ==> from <= r.value < |s| && s[r.value] == '\''
    ensures r.Some? ==> forall j :: from <= j < r.value ==> s[j] != '\''
    ensures r.None? <==> forall j :: from <= j < |s| ==> s[j] != '\''
    decreases |s| - from
  {
    if from >= |s| then None
    else if s[from] == '\'' then Some(from)
    else NextQuote(s, from + 1)
  }

  /** A shell reads `w` as one single-quoted word holding `contents`: it
      opens with a quote, the quote that closes it is its last character,
      and `contents` stands between the two. */
  predicate IsQuotedWord(w: string, contents: string) {
    && |w| >= 2
    && w[0] == '\''
    && NextQuote(w, 1) == Some(|w| - 1)
    && w[1..|w| - 1] == contents
  }

  /** Quoting `contents` yields one quoted word exactly when `contents`
      holds no single quote. */
  lemma QuotedWordOf(contents: string)
    ensures IsQuotedWord("'" + contents + "'", contents) <==> '\'' !in contents
  {
    var w := "'" + contents + "'";
    assert w[1..|w| - 1] == contents;
    assert forall j :: 1 <= j < |w| - 1 ==> w[j] == contents[j - 1];
    if '\'' !in contents {
      assert forall j :: 1 <= j < |w| - 1 ==> w[j] != '\'' by {
        assert forall j :: 0 <= j < |contents| ==> contents[j] in contents;
      }
      FirstQuoteAt(w, 1, |w| - 1);
    } else {
      var k :| 0 <= k < |contents| && contents[k] == '\'';
      assert w[k + 1] == '\'';
    }
  }

  /** The shell command printed for one removable file: `rm ` and the path
      between single quotes, unescaped, so that the path is one quoted word
      exactly when it holds no single quote. */
  function RmCommand(path: string): (r: string)
    ensures |r| == |path| + 5
    ensures r[..3] == "rm "
    ensures IsQuotedWord(r[3..], path) <==> '\'' !in path
  {
    QuotedWordOf(path);
    var w := "'" + path + "'";
    assert ("rm " + w)[3..] == w;
    "rm " + w
  }

  /** A path holding a single quote breaks out of the quotes: the word that
      opens after `rm ` closes at the path's first quote, before the end of
      the command, and the rest of the path is read as shell text. */
  lemma {:induction false} RmCommandBreaksOutAtFirstQuote(path: string)
    requires '\'' in path
    ensures NextQuote(path, 0).Some?
    ensures NextQuote(RmCommand(path), 4) == Some(4 + NextQuote(path, 0).value)
    ensures 4 + NextQuote(path, 0).value < |RmCommand(path)| - 1
  {
    var c := "rm '" + path + "'";
    assert RmCommand(path) == c;
    var k := NextQuote(path, 0);
    assert k.Some? by {
      var j :| 0 <= j < |path| && path[j] == '\'';
    }
    assert forall j :: 4 <= j < |c| - 1 ==> c[j] == path[j - 4];
    FirstQuoteAt(c, 4, 4 + k.value);
  }

  /** `k` is the first quote at or after `from` exactly when `NextQuote`
      says so. */
  lemma FirstQuoteAt(s: string, from: nat, k: nat)
    requires from <= k < |s| && s[k] == '\''
    requires forall j :: from <= j < k ==> s[j] != '\''
    ensures NextQuote(s, from) == Some(k)
  {
    var q := NextQuote(s, from);
    assert q.Some?;
    assert q.value >= k;
  }

  function RmLines(files: seq<Fingerprint>): (r: seq<Line>)
    ensures |r| == |files|
    ensures forall i :: 0 <= i < |files| ==> r[i] == Command(RmCommand(files[i].path))
  {
    if |files| == 0 then [] else [Command(RmCommand(files[0].path))] + RmLines(files[1..])
  }

  /** The trailing command block, printed only with `-g`. */
  function DeleteCommands(generateDeleteCommands: bool, removableFiles: seq<Fingerprint>): (r: seq<Line>)
    ensures r != [] <==> generateDeleteCommands
    ensures r != [] ==> r[0] == CommandsHeader && forall i :: 1 <= i < |r| ==> r[i].Command?
    ensures forall l :: l in r ==> l == CommandsHeader || l.Command?
    ensures CommandTexts(r) == (if generateDeleteCommands then RmCommands(removableFiles) else [])
  {
    if generateDeleteCommands then
      assert forall l :: l in RmLines(removableFiles) ==> l.Command?;
      RmLinesTexts(removableFiles);
      CommandTextsAppend([CommandsHeader], RmLines(removableFiles));
      CommandTextsOfNone([CommandsHeader]);
      [CommandsHeader] + RmLines(removableFiles)
    else
      CommandTextsOfNone([]);
      []
  }

  /** The texts of the `Command` lines, in order. */
  function CommandTexts(lines: seq<Line>): seq<string> {
    if |lines| == 0 then []
    else (if lines[0].Command? then [lines[0].text] else []) + CommandTexts(lines[1..])
  }

  lemma {:induction false} CommandTextsAppend(a: seq<Line>, b: seq<Line>)
    ensures CommandTexts(a + b) == CommandTexts(a) + CommandTexts(b)
  {
    if |a| == 0 {
      assert a + b == b;
    } else {
      assert (a + b)[1..] == a[1..] + b;
      CommandTextsAppend(a[1..], b);
    }
  }

  lemma {:induction false} CommandTextsOfNone(lines: seq<Line>)
    requires forall l :: l in lines ==> !l.Command?
    ensures CommandTexts(lines) == []
  {
    if |lines| > 0 {
      assert forall l :: l in lines[1..] ==> l in lines;
      CommandTextsOfNone(lines[1..]);
    }
  }

  /** The command texts for a list of files: `rm '<path>'` each, in order. */
  function RmCommands(files: seq<Fingerprint>): (r: seq<string>)
    ensures |r| == |files|
  {
    if |files| == 0 then [] else [RmCommand(files[0].path)] + RmCommands(files[1..])
  }

  lemma {:induction false} RmLinesTexts(files: seq<Fingerprint>)
    ensures CommandTexts(RmLines(files)) == RmCommands(files)
  {
    if |files| > 0 {
      RmLinesTexts(files[1..]);
      assert RmLines(files)[1..] == RmLines(files[1..]);
    }
  }

  /** The printed output: per-file lines, then the summary, then the
      command block. */
  function Output(cfg: Config, filesOnSource: seq<Fingerprint>, filesOnTarget: seq<Fingerprint>): (r: seq<Line>)
    ensures forall i :: 0 <= i < |r| && r[i].Command? ==> cfg.generateDeleteCommands
    ensures forall i, j :: 0 <= i < j < |r| && r[i].Command? ==> r[j].Command?
  {
    var removable := Removable(filesOnSource, filesOnTarget);
    var lines := ReportLines(cfg.verbosity, removable, filesOnTarget);
    var summary := Summary(cfg.verbosity, |filesOnSource|, |filesOnTarget|, |removable|, TotalSize(removable));
    var commands := DeleteCommands(cfg.generateDeleteCommands, removable);
    ReportLinesKinds(cfg.verbosity, removable, filesOnTarget);
    CommandsComeLast(lines + summary, commands);
    lines + summary + commands
  }

  /** Appending a command block to lines that hold no command keeps every
      command after every other line. */
  lemma CommandsComeLast(head: seq<Line>, commands: seq<Line>)
    requires forall l :: l in head ==> !l.Command?
    requires commands != [] ==> !commands[0].Command? && forall i :: 1 <= i < |commands| ==> commands[i].Command?
    ensures var r := head + commands;
            forall i, j :: 0 <= i < j < |r| && r[i].Command? ==> |head| < i && r[j].Command?
  {
    var r := head + commands;
    forall i, j | 0 <= i < j < |r| && r[i].Command?
      ensures |head| < i && r[j].Command?
    {
      if i <= |head| {
        assert false;
      }
      assert r[j] == commands[j - |head|];
    }
  }

  /** With `-g` the output holds exactly one `rm '<path>'` command per
      removable file, in source order, and without it none. */
  lemma {:induction false} OutputCommands(cfg: Config, filesOnSource: seq<Fingerprint>, filesOnTarget: seq<Fingerprint>)
    ensures CommandTexts(Output(cfg, filesOnSource, filesOnTarget))
            == (if cfg.generateDeleteCommands then RmCommands(Removable(filesOnSource, filesOnTarget)) else [])
  {
    var removable := Removable(filesOnSource, filesOnTarget);
    var lines := ReportLines(cfg.verbosity, removable, filesOnTarget);
    var summary := Summary(cfg.verbosity, |filesOnSource|, |filesOnTarget|, |removable|, TotalSize(removable));
    var commands := DeleteCommands(cfg.generateDeleteCommands, removable);
    ReportLinesKinds(cfg.verbosity, removable, filesOnTarget);
    CommandTextsOfNone(lines);
    CommandTextsOfNone(summary);
    CommandTextsAppend(lines, summary);
    CommandTextsAppend(lines + summary, commands);
  }

  /** The summary, with the removable count and the space to free, appears
      exactly above verbosity 1. */
  lemma {:induction false} OutputSummary(cfg: Config, filesOnSource: seq<Fingerprint>, filesOnTarget: seq<Fingerprint>)
    ensures var out := Output(cfg, filesOnSource, filesOnTarget);
            var removable := Removable(filesOnSource, filesOnTarget);
            && (CanRemove(|removable|) in out <==> cfg.verbosity > 1)
            && (CanFree(HumanReadableSize(TotalSize(removable))) in out <==> cfg.verbosity > 1)
  {
    var removable := Removable(filesOnSource, filesOnTarget);
    var lines := ReportLines(cfg.verbosity, removable, filesOnTarget);
    var summary := Summary(cfg.verbosity, |filesOnSource|, |filesOnTarget|, |removable|, TotalSize(removable));
    var commands := DeleteCommands(cfg.generateDeleteCommands, removable);
    var out := lines + summary + commands;
    assert out == Output(cfg, filesOnSource, filesOnTarget);
    ReportLinesKinds(cfg.verbosity, removable, filesOnTarget);
    var free := CanFree(HumanReadableSize(TotalSize(removable)));
    assert CanRemove(|removable|) !in lines && free !in lines;
    assert CanRemove(|removable|) !in commands && free !in commands;
  }

  /** The whole run after flag parsing: walk the source, then the target,
      match, and print. A failed walk of either tree ends the run with its
      error, the source's first. */
  method SecureRemove(cfg: Config, sourceTree: Node, targetTree: Node, md5: Md5) returns (r: Result<seq<Line>, Error>)
    ensures var src := ListPathFiles(cfg.sourcePath, sourceTree, cfg.bytesForHash, md5);
            var tgt := ListPathFiles(cfg.targetPath, targetTree, cfg.bytesForHash, md5);
            && (r.Success? <==> src.Success? && tgt.Success?)
            && (src.Failure? ==> r == Failure(src.error))
            && (src.Success? && tgt.Failure? ==> r == Failure(tgt.error))
            && (r.Success? ==> r.value == Output(cfg, src.value, tgt.value))
  {
    var filesOnSource :- ListPathFiles(cfg.sourcePath, sourceTree, cfg.bytesForHash, md5);
    var filesOnTarget :- ListPathFiles(cfg.targetPath, targetTree, cfg.bytesForHash, md5);
    var lines, removableFiles, removableFilesCount, possiblyFreeSpace := FindRemovable(filesOnSource, filesOnTarget, cfg.verbosity);
    var summary := Summary(cfg.verbosity, |filesOnSource|, |filesOnTarget|, removableFilesCount, possiblyFreeSpace);
    var commands := DeleteCommands(cfg.generateDeleteCommands, removableFiles);
    r := Success(lines + summary + commands);
  }

  /** Redundancy is directional: a source file matched by two target files
      is one removable file, while in the other direction both are. */
  lemma RedundancyIsDirectional()
    ensures var x := Fingerprint("/s/a", 3, "h");
            var y1 := Fingerprint("/t/a", 3, "h");
            var y2 := Fingerprint("/t/b", 3, "h");
            Removable([x], [y1, y2]) == [x] && Removable([y1, y2], [x]) == [y1, y2]
  {
    var x := Fingerprint("/s/a", 3, "h");
    var y1 := Fingerprint("/t/a", 3, "h");
    var y2 := Fingerprint("/t/b", 3, "h");
    assert [y1, y2][1..] == [y2];
    assert FileExistInList(x, [y1, y2]) == Some(y1);
  }
}
