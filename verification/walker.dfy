/** The tree walk `listPathFiles` and the first-match search
    `fileExistInList`, shared by both commands. */
module Walker {
  import opened Wrappers
  import opened Hex
  import opened FileTree
  import opened Comparisons
  import opened Hashes

  /** Fingerprints every regular file under the directory `dir` found at
      `path`, depth first in listing order. The first failure anywhere
      aborts the walk and no list is returned. */
  function ListPathFiles(path: string, dir: Node, bytesForHash: nat, md5: Md5): (r: Result<seq<Fingerprint>, Error>)
    ensures r.Success? ==> AllUnder(path, r.value)
    decreases dir, 0
  {
    match dir
    case File(_) => Failure(ReadDirFailed(path))
    case Dir(_, listable, children) =>
      if !listable then Failure(ReadDirFailed(path))
      else ListEntries(path, children, bytesForHash, md5)
  }

  /** The loop over one directory's listing. */
  function ListEntries(path: string, entries: seq<Node>, bytesForHash: nat, md5: Md5): (r: Result<seq<Fingerprint>, Error>)
    ensures r.Success? ==> AllUnder(path, r.value)
    decreases entries, 2
  {
    if |entries| == 0 then Success([])
    else
      var first := ListEntry(path, entries[0], bytesForHash, md5);
      var rest := ListEntries(path, entries[1..], bytesForHash, md5);
      AllUnderThen(path, first, rest);
      Then(first, rest)
  }

  /** One iteration of that loop: descend into a sub-directory, or hash a
      file into a one-element list. */
  function ListEntry(path: string, entry: Node, bytesForHash: nat, md5: Md5): (r: Result<seq<Fingerprint>, Error>)
    ensures r.Success? ==> AllUnder(path, r.value)
    decreases entry, 1
  {
    match entry
    case Dir(name, _, _) =>
      var sub := ListPathFiles(Join(path, name), entry, bytesForHash, md5);
      if sub.Success? then UnderSubfolder(path, name, sub.value); sub else sub
    case File(info) =>
      match FileHash(path, info, bytesForHash, md5)
      case Failure(e) => Failure(e)
      case Success(hash) => Success([Fingerprint(Join(path, info.name), info.listedSize, hash)])
  }

  /** Every fingerprint names a file below `folder` and carries a
      32-digit lowercase hex hash. */
  predicate AllUnder(folder: string, fs: seq<Fingerprint>) {
    forall i :: 0 <= i < |fs| ==> folder + "/" <= fs[i].path && |fs[i].hash| == 32 && IsLowerHex(fs[i].hash)
  }

  lemma AllUnderThen(folder: string, first: Result<seq<Fingerprint>, Error>, second: Result<seq<Fingerprint>, Error>)
    requires first.Success? ==> AllUnder(folder, first.value)
    requires second.Success? ==> AllUnder(folder, second.value)
    ensures Then(first, second).Success? ==> AllUnder(folder, Then(first, second).value)
  {
    if first.Success? && second.Success? {
      var xs, ys := first.value, second.value;
      assert forall i :: 0 <= i < |xs + ys| ==> (xs + ys)[i] == if i < |xs| then xs[i] else ys[i - |xs|];
    }
  }

  /** A file below a sub-folder is below the folder itself. */
  lemma UnderSubfolder(folder: string, name: string, fs: seq<Fingerprint>)
    requires AllUnder(Join(folder, name), fs)
    ensures AllUnder(folder, fs)
  {
    forall i | 0 <= i < |fs|
      ensures folder + "/" <= fs[i].path
    {
      var sub := Join(folder, name) + "/";
      var p := fs[i].path;
      assert sub <= p;
      assert p[..|folder| + 1] == sub[..|folder| + 1];
      assert sub[..|folder| + 1] == folder + "/";
    }
  }

  /** Sequential composition of two list-producing results: the first
      failure wins, otherwise the lists are concatenated. */
  function Then<T, E>(first: Result<seq<T>, E>, second: Result<seq<T>, E>): Result<seq<T>, E> {
    match first
    case Failure(e) => Failure(e)
    case Success(xs) =>
      match second
      case Failure(e) => Failure(e)
      case Success(ys) => Success(xs + ys)
  }

  // ---------------------------------------------------------------------
  // Reference semantics: the walk as a flat sequence of I/O steps.
  // ---------------------------------------------------------------------

  /** One I/O action of the walk: listing a directory or hashing a file. */
  datatype Step =
    | ListDir(path: string, listable: bool)
    | HashFile(folder: string, info: FileEntry)

  /** The steps a walk of `dir` at `path` performs, in order: list the
      directory, then visit its entries one after another, descending into
      sub-directories on the spot. An unlistable directory contributes only
      its own failed listing. */
  function Steps(path: string, dir: Node): seq<Step>
    decreases dir, 0
  {
    match dir
    case File(_) => [ListDir(path, false)]
    case Dir(_, listable, children) =>
      [ListDir(path, listable)] + (if listable then EntrySteps(path, children) else [])
  }

  function EntrySteps(path: string, entries: seq<Node>): seq<Step>
    decreases entries, 2
  {
    if |entries| == 0 then []
    else EntryStep(path, entries[0]) + EntrySteps(path, entries[1..])
  }

  function EntryStep(path: string, entry: Node): seq<Step>
    decreases entry, 1
  {
    match entry
    case Dir(name, _, _) => Steps(Join(path, name), entry)
    case File(info) => [HashFile(path, info)]
  }

  predicate StepOk(s: Step, bytesForHash: nat, md5: Md5) {
    match s
    case ListDir(_, listable) => listable
    case HashFile(folder, info) => FileHash(folder, info, bytesForHash, md5).Success?
  }

  function StepError(s: Step, bytesForHash: nat, md5: Md5): Error
    requires !StepOk(s, bytesForHash, md5)
  {
    match s
    case ListDir(path, _) => ReadDirFailed(path)
    case HashFile(folder, info) => FileHash(folder, info, bytesForHash, md5).error
  }

  /** What a successful step adds to the result: nothing for a listing, one
      fingerprint for a hashed file. */
  function Emitted(s: Step, bytesForHash: nat, md5: Md5): seq<Fingerprint>
    requires StepOk(s, bytesForHash, md5)
  {
    match s
    case ListDir(_, _) => []
    case HashFile(folder, info) =>
      [Fingerprint(Join(folder, info.name), info.listedSize, FileHash(folder, info, bytesForHash, md5).value)]
  }

  /** The file-hashing steps, in order. */
  function FileSteps(steps: seq<Step>): (r: seq<Step>)
    ensures forall i :: 0 <= i < |r| ==> r[i].HashFile?
    ensures forall s :: s in r ==> s in steps
  {
    if |steps| == 0 then []
    else (if steps[0].HashFile? then [steps[0]] else []) + FileSteps(steps[1..])
  }

  predicate AllOk(steps: seq<Step>, bytesForHash: nat, md5: Md5) {
    forall i :: 0 <= i < |steps| ==> StepOk(steps[i], bytesForHash, md5)
  }

  predicate IsFirstFailure(steps: seq<Step>, k: int, bytesForHash: nat, md5: Md5) {
    && 0 <= k < |steps|
    && !StepOk(steps[k], bytesForHash, md5)
    && AllOk(steps[..k], bytesForHash, md5)
  }

  /** Running a flat step sequence: stop at the first failing step with its
      error, otherwise collect what the steps emit. */
  function RunSteps(steps: seq<Step>, bytesForHash: nat, md5: Md5): (r: Result<seq<Fingerprint>, Error>)
    ensures r.Success? <==> AllOk(steps, bytesForHash, md5)
    ensures r.Failure? ==>
              exists k :: IsFirstFailure(steps, k, bytesForHash, md5) && r.error == StepError(steps[k], bytesForHash, md5)
  {
    if |steps| == 0 then Success([])
    else if !StepOk(steps[0], bytesForHash, md5) then
      assert IsFirstFailure(steps, 0, bytesForHash, md5);
      Failure(StepError(steps[0], bytesForHash, md5))
    else
      var rest := RunSteps(steps[1..], bytesForHash, md5);
      assert forall i :: 1 <= i < |steps| ==> steps[i] == steps[1..][i - 1];
      if rest.Failure? then
        ghost var k :| IsFirstFailure(steps[1..], k, bytesForHash, md5) && rest.error == StepError(steps[1..][k], bytesForHash, md5);
        assert steps[..k + 1] == [steps[0]] + steps[1..][..k];
        assert IsFirstFailure(steps, k + 1, bytesForHash, md5);
        Failure(rest.error)
      else
        Success(Emitted(steps[0], bytesForHash, md5) + rest.value)
  }

  lemma {:induction false} RunStepsAppend(a: seq<Step>, b: seq<Step>, bytesForHash: nat, md5: Md5)
    ensures RunSteps(a + b, bytesForHash, md5) == Then(RunSteps(a, bytesForHash, md5), RunSteps(b, bytesForHash, md5))
  {
    if |a| == 0 {
      assert a + b == b;
      var rb := RunSteps(b, bytesForHash, md5);
      if rb.Success? {
        assert [] + rb.value == rb.value;
      }
    } else {
      assert (a + b)[0] == a[0];
      assert (a + b)[1..] == a[1..] + b;
      RunStepsAppend(a[1..], b, bytesForHash, md5);
      if StepOk(a[0], bytesForHash, md5) {
        var e := Emitted(a[0], bytesForHash, md5);
        var ra, rb := RunSteps(a[1..], bytesForHash, md5), RunSteps(b, bytesForHash, md5);
        if ra.Success? && rb.Success? {
          assert e + (ra.value + rb.value) == (e + ra.value) + rb.value;
        }
      }
    }
  }

  /** The recursive walk is exactly the flat run of its steps. */
  lemma {:induction false} WalkRunsSteps(path: string, dir: Node, bytesForHash: nat, md5: Md5)
    ensures ListPathFiles(path, dir, bytesForHash, md5) == RunSteps(Steps(path, dir), bytesForHash, md5)
    decreases dir, 0
  {
    match dir
    case File(_) =>
    case Dir(_, listable, children) =>
      if listable {
        EntriesRunSteps(path, children, bytesForHash, md5);
        RunStepsAppend([ListDir(path, listable)], EntrySteps(path, children), bytesForHash, md5);
        var s := ListDir(path, listable);
        assert [s][1..] == [];
        assert RunSteps([], bytesForHash, md5) == Success([]);
        assert Emitted(s, bytesForHash, md5) == [];
        assert RunSteps([s], bytesForHash, md5).Success?;
        assert RunSteps([s], bytesForHash, md5).value == [];
        var rc := RunSteps(EntrySteps(path, children), bytesForHash, md5);
        if rc.Success? {
          assert [] + rc.value == rc.value;
        }
      }
  }

  lemma {:induction false} EntriesRunSteps(path: string, entries: seq<Node>, bytesForHash: nat, md5: Md5)
    ensures ListEntries(path, entries, bytesForHash, md5) == RunSteps(EntrySteps(path, entries), bytesForHash, md5)
    decreases entries, 2
  {
    if |entries| > 0 {
      EntryRunsSteps(path, entries[0], bytesForHash, md5);
      EntriesRunSteps(path, entries[1..], bytesForHash, md5);
      RunStepsAppend(EntryStep(path, entries[0]), EntrySteps(path, entries[1..]), bytesForHash, md5);
    }
  }

  lemma {:induction false} EntryRunsSteps(path: string, entry: Node, bytesForHash: nat, md5: Md5)
    ensures ListEntry(path, entry, bytesForHash, md5) == RunSteps(EntryStep(path, entry), bytesForHash, md5)
    decreases entry, 1
  {
    match entry
    case Dir(name, _, _) =>
      WalkRunsSteps(Join(path, name), entry, bytesForHash, md5);
    case File(info) =>
      var s := HashFile(path, info);
      assert [s][1..] == [];
      if StepOk(s, bytesForHash, md5) {
        assert Emitted(s, bytesForHash, md5) + [] == Emitted(s, bytesForHash, md5);
      }
  }

  /** `f` is the fingerprint of the file that step `s` hashes: its joined
      path, its listed size and its hash. */
  predicate FingerprintOf(f: Fingerprint, s: Step, bytesForHash: nat, md5: Md5) {
    && s.HashFile?
    && f.path == Join(s.folder, s.info.name)
    && f.size == s.info.listedSize
    && FileHash(s.folder, s.info, bytesForHash, md5) == Success(f.hash)
  }

  /** When every step succeeds, the run emits one fingerprint per file step,
      in order, with the file's joined path, listed size and hash. */
  lemma {:induction false} RunEmitsOnePerFile(steps: seq<Step>, bytesForHash: nat, md5: Md5)
    requires AllOk(steps, bytesForHash, md5)
    ensures var r := RunSteps(steps, bytesForHash, md5).value;
            var fs := FileSteps(steps);
            && |r| == |fs|
            && forall i :: 0 <= i < |fs| ==> FingerprintOf(r[i], fs[i], bytesForHash, md5)
  {
    if |steps| > 0 {
      var tail := steps[1..];
      assert AllOk(tail, bytesForHash, md5) by {
        assert forall i :: 1 <= i < |steps| ==> steps[i] == tail[i - 1];
      }
      RunEmitsOnePerFile(tail, bytesForHash, md5);
      assert StepOk(steps[0], bytesForHash, md5);
      var r' := RunSteps(tail, bytesForHash, md5).value;
      var fs' := FileSteps(tail);
      var e := Emitted(steps[0], bytesForHash, md5);
      assert RunSteps(steps, bytesForHash, md5).value == e + r';
      if steps[0].HashFile? {
        assert FileSteps(steps) == [steps[0]] + fs';
        EmittedShift(e, r', steps[0], fs', bytesForHash, md5);
      } else {
        assert FileSteps(steps) == fs';
        assert e == [];
        assert e + r' == r';
      }
    }
  }

  /** Putting one file step and its fingerprint in front of a matching pair
      of sequences keeps them matching. */
  lemma EmittedShift(e: seq<Fingerprint>, r: seq<Fingerprint>, s: Step, fs: seq<Step>, bytesForHash: nat, md5: Md5)
    requires s.HashFile? && StepOk(s, bytesForHash, md5)
    requires e == Emitted(s, bytesForHash, md5)
    requires |r| == |fs|
    requires forall i :: 0 <= i < |fs| ==> FingerprintOf(r[i], fs[i], bytesForHash, md5)
    ensures |e + r| == |[s] + fs|
    ensures forall i :: 0 <= i < |[s] + fs| ==> FingerprintOf((e + r)[i], ([s] + fs)[i], bytesForHash, md5)
  {
    assert FingerprintOf(e[0], s, bytesForHash, md5);
    forall i | 0 <= i < |[s] + fs|
      ensures FingerprintOf((e + r)[i], ([s] + fs)[i], bytesForHash, md5)
    {
      if i > 0 {
        assert (e + r)[i] == r[i - 1] && ([s] + fs)[i] == fs[i - 1];
      }
    }
  }

  /** All or nothing, first error wins: the walk succeeds exactly when every
      listing and every hashing step it performs succeeds; on failure it
      reports the error of the first step that failed; on success it yields
      one fingerprint per regular file, in walk order, carrying the file's
      joined path, its listed size and its hash. */
  lemma WalkIsFailFast(path: string, dir: Node, bytesForHash: nat, md5: Md5)
    ensures var r := ListPathFiles(path, dir, bytesForHash, md5);
            var steps := Steps(path, dir);
            && (r.Success? <==> AllOk(steps, bytesForHash, md5))
            && (r.Failure? ==>
                  exists k :: IsFirstFailure(steps, k, bytesForHash, md5) && r.error == StepError(steps[k], bytesForHash, md5))
            && (r.Success? ==>
                  var fs := FileSteps(steps);
                  && |r.value| == |fs|
                  && forall i :: 0 <= i < |fs| ==>
                       && r.value[i].path == Join(fs[i].folder, fs[i].info.name)
                       && r.value[i].size == fs[i].info.listedSize
                       && FileHash(fs[i].folder, fs[i].info, bytesForHash, md5) == Success(r.value[i].hash))
  {
    WalkRunsSteps(path, dir, bytesForHash, md5);
    if AllOk(Steps(path, dir), bytesForHash, md5) {
      RunEmitsOnePerFile(Steps(path, dir), bytesForHash, md5);
      var r := ListPathFiles(path, dir, bytesForHash, md5).value;
      var fs := FileSteps(Steps(path, dir));
      assert forall i :: 0 <= i < |fs| ==> FingerprintOf(r[i], fs[i], bytesForHash, md5);
    }
  }

  /** The first element of `list` that is the same file as `file`, or `None`
      when there is none. */
  function FileExistInList(file: Fingerprint, list: seq<Fingerprint>): (r: Option<Fingerprint>)
    ensures r.None? <==> forall i :: 0 <= i < |list| ==> !FilesAreTheSame(file, list[i])
    ensures r.Some? ==> r.value in list && FilesAreTheSame(file, r.value)
  {
    if |list| == 0 then None
    else if FilesAreTheSame(file, list[0]) then Some(list[0])
    else
      var r := FileExistInList(file, list[1..]);
      assert forall i :: 1 <= i < |list| ==> list[i] == list[1..][i - 1];
      r
  }

  /** The match returned is the first one in list order: every earlier
      element is not the same file. */
  lemma {:induction false} FileExistInListIsFirst(file: Fingerprint, list: seq<Fingerprint>)
    requires FileExistInList(file, list).Some?
    ensures exists i :: 0 <= i < |list| && list[i] == FileExistInList(file, list).value
                        && forall j :: 0 <= j < i ==> !FilesAreTheSame(file, list[j])
  {
    if !FilesAreTheSame(file, list[0]) {
      var tail := list[1..];
      FileExistInListIsFirst(file, tail);
      var i :| 0 <= i < |tail| && tail[i] == FileExistInList(file, tail).value
               && forall j :: 0 <= j < i ==> !FilesAreTheSame(file, tail[j]);
      assert list[i + 1] == tail[i];
      assert forall j :: 1 <= j < i + 1 ==> list[j] == tail[j - 1];
    }
  }
}
