/** The numpy array dumper: a file that numpy arrays are saved to one after
    another and loaded back from, with the guards of its small state
    machine (open, close, clean, write, read).

    The file system is not modelled: the temporary directory and the unique
    file name the dumper would create are parameters, and the file is
    represented by the mode it was opened with. */
module Dumper {
  import opened Wrappers

  /** The modes `open` accepts: "r", "w" and "w+". */
  datatype Mode = Read | Write | ReadWrite

  /** The mode string Python's binary file object reports after opening with
      `mode + "b"`: "rb", "wb", and "rb+" for "w+b" (a file open for reading
      and writing reports itself as "rb+", whatever the mode it was opened
      with). */
  function ReportedMode(m: Mode): string {
    match m
    case Read => "rb"
    case Write => "wb"
    case ReadWrite => "rb+"
  }

  /** The modes that allow saving, and loading. */
  predicate Writable(m: Mode) {
    m == Write || m == ReadWrite
  }

  predicate Readable(m: Mode) {
    m == Read || m == ReadWrite
  }

  /** The dumper's fields.  `dir` and `name` are the directory and file name
      it was given (a `str` that may be empty, hence falsy); `path` is set by
      the first `open`; `file` is the mode of the open file, if any. */
  datatype Dumper = Dumper(
    dir: Option<string>,
    dirIsTmp: bool,
    name: Option<string>,
    path: Option<string>,
    fileIsTmp: bool,
    rm: bool,
    saved: nat,
    file: Option<Mode>)

  /** Python's truth value of an optional string. */
  predicate Given(s: Option<string>) {
    s.Some? && s.value != ""
  }

  /** `dir / name`. */
  function Join(dir: string, name: string): string {
    dir + "/" + name
  }

  /** A new dumper: nothing resolved, nothing saved, not open. */
  function New(dir: Option<string>, name: Option<string>, rm: bool): (d: Dumper)
    ensures d.file.None? && d.path.None? && d.saved == 0 && !d.dirIsTmp && !d.fileIsTmp
  {
    Dumper(dir, false, name, None, false, rm, 0, None)
  }

  /** Why a call is refused (all are `ValueError`s). */
  datatype DumperError = AlreadyOpened | NotOpened | StillOpened | NotForWriting | NotForReading

  /** Where the file lives: resolved once by the first `open`, from the
      given directory (or a new temporary one, `tmpDir`) and the given name
      (or a new unique file in that directory, `uniqueName`). */
  function Resolved(d: Dumper, tmpDir: string, uniqueName: string): (r: Dumper)
    requires tmpDir != "" && uniqueName != ""
    ensures r.path.Some?
    ensures d.path.None? ==> Given(r.dir)
    ensures d.path.Some? ==> r == d
    ensures r.saved == d.saved && r.file == d.file && r.rm == d.rm
  {
    if d.path.Some? then d
    else
      var d1 := if Given(d.dir) then d else d.(dir := Some(tmpDir), dirIsTmp := true);
      if Given(d1.name) then d1.(path := Some(Join(d1.dir.value, d1.name.value)))
      else d1.(path := Some(Join(d1.dir.value, uniqueName)), name := Some(uniqueName))
  }

  /** `open(mode)`: refused on an open dumper; otherwise resolves the path
      and opens the file.  `file_is_tmp` is never set, as written. */
  function Open(d: Dumper, m: Mode, tmpDir: string, uniqueName: string): (r: Result<Dumper, DumperError>)
    requires tmpDir != "" && uniqueName != ""
    ensures r.Failure? <==> d.file.Some?
    ensures r.Failure? ==> r.error == AlreadyOpened
    ensures r.Success? ==> r.value.file == Some(m) && r.value.path.Some? && r.value.saved == d.saved
    ensures r.Success? ==> r.value.fileIsTmp == d.fileIsTmp
    ensures r.Success? && d.path.Some? ==> r.value == d.(file := Some(m))
  {
    if d.file.Some? then Failure(AlreadyOpened)
    else Success(Resolved(d, tmpDir, uniqueName).(file := Some(m)))
  }

  /** `close()`: refused unless open. */
  function Close(d: Dumper): (r: Result<Dumper, DumperError>)
    ensures r.Failure? <==> d.file.None?
    ensures r.Failure? ==> r.error == NotOpened
    ensures r.Success? ==> r.value.file.None? && r.value.(file := d.file) == d
  {
    if d.file.None? then Failure(NotOpened) else Success(d.(file := None))
  }

  /** What `clean()` removes: the file and the directory, when each was
      created by the dumper and removal was asked for. */
  datatype Removal = RemoveFile(file: string) | RemoveDir(dir: string)

  /** `clean()`: refused while open; nothing to do before a path was
      resolved. */
  function Clean(d: Dumper): (r: Result<seq<Removal>, DumperError>)
    ensures r.Failure? <==> d.file.Some?
    ensures r.Failure? ==> r.error == StillOpened
    ensures r.Success? && d.path.None? ==> r.value == []
    ensures r.Success? ==> (forall x :: x in r.value ==> d.rm)
    ensures r.Success? ==> (forall f :: RemoveFile(f) in r.value ==> d.fileIsTmp)
    ensures r.Success? ==> (forall f :: RemoveDir(f) in r.value ==> d.dirIsTmp)
  {
    if d.file.Some? then Failure(StillOpened)
    else if d.path.None? || d.dir.None? then Success([])
    else
      Success((if d.fileIsTmp && d.rm then [RemoveFile(d.path.value)] else [])
              + (if d.dirIsTmp && d.rm then [RemoveDir(d.dir.value)] else []))
  }

  /** `write_data` as written: refused unless open, and unless the reported
      mode string contains "w"; a save counts one more array. */
  function WriteDataAsWritten(d: Dumper): (r: Result<Dumper, DumperError>)
    ensures r.Failure? <==> d.file.None? || 'w' !in ReportedMode(d.file.value)
    ensures r.Success? ==> r.value == d.(saved := d.saved + 1)
  {
    if d.file.None? then Failure(NotOpened)
    else if 'w' !in ReportedMode(d.file.value) then Failure(NotForWriting)
    else Success(d.(saved := d.saved + 1))
  }

  /** `write_data` as intended: refused unless open for writing. */
  function WriteData(d: Dumper): (r: Result<Dumper, DumperError>)
    ensures r.Failure? <==> d.file.None? || !Writable(d.file.value)
    ensures r.Failure? ==> r.error == (if d.file.None? then NotOpened else NotForWriting)
    ensures r.Success? ==> r.value == d.(saved := d.saved + 1)
  {
    if d.file.None? then Failure(NotOpened)
    else if !Writable(d.file.value) then Failure(NotForWriting)
    else Success(d.(saved := d.saved + 1))
  }

  /** `read_data`: refused unless open and the reported mode contains "r";
      the array loaded is the file system's business. */
  function ReadData(d: Dumper): (r: Result<Dumper, DumperError>)
    ensures r.Failure? <==> d.file.None? || !Readable(d.file.value)
    ensures r.Success? ==> r.value == d
  {
    if d.file.None? then Failure(NotOpened)
    else if 'r' !in ReportedMode(d.file.value) then Failure(NotForReading)
    else Success(d)
  }

  /** As written, a dumper opened with the default mode "w+" refuses every
      write, while "w" works. */
  lemma DefaultModeRefusesWrites(d: Dumper, tmpDir: string, uniqueName: string)
    requires tmpDir != "" && uniqueName != "" && d.file.None?
    ensures WriteDataAsWritten(Open(d, ReadWrite, tmpDir, uniqueName).value) == Failure(NotForWriting)
    ensures WriteDataAsWritten(Open(d, Write, tmpDir, uniqueName).value).Success?
    ensures WriteData(Open(d, ReadWrite, tmpDir, uniqueName).value).Success?
  {
    assert 'w' in ReportedMode(Write);
    assert 'r' in ReportedMode(ReadWrite) && 'w' !in ReportedMode(ReadWrite);
  }

  /** The reported mode says what the file allows, except that "w+" loses
      its "w". */
  lemma ReportedModeAllows(m: Mode)
    ensures 'r' in ReportedMode(m) <==> Readable(m)
    ensures 'w' in ReportedMode(m) <==> m == Write
  {
    assert ReportedMode(Read)[0] == 'r' && ReportedMode(ReadWrite)[0] == 'r';
    assert ReportedMode(Write)[0] == 'w';
  }

  /** `k` writes in a row, stopping at the first refusal. */
  function WriteMany(d: Dumper, k: nat): Result<Dumper, DumperError>
    decreases k
  {
    if k == 0 then Success(d)
    else
      match WriteData(d)
      case Failure(e) => Failure(e)
      case Success(d1) => WriteMany(d1, k - 1)
  }

  /** A dumper opened for writing saves any number of arrays, counting each
      once, and changes nothing else. */
  lemma {:induction false} WritesCount(d: Dumper, k: nat)
    requires d.file.Some? && Writable(d.file.value)
    ensures WriteMany(d, k) == Success(d.(saved := d.saved + k))
    decreases k
  {
    if k > 0 {
      WritesCount(d.(saved := d.saved + 1), k - 1);
    }
  }

  /** Opening again after a close reuses the file of the first open, so a
      dumper saves to and loads from one file over its whole life. */
  lemma ReopenSameFile(d: Dumper, m1: Mode, m2: Mode, tmpDir: string, uniqueName: string, tmpDir2: string, uniqueName2: string)
    requires tmpDir != "" && uniqueName != "" && tmpDir2 != "" && uniqueName2 != "" && d.file.None?
    ensures var d1 := Close(Open(d, m1, tmpDir, uniqueName).value).value;
            && d1.file.None?
            && Open(d1, m2, tmpDir2, uniqueName2).Success?
            && Open(d1, m2, tmpDir2, uniqueName2).value.path == d1.path
  {
  }

  /** Nothing sets `file_is_tmp`, so `clean()` never removes the file it
      created: a dumper with no directory and no name, opened and closed,
      only tries to remove the temporary directory, which still holds the
      file. */
  lemma CleanKeepsCreatedFile()
    ensures var d := Close(Open(New(None, None, true), Write, "/tmp/a", "b.npy").value).value;
            && d.path == Some("/tmp/a/b.npy")
            && Clean(d) == Success([RemoveDir("/tmp/a")])
  {
    var d := Close(Open(New(None, None, true), Write, "/tmp/a", "b.npy").value).value;
    assert d == Dumper(Some("/tmp/a"), true, Some("b.npy"), Some(Join("/tmp/a", "b.npy")), false, true, 0, None);
    assert Join("/tmp/a", "b.npy") == "/tmp/a/b.npy";
    assert [] + [RemoveDir("/tmp/a")] == [RemoveDir("/tmp/a")];
  }

  /** `open` as intended: as written, but a file the dumper created itself is
      marked temporary. */
  function OpenMarkingCreated(d: Dumper, m: Mode, tmpDir: string, uniqueName: string): (r: Result<Dumper, DumperError>)
    requires tmpDir != "" && uniqueName != ""
    ensures r.Failure? <==> d.file.Some?
    ensures r.Success? ==> r.value.fileIsTmp == (d.fileIsTmp || (d.path.None? && !Given(d.name)))
  {
    match Open(d, m, tmpDir, uniqueName)
    case Failure(e) => Failure(e)
    case Success(d1) =>
      Success(if d.path.None? && !Given(d.name) then d1.(fileIsTmp := true) else d1)
  }

  /** With that mark, cleaning a dumper left to pick its own directory and
      name removes both the file and the directory. */
  lemma CleanRemovesCreatedFile(tmpDir: string, uniqueName: string, m: Mode)
    requires tmpDir != "" && uniqueName != ""
    ensures var d := Close(OpenMarkingCreated(New(None, None, true), m, tmpDir, uniqueName).value).value;
            Clean(d) == Success([RemoveFile(Join(tmpDir, uniqueName)), RemoveDir(tmpDir)])
  {
    var d := Close(OpenMarkingCreated(New(None, None, true), m, tmpDir, uniqueName).value).value;
    assert d == Dumper(Some(tmpDir), true, Some(uniqueName), Some(Join(tmpDir, uniqueName)), true, true, 0, None);
    assert [RemoveFile(Join(tmpDir, uniqueName))] + [RemoveDir(tmpDir)] == [RemoveFile(Join(tmpDir, uniqueName)), RemoveDir(tmpDir)];
  }
}
