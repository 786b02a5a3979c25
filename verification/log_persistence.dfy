/** `UpdatesLogPersistence`: the expo-updates log kept as one flat text file, one entry per
    line. Every public operation is one atomic transition from a file state to a new file
    state plus the value the completion handler receives; the serial dispatch queue of
    `UpdatesLogPersistence`, which runs the operations one at a time, is what licenses this
    reading. */
module LogPersistence {
  import opened Wrappers
  import opened Seqs
  import opened Lines

  /** The log file on disk: missing, or present with some text. */
  datatype FileState = Absent | Present(content: string)

  /** Which file-system calls the operating system refuses during one operation:
      creating the empty file, reading its text, writing replacement text, removing it. */
  datatype Io = Io(createFails: bool, readFails: bool, writeFails: bool, removeFails: bool)

  /** A file system that refuses nothing. */
  const Reliable := Io(false, false, false, false)

  /** The errors the store passes on to its completion handlers. */
  datatype IoError = ReadError | WriteError | RemoveError

  /** A new file state together with what the operation reports. */
  datatype Step<+T> = Step(file: FileState, result: T)

  /** The entries a successful read of `f` returns. */
  function View(f: FileState): seq<string>
  {
    match f
    case Absent => []
    case Present(text) => StringToList(Some(text))
  }

  /** Reading succeeds when the file exists (or can be created empty) and can be read. */
  predicate ReadSucceeds(f: FileState, io: Io)
  {
    (f.Present? || !io.createFails) && !io.readFails
  }

  /** Removing succeeds when there is nothing to remove or the removal is allowed. */
  predicate RemoveSucceeds(f: FileState, io: Io)
  {
    f.Absent? || !io.removeFails
  }

  /** `_ensureFileExists`: a missing file is created empty; the result of the creation is
      ignored, so a refused creation leaves the file missing. */
  function EnsureFileExists(f: FileState, io: Io): (r: FileState)
    ensures View(r) == View(f)
    ensures f.Present? ==> r == f
    ensures r.Present? <==> f.Present? || !io.createFails
  {
    if f.Absent? && !io.createFails then Present("") else f
  }

  /** `_readFileSync`: ensure the file exists, then read and split its text. A missing file
      is never an error of its own: it reads as no entries. */
  function ReadFileSync(f: FileState, io: Io): (r: Step<Result<seq<string>, IoError>>)
    ensures r.result.Success? <==> ReadSucceeds(f, io)
    ensures r.result.Success? ==> r.result.value == View(f)
    ensures r.result.Success? ==> AllLines(r.result.value)
    ensures r.result.Failure? ==> r.result.error == ReadError
    ensures f.Absent? && r.result.Success? ==> r.result.value == []
    ensures View(r.file) == View(f)
    ensures r.file == f || (f.Absent? && r.file == Present(""))
  {
    var f1 := EnsureFileExists(f, io);
    if f1.Absent? || io.readFails then Step(f1, Failure(ReadError))
    else Step(f1, Success(StringToList(Some(f1.content))))
  }

  /** `_deleteFileSync`: remove the file if it exists; a missing file is already deleted. */
  function DeleteFileSync(f: FileState, io: Io): (r: Step<Outcome<IoError>>)
    ensures r.result.Pass? <==> RemoveSucceeds(f, io)
    ensures r.result.Pass? ==> r.file.Absent?
    ensures r.result.Fail? ==> r.file == f && r.result.error == RemoveError
  {
    if f.Absent? then Step(Absent, Pass)
    else if io.removeFails then Step(f, Fail(RemoveError))
    else Step(Absent, Pass)
  }

  /** `_writeFileSync`: an empty list deletes the file; any other list replaces the whole
      text, atomically, by the lines joined with newlines. */
  function WriteFileSync(f: FileState, io: Io, lines: seq<string>): (r: Step<Outcome<IoError>>)
    ensures lines == [] ==> (r.result.Pass? <==> RemoveSucceeds(f, io))
    ensures lines != [] ==> (r.result.Pass? <==> !io.writeFails)
    ensures r.result.Pass? ==> (r.file.Absent? <==> lines == [])
    ensures r.result.Pass? && AllLines(lines) ==> View(r.file) == ReadBack(lines)
    ensures r.result.Fail? ==> View(r.file) == View(f)
  {
    if |lines| == 0 then DeleteFileSync(f, io)
    else
      var f1 := EnsureFileExists(f, io);
      if io.writeFails then Step(f1, Fail(WriteError))
      else
        ListRoundTrip(lines);
        Step(Present(Join(lines)), Pass)
  }

  /** `readEntries`: all entries, in file order. */
  function ReadEntries(f: FileState, io: Io): (r: Step<Result<seq<string>, IoError>>)
    ensures r.result.Success? <==> ReadSucceeds(f, io)
    ensures r.result.Success? ==> r.result.value == View(f)
    ensures r.result.Failure? ==> r.result.error == ReadError
    ensures View(r.file) == View(f)
  {
    ReadFileSync(f, io)
  }

  /** `appendEntry`: read all entries, add one at the end, write them all back. */
  function AppendEntry(f: FileState, io: Io, entry: string): (r: Step<Outcome<IoError>>)
    ensures r.result.Pass? <==> ReadSucceeds(f, io) && !io.writeFails
    ensures !ReadSucceeds(f, io) ==> r.result == Fail(ReadError) && r.file == EnsureFileExists(f, io)
    ensures r.result.Fail? ==> View(r.file) == View(f)
    ensures r.result.Pass? && IsLine(entry) ==> View(r.file) == ReadBack(View(f) + [entry])
    ensures r.result.Pass? ==>
      View(r.file) == if View(f) == [] && entry == "" then [] else View(f) + Split(entry)
    ensures r.result.Pass? ==> r.file.Present?
  {
    var read := ReadFileSync(f, io);
    if read.result.Failure? then Step(read.file, Fail(read.result.error))
    else
      AppendedText(f, entry);
      WriteFileSync(read.file, io, read.result.value + [entry])
  }

  /** The text an append writes reads back as the old entries followed by the pieces of the
      new entry; only an empty entry written to an empty store leaves nothing to read. */
  lemma AppendedText(f: FileState, entry: string)
    ensures StringToList(Some(Join(View(f) + [entry])))
         == if View(f) == [] && entry == "" then [] else View(f) + Split(entry)
  {
    if View(f) != [] {
      var text := f.content;
      JoinSplit(text);
      assert View(f) == Split(text);
      JoinSnoc(View(f), entry);
      SplitAround(text, entry);
    } else {
      assert View(f) + [entry] == [entry];
    }
  }

  /** The outcome `filterEntries` reaches: the read must succeed, and then either the
      removal (nothing survives) or the write (something survives) must succeed. A
      successful read leaves the file in place, so the removal really has to happen. */
  predicate FilterSucceeds(f: FileState, io: Io, keep: string -> bool)
  {
    ReadSucceeds(f, io) &&
    if Filter(View(f), keep) == [] then !io.removeFails else !io.writeFails
  }

  /** `filterEntries`: read all entries, keep those satisfying `keep`, write them back
      (or delete the file when none survive). */
  function FilterEntries(f: FileState, io: Io, keep: string -> bool): (r: Step<Outcome<IoError>>)
    ensures r.result.Pass? <==> FilterSucceeds(f, io, keep)
    ensures !ReadSucceeds(f, io) ==> r.result == Fail(ReadError) && r.file == EnsureFileExists(f, io)
    ensures r.result.Fail? ==> View(r.file) == View(f)
    ensures r.result.Pass? ==> View(r.file) == ReadBack(Filter(View(f), keep))
    ensures r.result.Pass? ==> (r.file.Absent? <==> Filter(View(f), keep) == [])
  {
    var read := ReadFileSync(f, io);
    if read.result.Failure? then Step(read.file, Fail(read.result.error))
    else
      FilterKeepsLines(read.result.value, keep);
      WriteFileSync(read.file, io, Filter(read.result.value, keep))
  }

  /** Dropping entries cannot introduce a separator. */
  lemma FilterKeepsLines(xs: seq<string>, keep: string -> bool)
    requires AllLines(xs)
    ensures AllLines(Filter(xs, keep))
  {
    var r := Filter(xs, keep);
    forall i | 0 <= i < |r|
      ensures IsLine(r[i])
    {
      assert r[i] in r;
    }
  }

  /** `clearEntries`: delete the file; already missing counts as success. */
  function ClearEntries(f: FileState, io: Io): (r: Step<Outcome<IoError>>)
    ensures r.result.Pass? <==> RemoveSucceeds(f, io)
    ensures r.result.Pass? ==> r.file.Absent? && View(r.file) == []
    ensures r.result.Fail? ==> r.file == f
  {
    DeleteFileSync(f, io)
  }

  /** A read after a successful clear returns no entries, whether or not the file existed. */
  lemma ReadAfterClear(f: FileState, io: Io, io': Io)
    requires ClearEntries(f, io).result.Pass?
    requires !io'.createFails && !io'.readFails
    ensures ReadEntries(ClearEntries(f, io).file, io').result == Success([])
  {
  }

  /** Clearing a store that has no file is a successful no-op. */
  lemma ClearAbsentIsNoOp(io: Io)
    ensures ClearEntries(Absent, io) == Step(Absent, Pass)
  {
  }

  /** A read after a successful append of one non-empty line returns the earlier entries
      followed by the new one. */
  lemma ReadAfterAppend(f: FileState, io: Io, entry: string, io': Io)
    requires IsLine(entry) && entry != ""
    requires AppendEntry(f, io, entry).result.Pass?
    requires !io'.readFails
    ensures ReadEntries(AppendEntry(f, io, entry).file, io').result == Success(View(f) + [entry])
  {
  }

  /** Successive appends on a file system that refuses nothing. */
  function AppendAll(f: FileState, entries: seq<string>): FileState
    decreases |entries|
  {
    if |entries| == 0 then f
    else AppendAll(AppendEntry(f, Reliable, entries[0]).file, entries[1..])
  }

  /** Appending one-line entries A1..An one after another and then reading returns the
      earlier entries followed by A1..An, in that order. The one exception is an empty A1
      appended to an empty store, which writes the empty file and so is lost. */
  lemma {:induction false} AppendsReadBack(f: FileState, entries: seq<string>)
    requires AllLines(entries)
    requires |entries| == 0 || View(f) != [] || entries[0] != ""
    ensures View(AppendAll(f, entries)) == View(f) + entries
    decreases |entries|
  {
    if |entries| > 0 {
      var step := AppendEntry(f, Reliable, entries[0]);
      assert step.result.Pass?;
      assert IsLine(entries[0]);
      assert View(step.file) == View(f) + [entries[0]];
      assert AppendAll(f, entries) == AppendAll(step.file, entries[1..]);
      assert AllLines(entries[1..]) by {
        forall i | 0 <= i < |entries[1..]| ensures IsLine(entries[1..][i]) {
          assert entries[1..][i] == entries[i + 1];
        }
      }
      AppendsReadBack(step.file, entries[1..]);
      ConsAssoc(View(f), entries);
    }
  }

  /** Moving the first of `ys` to the end of `xs`. */
  lemma ConsAssoc(xs: seq<string>, ys: seq<string>)
    requires |ys| > 0
    ensures xs + ys == (xs + [ys[0]]) + ys[1..]
  {
    assert ys == [ys[0]] + ys[1..];
  }

  /** A read after a successful filter returns exactly the entries satisfying the filter,
      in their original order; when none survive the file is gone. */
  lemma ReadAfterFilter(f: FileState, io: Io, keep: string -> bool, io': Io)
    requires FilterEntries(f, io, keep).result.Pass?
    requires !io'.createFails && !io'.readFails
    requires Filter(View(f), keep) != [""]
    ensures ReadEntries(FilterEntries(f, io, keep).file, io').result == Success(Filter(View(f), keep))
    ensures IsSubsequence(Filter(View(f), keep), View(f))
    ensures Filter(View(f), keep) == [] ==> FilterEntries(f, io, keep).file.Absent?
  {
    FilterIsSubsequence(View(f), keep);
  }
}
