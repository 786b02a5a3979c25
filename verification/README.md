# expo-updates iOS log store, modelled in Dafny

This project models the two pieces of expo-updates' iOS logging that keep diagnostic log
lines on the device.

- `UpdatesLogPersistence` keeps an append-only log as one flat text file, one entry per line.
  It offers read, append, filter and clear. Each one reads the whole file, changes the list
  of lines, and writes the whole file back. Writing an empty list deletes the file.
- `UpdatesLogReader` builds on the store. It returns the entries inside a time window whose
  lookback is capped at one day before "now". It can also purge the entries older than a
  given time.

The serial dispatch queue runs the store's operations one at a time. So each operation is
modelled as one pure function from a file state to a new file state plus what the
completion handler receives (`LogPersistence.Step`).

- The file is `Absent` or `Present(content)`.
- The file-system calls the operating system may refuse are an explicit parameter
  (`LogPersistence.Io`): creating the empty file, reading, writing, removing.
- `LogPersistence.View` is what a successful read of a file state returns. Most contracts are
  stated in terms of it.

Modules:

- `Wrappers`: Option, Result, Outcome.
- `Seqs`: Swift's `filter` and `compactMap` (`Filter`, `FilterMap`), and an independent
  subsequence predicate.
- `Lines`: splitting file content on newlines, joining lines, and `_stringToList`.
- `LogPersistence`: the store.
- `LogReader`: the reader.
- `LogScenarios`: the scenarios of the unit tests.

Facts about the code that the contracts state:

- A lone empty line is written as the empty file, and the empty file reads back as no lines
  (`Lines.ReadBack`). So an empty entry appended to an empty store is lost. An empty entry
  appended to a store that already holds entries is kept.
- An appended entry is read back as its newline-separated pieces
  (`LogPersistence.AppendEntry`). An entry that contains a newline therefore reads back as
  several entries.
- Successive appends of one-line entries A1..An read back as the earlier entries followed by
  [A1..An], except when A1 is empty and the store was empty (`LogPersistence.AppendsReadBack`).
- A read failure after the empty file was lazily created leaves that empty file behind. No
  entry changes.
- Both `getLogEntries` overloads are declared `throws` but never throw. The string-returning
  one prints a store error and returns no entries. The record-returning one calls it, so it
  never throws either.
- `purgeLogEntries` discards the store's completion error, so a failed purge is silent.

## Model

| member | source | states |
|---|---|---|
| Lines.Split | packages/expo-updates/ios/EXUpdates/Logging/UpdatesLogPersistence.swift:112 | splitting on newlines gives at least one piece, every piece is one line, and there is exactly one piece iff the text has no newline |
| Lines.Join | packages/expo-updates/ios/EXUpdates/Logging/UpdatesLogPersistence.swift:100 | joining puts the first piece at the start of the text, and joining one-line pieces yields a text containing a newline exactly when there are two or more pieces |
| Lines.StringToList | packages/expo-updates/ios/EXUpdates/Logging/UpdatesLogPersistence.swift:109-114 | missing or zero-length content gives no lines; any other content gives one-line pieces whose join is exactly the content |
| Lines.JoinSplit | packages/expo-updates/ios/EXUpdates/Logging/UpdatesLogPersistence.swift:100-112 | joining the lines of a split restores the original text, for every text |
| Lines.SplitJoin | packages/expo-updates/ios/EXUpdates/Logging/UpdatesLogPersistence.swift:100-112 | splitting the join of one or more single-line strings gives those strings back, in order |
| Lines.SplitAround | packages/expo-updates/ios/EXUpdates/Logging/UpdatesLogPersistence.swift:112 | splitting two texts joined by a newline gives the pieces of the first followed by the pieces of the second |
| Lines.JoinIsEmpty | packages/expo-updates/ios/EXUpdates/Logging/UpdatesLogPersistence.swift:95-100 | the joined text is empty exactly for no lines or a lone empty line |
| Lines.ListRoundTrip | packages/expo-updates/ios/EXUpdates/Logging/UpdatesLogPersistence.swift:94-114 | writing single-line strings and reading them back gives the same list, except that a lone empty line reads back as no lines |
| Seqs.Filter | packages/expo-updates/ios/EXUpdates/Logging/UpdatesLogPersistence.swift:53 | the result is no longer than the input, and every element kept is an input element satisfying the predicate |
| Seqs.FilterIsSubsequence | packages/expo-updates/ios/EXUpdates/Logging/UpdatesLogPersistence.swift:53 | filtering keeps the surviving elements in their original relative order |
| Seqs.FilterCounts | packages/expo-updates/ios/EXUpdates/Logging/UpdatesLogPersistence.swift:53 | every occurrence of a satisfying element is kept and no occurrence of any other |
| Seqs.FilterAppend | packages/expo-updates/ios/EXUpdates/Logging/UpdatesLogPersistence.swift:53 | filtering distributes over concatenation |
| Seqs.FilterMap | packages/expo-updates/ios/EXUpdates/Logging/UpdatesLogReader.swift:77-79 | compactMap returns at most one output per input, and each output is the Some result of some input |
| Seqs.FilterMapKeepsSome | packages/expo-updates/ios/EXUpdates/Logging/UpdatesLogReader.swift:77-79 | no Some result of compactMap is lost |
| Seqs.FilterMapLength | packages/expo-updates/ios/EXUpdates/Logging/UpdatesLogReader.swift:21-25 | compactMap returns exactly as many outputs as there are inputs on which it succeeds |
| Seqs.FilterMapIsFilterOfMap | packages/expo-updates/ios/EXUpdates/Logging/UpdatesLogReader.swift:77-79 | compactMap equals map followed by keeping the successful results, so it keeps them in input order |
| LogPersistence.EnsureFileExists | packages/expo-updates/ios/EXUpdates/Logging/UpdatesLogPersistence.swift:83-87 | a missing file is created empty unless the creation is refused; an existing file is untouched; the entries are unchanged |
| LogPersistence.ReadFileSync | packages/expo-updates/ios/EXUpdates/Logging/UpdatesLogPersistence.swift:89-92 | the read succeeds iff the file exists or can be created and can be read; on success it returns the entries, and a missing file returns none; the entries are unchanged |
| LogPersistence.WriteFileSync | packages/expo-updates/ios/EXUpdates/Logging/UpdatesLogPersistence.swift:94-101 | an empty list deletes the file; a non-empty list of lines is written so that it reads back as itself, apart from a lone empty line; a failed write changes no entry |
| LogPersistence.DeleteFileSync | packages/expo-updates/ios/EXUpdates/Logging/UpdatesLogPersistence.swift:103-107 | deletion succeeds iff the file is missing or may be removed; afterwards the file is gone; a failed removal leaves the file as it was |
| LogPersistence.ReadEntries | packages/expo-updates/ios/EXUpdates/Logging/UpdatesLogPersistence.swift:19-28 | a read returns the stored entries in file order, fails only for a refused create or read, and changes no entry |
| LogPersistence.AppendEntry | packages/expo-updates/ios/EXUpdates/Logging/UpdatesLogPersistence.swift:33-44 | a successful append reads back as the old entries followed by the newline-separated pieces of the new entry, except that an empty entry appended to an empty store leaves it empty; a failed read reports ReadError and writes nothing; any failure changes no entry |
| LogPersistence.FilterEntries | packages/expo-updates/ios/EXUpdates/Logging/UpdatesLogPersistence.swift:49-60 | a successful filter reads back as exactly the entries satisfying the predicate, and the file is gone iff none survive; a failed read reports ReadError and writes nothing; any failure changes no entry |
| LogPersistence.ClearEntries | packages/expo-updates/ios/EXUpdates/Logging/UpdatesLogPersistence.swift:65-74 | clear succeeds iff the file is missing or may be removed; on success the file is gone and reads as empty; on failure the file is as it was |
| LogPersistence.ReadAfterClear | packages/expo-updates/ios/Tests/EXUpdatesLogReaderTests.swift:63-74 | a read after a successful clear returns no entries, whether or not the file existed |
| LogPersistence.ClearAbsentIsNoOp | packages/expo-updates/ios/EXUpdates/Logging/UpdatesLogPersistence.swift:103-107 | clearing a missing file succeeds and leaves it missing |
| LogPersistence.ReadAfterAppend | packages/expo-updates/ios/EXUpdates/Logging/UpdatesLogPersistence.swift:33-44 | a read after appending one non-empty line returns the earlier entries followed by that line |
| LogPersistence.AppendsReadBack | packages/expo-updates/ios/EXUpdates/Logging/UpdatesLogPersistence.swift:33-44 | appending one-line entries A1..An in turn reads back as the earlier entries followed by A1..An, in order, unless A1 is empty and the store was empty |
| LogPersistence.ReadAfterFilter | packages/expo-updates/ios/EXUpdates/Logging/UpdatesLogPersistence.swift:49-60 | a read after a filter returns exactly the order-preserving subsequence of entries satisfying the predicate; the file is gone when none survive |
| LogReader.EarliestAllowed | packages/expo-updates/ios/EXUpdates/Logging/UpdatesLogReader.swift:55-59 | the read's lower bound is at or after the requested one and at most one day before now, and it is one of the two |
| LogReader.WindowEntries | packages/expo-updates/ios/EXUpdates/Logging/UpdatesLogReader.swift:77-82 | the window holds only entries stamped at or after the bound, in stored order, and each such decoded entry appears in it exactly as many times as among the decoded lines |
| LogReader.GetLogEntryStrings | packages/expo-updates/ios/EXUpdates/Logging/UpdatesLogReader.swift:54-85 | the string read returns the re-encoded window of the stored entries; a store read error gives no entries instead of an error; the entries are unchanged |
| LogReader.GetLogEntryRecords | packages/expo-updates/ios/EXUpdates/Logging/UpdatesLogReader.swift:21-26 | the record read returns one record per string of the string read that decodes, so never more records than strings |
| LogReader.PurgeLogEntries | packages/expo-updates/ios/EXUpdates/Logging/UpdatesLogReader.swift:32-46 | a successful purge leaves only lines that decode with a timestamp at or after the threshold; a failed purge changes no entry |
| LogReader.PurgeKeeps | packages/expo-updates/ios/EXUpdates/Logging/UpdatesLogReader.swift:36-40 | the purge filter keeps no line that fails to decode, and keeps a decodable line iff its entry is stamped at or after the threshold |
| LogReader.PurgeKeptIsWindow | packages/expo-updates/ios/EXUpdates/Logging/UpdatesLogReader.swift:36-40 | the lines the purge filter keeps decode to exactly the read window that starts at the threshold, in stored order |
| LogReader.ReturnedStringsInWindow | packages/expo-updates/ios/EXUpdates/Logging/UpdatesLogReader.swift:55-85 | with a round-tripping codec, every returned string decodes to an entry stamped at or after the clamped bound, so no earlier than one day before now |
| LogReader.DecodeEncodeAll | packages/expo-updates/ios/EXUpdates/Logging/UpdatesLogReader.swift:83-85 | with a round-tripping codec that encodes everything, decoding the encodings gives the entries back |
| LogReader.ReadStringsDecodeToWindow | packages/expo-updates/ios/EXUpdates/Logging/UpdatesLogReader.swift:76-85 | with such a codec, the returned strings decode to exactly the window's entries in stored order |
| LogReader.DecodeToRecordIsMap | packages/expo-updates/ios/EXUpdates/Logging/UpdatesLogReader.swift:22-25 | decoding to records is decoding followed by conversion, one record per decodable string |
| LogReader.RecordsAreWindowEntries | packages/expo-updates/ios/EXUpdates/Logging/UpdatesLogReader.swift:21-25 | with such a codec, the record read returns one record per window entry, in stored order |
| LogReader.PurgePreservesLaterWindow | packages/expo-updates/ios/EXUpdates/Logging/UpdatesLogReader.swift:36-40 | purging older than t leaves every window starting at or after t unchanged |
| LogReader.PurgeKeepsExactly | packages/expo-updates/ios/EXUpdates/Logging/UpdatesLogReader.swift:36-40 | a successful purge keeps every occurrence of each line that decodes with a timestamp at or after the threshold and no other line, in stored order |
| LogReader.ReadAfterPurge | packages/expo-updates/ios/EXUpdates/Logging/UpdatesLogReader.swift:32-46 | a read whose window starts at or after the purge threshold sees the same entries before and after the purge |
| LogScenarios.PersistenceScenario | packages/expo-updates/ios/Tests/EXUpdatesLogReaderTests.swift:58-135 | from any starting state, clear, read, append "Test string 1", read, append "Test string 2", read, keep the entries containing "2", read, each step on the file the previous one left: the reads give [], one entry, both in order, and the second alone |
| LogScenarios.RecordsScenario | packages/expo-updates/ios/Tests/EXUpdatesLogReaderTests.swift:12-55 | whatever the store held, after two entries stamped in one second are appended, a read with a window starting at that second returns at least two records, and the last two are those entries in write order |

## Left out

- The serial dispatch queues and the semaphores that make the reader's calls blocking. Each operation is one atomic transition, which is what the queue guarantees.
- FileManager, the documents-directory path, the file name, UTF-8 encoding and write(atomically:). The file is `Absent` or `Present(text)`. The OS refusing a call is the `Io` parameter. An atomic write that fails leaves the old text.
- `Date`, `timeIntervalSince1970` doubles and the truncation done by `UInt(...)`. Times are whole seconds. "Now" is a parameter. `UInt(...)` traps on a negative value, so the reader's functions require the bound to be non-negative.
- `UpdatesLogEntry.create`, `asString` and `asDict` are not part of this model. The codec is the `LogReader.Codec` parameter, and the record conversion is a function parameter.
- LogScenarios.RecordsScenario: does not check the individual dictionary keys the test asserts (updateId, assetId, stacktrace present or absent), because `asDict` is not part of this model. It shows that the entries come back whole and in order. It also assumes that both entries encode as single lines and that the first encoding is not empty.
- `UpdatesLogger` and the first test's reliance on the wall clock. The scenario takes the logged entries and the time as parameters.
- The commented-out OSLogStore alternative and the `print` diagnostics.
- Level and code enumerations: their cases live in files that are not part of this model, so they are strings here.
