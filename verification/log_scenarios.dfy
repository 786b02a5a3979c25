/** The scenarios of the log reader's unit tests, stated over the model. */
module LogScenarios {
  import opened Wrappers
  import opened Seqs
  import opened Lines
  import opened LogPersistence
  import opened LogReader

  /** `String.contains`: `needle` occurs somewhere in `s`. */
  predicate Contains(s: string, needle: string)
    decreases |s|
  {
    needle <= s || (|s| > 0 && Contains(s[1..], needle))
  }

  /** A one-character needle occurs exactly when the character does. */
  lemma {:induction false} ContainsChar(s: string, c: char)
    ensures Contains(s, [c]) <==> c in s
    decreases |s|
  {
    if |s| > 0 {
      ContainsChar(s[1..], c);
      assert s == [s[0]] + s[1..];
    }
  }

  /** The filter the persistence test uses. */
  function ContainsFilter(needle: string): string -> bool
  {
    (entry: string) => Contains(entry, needle)
  }

  /** Of the two test strings, only the second contains "2". */
  lemma ScenarioFilter()
    ensures Filter(["Test string 1", "Test string 2"], ContainsFilter("2")) == ["Test string 2"]
  {
    assert !ContainsFilter("2")("Test string 1") by {
      ContainsChar("Test string 1", '2');
    }
    assert ContainsFilter("2")("Test string 2") by {
      ContainsChar("Test string 2", '2');
      assert "Test string 2"[12] == '2';
    }
    assert ["Test string 1", "Test string 2"][1..] == ["Test string 2"];
  }

  /** Clear, read; append "Test string 1", read; append "Test string 2", read; keep the
      entries containing "2", read: the reads return [], one entry, both in order, and the
      second alone. Each step starts from the file the previous step left, so the empty file
      the first read creates is the one the first append finds. */
  lemma PersistenceScenario(f: FileState)
    ensures
      var cleared := ClearEntries(f, Reliable);
      var read0 := ReadEntries(cleared.file, Reliable);
      var one := AppendEntry(read0.file, Reliable, "Test string 1");
      var read1 := ReadEntries(one.file, Reliable);
      var two := AppendEntry(read1.file, Reliable, "Test string 2");
      var read2 := ReadEntries(two.file, Reliable);
      var filtered := FilterEntries(read2.file, Reliable, ContainsFilter("2"));
      var read3 := ReadEntries(filtered.file, Reliable);
      && cleared.result == Pass && read0.result == Success([])
      && one.result == Pass && read1.result == Success(["Test string 1"])
      && two.result == Pass && read2.result == Success(["Test string 1", "Test string 2"])
      && filtered.result == Pass && read3.result == Success(["Test string 2"])
  {
    TestStringsAreLines();
    ScenarioFilter();
    ClearAppendAppendFilter(f, "Test string 1", "Test string 2", ContainsFilter("2"));
  }

  /** The persistence test's steps for any two non-empty lines `first` and `second` and a
      filter that keeps exactly the second of them. */
  lemma ClearAppendAppendFilter(f: FileState, first: string, second: string, keep: string -> bool)
    requires IsLine(first) && first != "" && IsLine(second) && second != ""
    requires Filter([first, second], keep) == [second]
    ensures
      var cleared := ClearEntries(f, Reliable);
      var read0 := ReadEntries(cleared.file, Reliable);
      var one := AppendEntry(read0.file, Reliable, first);
      var read1 := ReadEntries(one.file, Reliable);
      var two := AppendEntry(read1.file, Reliable, second);
      var read2 := ReadEntries(two.file, Reliable);
      var filtered := FilterEntries(read2.file, Reliable, keep);
      var read3 := ReadEntries(filtered.file, Reliable);
      && cleared.result == Pass && read0.result == Success([])
      && one.result == Pass && read1.result == Success([first])
      && two.result == Pass && read2.result == Success([first, second])
      && filtered.result == Pass && read3.result == Success([second])
  {
    ClearThenAppend(f, first);
    var read1 := ReadEntries(AppendEntry(ReadEntries(ClearEntries(f, Reliable).file, Reliable).file, Reliable, first).file, Reliable);
    AppendThenFilter(read1.file, first, second, keep);
  }

  /** The first half of the persistence test: clear, read, append `first`, read. */
  lemma ClearThenAppend(f: FileState, first: string)
    requires IsLine(first) && first != ""
    ensures
      var cleared := ClearEntries(f, Reliable);
      var read0 := ReadEntries(cleared.file, Reliable);
      var one := AppendEntry(read0.file, Reliable, first);
      var read1 := ReadEntries(one.file, Reliable);
      && cleared.result == Pass && read0.result == Success([])
      && one.result == Pass && read1.result == Success([first]) && View(read1.file) == [first]
  {
    var cleared := ClearEntries(f, Reliable);
    ReadAfterClear(f, Reliable, Reliable);
    ReadThenAppend(cleared.file, first);
  }

  /** The second half of the persistence test, from a store holding just `first`: append
      `second`, read, filter, read. */
  lemma AppendThenFilter(g: FileState, first: string, second: string, keep: string -> bool)
    requires View(g) == [first]
    requires IsLine(second) && second != ""
    requires Filter([first, second], keep) == [second]
    ensures
      var two := AppendEntry(g, Reliable, second);
      var read2 := ReadEntries(two.file, Reliable);
      var filtered := FilterEntries(read2.file, Reliable, keep);
      var read3 := ReadEntries(filtered.file, Reliable);
      && two.result == Pass && read2.result == Success([first, second])
      && filtered.result == Pass && read3.result == Success([second])
  {
    var two := AppendEntry(g, Reliable, second);
    var read2 := ReadEntries(two.file, Reliable);
    assert View(read2.file) == [first, second] by {
      ReadAfterAppend(g, Reliable, second, Reliable);
      assert [first] + [second] == [first, second];
    }
    ReadAfterFilter(read2.file, Reliable, keep, Reliable);
  }

  /** The two test strings are single lines. */
  lemma TestStringsAreLines()
    ensures IsLine("Test string 1") && IsLine("Test string 2")
  {
  }

  /** A read, an append of a non-empty line and another read, on a file system that refuses
      nothing: the append succeeds and the second read returns the stored entries followed
      by the line. */
  lemma ReadThenAppend(g: FileState, entry: string)
    requires IsLine(entry) && entry != ""
    ensures var appended := AppendEntry(ReadEntries(g, Reliable).file, Reliable, entry);
      var after := ReadEntries(appended.file, Reliable);
      && appended.result == Pass
      && after.result == Success(View(g) + [entry])
      && View(after.file) == View(g) + [entry]
  {
    var read := ReadEntries(g, Reliable);
    ReadAfterAppend(read.file, Reliable, entry, Reliable);
  }

  /** Two entries logged in the same second `t` and then read back with a window starting at
      `t` (within a day of `now`): whatever the store held before, the last two records are
      those two entries, in the order they were written. */
  lemma RecordsScenario<R>(f: FileState, codec: Codec, toRecord: Entry -> R, t: nat, now: int, first: Entry, second: Entry)
    requires RoundTrips(codec) && EncodesAll(codec)
    requires first.timestamp == t && second.timestamp == t
    requires now - OneDay <= t
    requires IsLine(codec.encode(first).value) && codec.encode(first).value != ""
    requires IsLine(codec.encode(second).value)
    ensures
      var log := AppendAll(f, [codec.encode(first).value, codec.encode(second).value]);
      var recs := GetLogEntryRecords(log, Reliable, codec, toRecord, now, t).result;
      |recs| >= 2 && recs[|recs| - 2..] == [toRecord(first), toRecord(second)]
  {
    var log := AppendAll(f, [codec.encode(first).value, codec.encode(second).value]);
    var earlier := WindowEntries(View(f), codec.decode, t);
    AppendedWindow(f, codec, t, first, second);
    RecordsOfWindow(log, codec, toRecord, t, now, earlier, first, second);
    LastTwo(Map(earlier, toRecord), toRecord(first), toRecord(second));
  }

  /** When a store's window ends with two entries, its records end with their records. */
  lemma RecordsOfWindow<R>(log: FileState, codec: Codec, toRecord: Entry -> R, t: nat, now: int,
                           earlier: seq<Entry>, first: Entry, second: Entry)
    requires RoundTrips(codec) && EncodesAll(codec)
    requires EarliestAllowed(now, t) == t
    requires WindowEntries(View(log), codec.decode, t) == earlier + [first, second]
    ensures GetLogEntryRecords(log, Reliable, codec, toRecord, now, t).result
         == Map(earlier, toRecord) + [toRecord(first), toRecord(second)]
  {
    assert GetLogEntryRecords(log, Reliable, codec, toRecord, now, t).result
        == Map(earlier + [first, second], toRecord) by {
      RecordsAreWindowEntries(log, Reliable, codec, toRecord, now, t);
    }
    MapAppendTwo(earlier, first, second, toRecord);
  }

  /** The last two elements of a sequence ending in `a`, `b`. */
  lemma LastTwo<T>(xs: seq<T>, a: T, b: T)
    ensures var ys := xs + [a, b]; |ys| >= 2 && ys[|ys| - 2..] == [a, b]
  {
  }

  /** After the encodings of two entries stamped `t` are appended, the window starting at `t`
      is the earlier window followed by those two entries. */
  lemma AppendedWindow(f: FileState, codec: Codec, t: nat, first: Entry, second: Entry)
    requires RoundTrips(codec) && EncodesAll(codec)
    requires first.timestamp == t && second.timestamp == t
    requires IsLine(codec.encode(first).value) && codec.encode(first).value != ""
    requires IsLine(codec.encode(second).value)
    ensures var encoded := [codec.encode(first).value, codec.encode(second).value];
      WindowEntries(View(AppendAll(f, encoded)), codec.decode, t)
        == WindowEntries(View(f), codec.decode, t) + [first, second]
  {
    var encoded := [codec.encode(first).value, codec.encode(second).value];
    assert AllLines(encoded);
    AppendsReadBack(f, encoded);
    WindowAppend(View(f), encoded, codec.decode, t);
    TwoEntryWindow(codec, t, first, second);
  }

  /** The encodings of two entries stamped `t` form a window starting at `t` holding both. */
  lemma TwoEntryWindow(codec: Codec, t: nat, first: Entry, second: Entry)
    requires RoundTrips(codec) && EncodesAll(codec)
    requires first.timestamp == t && second.timestamp == t
    ensures WindowEntries([codec.encode(first).value, codec.encode(second).value], codec.decode, t)
         == [first, second]
  {
    var encoded := [codec.encode(first).value, codec.encode(second).value];
    assert codec.decode(encoded[0]) == Some(first);
    assert codec.decode(encoded[1]) == Some(second);
    assert FilterMap(encoded, codec.decode) == [first, second] by {
      assert encoded[1..] == [encoded[1]];
      assert FilterMap([encoded[1]], codec.decode) == [second];
    }
    assert Filter([second], Since(t)) == [second];
    assert Filter([first, second], Since(t)) == [first, second] by {
      assert [first, second][1..] == [second];
    }
  }
}
