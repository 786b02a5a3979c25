/** `UpdatesLogReader`: a time-windowed view of the stored log and a purge by age, both
    built on the log store. Times are whole seconds since 1970; the current time is a
    parameter rather than a clock read. */
module LogReader {
  import opened Wrappers
  import opened Seqs
  import opened Lines
  import opened LogPersistence

  /** The longest lookback a read allows: one day, in seconds. */
  const OneDay: int := 86_400

  /** A decoded log entry. Level and code are enumerations whose cases are not part of this
      model; absent optional fields are `None`, never an empty placeholder. */
  datatype Entry = Entry(
    timestamp: nat,
    message: string,
    level: string,
    code: string,
    updateId: Option<string>,
    assetId: Option<string>,
    stacktrace: Option<seq<string>>)

  /** The entry encoding: `UpdatesLogEntry.create(from:)` and `asString()`. */
  datatype Codec = Codec(decode: string -> Option<Entry>, encode: Entry -> Option<string>)

  /** Encoding an entry and decoding the text gives the entry back. */
  ghost predicate RoundTrips(codec: Codec)
  {
    forall e: Entry, s: string {:trigger codec.decode(s), codec.encode(e)} ::
      codec.encode(e) == Some(s) ==> codec.decode(s) == Some(e)
  }

  /** Every entry has an encoding. */
  ghost predicate EncodesAll(codec: Codec)
  {
    forall e: Entry :: codec.encode(e).Some?
  }

  /** The lower bound a read uses: the requested one, unless that lies more than a day
      before `now`, in which case exactly one day before `now`. */
  function EarliestAllowed(now: int, newerThan: int): (bound: int)
    ensures bound >= newerThan && bound >= now - OneDay
    ensures bound == newerThan || bound == now - OneDay
  {
    if newerThan < now - OneDay then now - OneDay else newerThan
  }

  /** Entries stamped at or after `epoch`. */
  function Since(epoch: nat): Entry -> bool
  {
    (e: Entry) => e.timestamp >= epoch
  }

  /** The decodable lines' entries stamped at or after `epoch`, in stored order. */
  function WindowEntries(lines: seq<string>, decode: string -> Option<Entry>, epoch: nat): (r: seq<Entry>)
    ensures forall e :: e in r ==> e.timestamp >= epoch
    ensures IsSubsequence(r, FilterMap(lines, decode))
    ensures forall i :: 0 <= i < |lines| && decode(lines[i]).Some? && decode(lines[i]).value.timestamp >= epoch ==>
      decode(lines[i]).value in r
    ensures forall e :: multiset(r)[e] == if e.timestamp >= epoch then multiset(FilterMap(lines, decode))[e] else 0
  {
    var decoded := FilterMap(lines, decode);
    FilterIsSubsequence(decoded, Since(epoch));
    forall e ensures multiset(Filter(decoded, Since(epoch)))[e] == if e.timestamp >= epoch then multiset(decoded)[e] else 0 {
      FilterCounts(decoded, Since(epoch), e);
    }
    forall i | 0 <= i < |lines| && decode(lines[i]).Some? && decode(lines[i]).value.timestamp >= epoch
      ensures decode(lines[i]).value in Filter(decoded, Since(epoch))
    {
      FilterMapKeepsSome(lines, decode, lines[i]);
      FilterKeepsSatisfying(decoded, Since(epoch), decode(lines[i]).value);
    }
    Filter(decoded, Since(epoch))
  }

  /** `getLogEntries(newerThan:) -> [String]`: the stored entries inside the clamped window,
      re-encoded. A store read error is printed and yields no entries; it is never thrown.
      `UpdatesLogReader` converts the bound with `UInt(...)`, which traps on a negative
      value. */
  function GetLogEntryStrings(f: FileState, io: Io, codec: Codec, now: int, newerThan: int): (r: Step<seq<string>>)
    requires EarliestAllowed(now, newerThan) >= 0
    ensures View(r.file) == View(f)
    ensures !ReadSucceeds(f, io) ==> r.result == []
    ensures ReadSucceeds(f, io) ==>
      r.result == FilterMap(WindowEntries(View(f), codec.decode, EarliestAllowed(now, newerThan)), codec.encode)
    ensures |r.result| <= |View(f)|
  {
    var epoch: nat := EarliestAllowed(now, newerThan);
    var read := ReadEntries(f, io);
    var lines := if read.result.Success? then read.result.value else [];
    Step(read.file, FilterMap(Filter(FilterMap(lines, codec.decode), Since(epoch)), codec.encode))
  }

  /** The strings the codec can decode. */
  function Decodes(codec: Codec): string -> bool
  {
    (s: string) => codec.decode(s).Some?
  }

  /** Decoding a string and exposing the entry as a record. */
  function DecodeToRecord<R>(codec: Codec, toRecord: Entry -> R): string -> Option<R>
  {
    (s: string) => match codec.decode(s)
         case Some(e) => Some(toRecord(e))
         case None => None
  }

  /** `getLogEntries(newerThan:) -> [[String: Any]]`: the string variant's entries decoded
      again and exposed as records (`asDict`); strings that fail to decode are dropped. */
  function GetLogEntryRecords<R>(f: FileState, io: Io, codec: Codec, toRecord: Entry -> R, now: int, newerThan: int)
    : (r: Step<seq<R>>)
    requires EarliestAllowed(now, newerThan) >= 0
    ensures var strings := GetLogEntryStrings(f, io, codec, now, newerThan).result;
      |r.result| == |Filter(strings, Decodes(codec))| <= |strings|
    ensures View(r.file) == View(f)
  {
    var strings := GetLogEntryStrings(f, io, codec, now, newerThan);
    FilterMapLength(strings.result, DecodeToRecord(codec, toRecord), Decodes(codec));
    Step(strings.file, FilterMap(strings.result, DecodeToRecord(codec, toRecord)))
  }

  /** The purge filter: a line survives iff it decodes and is stamped at or after
      `threshold`; a line that does not decode never survives. */
  function PurgeKeeps(decode: string -> Option<Entry>, threshold: nat): (keep: string -> bool)
    ensures forall line :: keep(line) ==> decode(line).Some?
    ensures forall line :: decode(line).Some? ==> (keep(line) <==> Since(threshold)(decode(line).value))
  {
    (line: string) => decode(line).Some? && decode(line).value.timestamp >= threshold
  }

  /** The lines a purge keeps decode to exactly the window starting at the threshold, in
      stored order: the purge and a read agree on which entries are recent. */
  lemma PurgeKeptIsWindow(lines: seq<string>, decode: string -> Option<Entry>, threshold: nat)
    ensures FilterMap(Filter(lines, PurgeKeeps(decode, threshold)), decode) == WindowEntries(lines, decode, threshold)
  {
    FilterThenFilterMap(lines, PurgeKeeps(decode, threshold), decode, Since(threshold));
  }

  /** The window of two stored logs one after the other is the window of each. */
  lemma WindowAppend(a: seq<string>, b: seq<string>, decode: string -> Option<Entry>, epoch: nat)
    ensures WindowEntries(a + b, decode, epoch) == WindowEntries(a, decode, epoch) + WindowEntries(b, decode, epoch)
  {
    FilterMapAppend(a, b, decode);
    FilterAppend(FilterMap(a, decode), FilterMap(b, decode), Since(epoch));
  }

  /** `purgeLogEntries(olderThan:)`: rewrite the store keeping only lines that decode with a
      timestamp at or after `olderThan`; there is no one-day clamp here. The store's
      completion error is discarded, so a failed purge is silent and changes no entry. */
  function PurgeLogEntries(f: FileState, io: Io, codec: Codec, olderThan: int): (r: FileState)
    requires olderThan >= 0
    ensures FilterSucceeds(f, io, PurgeKeeps(codec.decode, olderThan)) ==>
      forall line :: line in View(r) ==>
        codec.decode(line).Some? && codec.decode(line).value.timestamp >= olderThan
    ensures FilterSucceeds(f, io, PurgeKeeps(codec.decode, olderThan)) ==>
      View(r) == ReadBack(Filter(View(f), PurgeKeeps(codec.decode, olderThan)))
    ensures !FilterSucceeds(f, io, PurgeKeeps(codec.decode, olderThan)) ==> View(r) == View(f)
  {
    FilterEntries(f, io, PurgeKeeps(codec.decode, olderThan)).file
  }

  /** With a round-tripping codec, every string a read returns decodes to an entry stamped
      no earlier than the clamped bound, hence at most one day before `now`. */
  lemma ReturnedStringsInWindow(f: FileState, io: Io, codec: Codec, now: int, newerThan: int, s: string)
    requires EarliestAllowed(now, newerThan) >= 0
    requires RoundTrips(codec)
    requires s in GetLogEntryStrings(f, io, codec, now, newerThan).result
    ensures codec.decode(s).Some?
    ensures codec.decode(s).value.timestamp >= EarliestAllowed(now, newerThan) >= newerThan
    ensures codec.decode(s).value.timestamp >= now - OneDay
  {
    var epoch: nat := EarliestAllowed(now, newerThan);
    var window := WindowEntries(View(f), codec.decode, epoch);
    var e :| e in window && codec.encode(e) == Some(s);
  }

  /** Encoding entries and decoding the encodings gives the entries back. */
  lemma {:induction false} DecodeEncodeAll(codec: Codec, entries: seq<Entry>)
    requires RoundTrips(codec) && EncodesAll(codec)
    ensures FilterMap(FilterMap(entries, codec.encode), codec.decode) == entries
  {
    if |entries| > 0 {
      var e := entries[0];
      var s := codec.encode(e).value;
      assert codec.decode(s) == Some(e);
      var rest := FilterMap(entries[1..], codec.encode);
      assert FilterMap(entries, codec.encode) == [s] + rest;
      assert ([s] + rest)[1..] == rest;
      DecodeEncodeAll(codec, entries[1..]);
    }
  }

  /** With a codec that encodes every entry and round-trips, the strings a read returns
      decode to exactly the window's entries, in stored order. */
  lemma ReadStringsDecodeToWindow(f: FileState, io: Io, codec: Codec, now: int, newerThan: int)
    requires EarliestAllowed(now, newerThan) >= 0
    requires RoundTrips(codec) && EncodesAll(codec)
    requires ReadSucceeds(f, io)
    ensures FilterMap(GetLogEntryStrings(f, io, codec, now, newerThan).result, codec.decode)
         == WindowEntries(View(f), codec.decode, EarliestAllowed(now, newerThan))
  {
    DecodeEncodeAll(codec, WindowEntries(View(f), codec.decode, EarliestAllowed(now, newerThan)));
  }

  /** Decoding to records is decoding followed by conversion. */
  lemma {:induction false} DecodeToRecordIsMap<R>(codec: Codec, toRecord: Entry -> R, xs: seq<string>)
    ensures FilterMap(xs, DecodeToRecord(codec, toRecord)) == Map(FilterMap(xs, codec.decode), toRecord)
  {
    if |xs| > 0 {
      DecodeToRecordIsMap(codec, toRecord, xs[1..]);
    }
  }

  /** With a codec that encodes every entry and round-trips, the record variant returns one
      record per window entry, in stored order. */
  lemma RecordsAreWindowEntries<R>(f: FileState, io: Io, codec: Codec, toRecord: Entry -> R, now: int, newerThan: int)
    requires EarliestAllowed(now, newerThan) >= 0
    requires RoundTrips(codec) && EncodesAll(codec)
    requires ReadSucceeds(f, io)
    ensures GetLogEntryRecords(f, io, codec, toRecord, now, newerThan).result
         == Map(WindowEntries(View(f), codec.decode, EarliestAllowed(now, newerThan)), toRecord)
  {
    var strings := GetLogEntryStrings(f, io, codec, now, newerThan).result;
    DecodeToRecordIsMap(codec, toRecord, strings);
    ReadStringsDecodeToWindow(f, io, codec, now, newerThan);
  }

  /** Purging lines older than `threshold` does not change a window that starts at or after
      `threshold`. */
  lemma PurgePreservesLaterWindow(lines: seq<string>, decode: string -> Option<Entry>, threshold: nat, epoch: nat)
    requires epoch >= threshold
    ensures WindowEntries(Filter(lines, PurgeKeeps(decode, threshold)), decode, epoch)
         == WindowEntries(lines, decode, epoch)
  {
    PurgeKeptIsWindow(lines, decode, threshold);
    FilterImplied(FilterMap(lines, decode), Since(threshold), Since(epoch));
  }

  /** A lone empty line is never kept by a purge whose codec rejects the empty string. */
  lemma PurgeNeverKeepsLoneEmptyLine(lines: seq<string>, decode: string -> Option<Entry>, threshold: nat)
    requires decode("").None?
    ensures Filter(lines, PurgeKeeps(decode, threshold)) != [""]
  {
    var kept := Filter(lines, PurgeKeeps(decode, threshold));
    assert |kept| > 0 ==> kept[0] in kept;
  }

  /** A successful purge keeps exactly the lines that decode with a timestamp at or after
      `olderThan`, every occurrence of them, in their stored order. */
  lemma PurgeKeepsExactly(f: FileState, io: Io, codec: Codec, olderThan: nat, line: string)
    requires codec.decode("").None?
    requires FilterSucceeds(f, io, PurgeKeeps(codec.decode, olderThan))
    ensures IsSubsequence(View(PurgeLogEntries(f, io, codec, olderThan)), View(f))
    ensures multiset(View(PurgeLogEntries(f, io, codec, olderThan)))[line]
         == if codec.decode(line).Some? && codec.decode(line).value.timestamp >= olderThan
            then multiset(View(f))[line] else 0
  {
    var keep := PurgeKeeps(codec.decode, olderThan);
    PurgeNeverKeepsLoneEmptyLine(View(f), codec.decode, olderThan);
    FilterIsSubsequence(View(f), keep);
    FilterCounts(View(f), keep, line);
  }

  /** A read whose window starts at or after the purge threshold returns the same entries
      before and after the purge, whether or not the purge succeeded. */
  lemma ReadAfterPurge(f: FileState, io: Io, codec: Codec, olderThan: nat, now: int, newerThan: int)
    requires codec.decode("").None?
    requires EarliestAllowed(now, newerThan) >= olderThan
    ensures GetLogEntryStrings(PurgeLogEntries(f, io, codec, olderThan), Reliable, codec, now, newerThan).result
         == GetLogEntryStrings(f, Reliable, codec, now, newerThan).result
  {
    var keep := PurgeKeeps(codec.decode, olderThan);
    if FilterSucceeds(f, io, keep) {
      PurgeNeverKeepsLoneEmptyLine(View(f), codec.decode, olderThan);
      PurgePreservesLaterWindow(View(f), codec.decode, olderThan, EarliestAllowed(now, newerThan));
    }
  }
}
