/** The pure helpers of the telemetry middleware and the log-retention
    job: client-address extraction, request-body capture, the date in a
    daily log file's name, and which files the compression and deletion
    passes act on. */
module Telemetry {
  import opened Base
  import opened PyText
  import opened Calendar

  /** `LOG_COMPRESS_AFTER_DAYS`: plain logs older than this are gzipped. */
  const CompressAfterDays := 1
  /** `LOG_RETAIN_DAYS`: logs older than this are deleted. */
  const RetainDays := 90
  /** `_MAX_BODY_LOG`: how many bytes of a request body are logged. */
  const MaxBodyLog := 10000

  // ---- Client address ----

  /** `_get_client_ip`: the first hop of a non-empty `X-Forwarded-For`
      header, stripped; else the connection's host; else `"unknown"`. */
  function ClientIp(forwarded: Option<string>, client: Option<string>): (ip: string)
    ensures forwarded.Some? && forwarded.value != [] ==>
      ip == [] || (!IsSpace(ip[0]) && !IsSpace(ip[|ip| - 1]))
    ensures (forwarded.None? || forwarded.value == []) && client.Some? ==> ip == client.value
    ensures (forwarded.None? || forwarded.value == []) && client.None? ==> ip == "unknown"
  {
    if forwarded.Some? && forwarded.value != [] then
      StripSpec(Split(forwarded.value, ',')[0]);
      Strip(Split(forwarded.value, ',')[0])
    else if client.Some? then client.value
    else "unknown"
  }

  /** A proxy chain `a, b, c` yields its first hop `a`, whatever follows. */
  lemma ClientIpFirstHop(hops: seq<string>, client: Option<string>)
    requires |hops| >= 1 && Join(hops, ',') != []
    requires forall i :: 0 <= i < |hops| ==> ',' !in hops[i]
    ensures ClientIp(Some(Join(hops, ',')), client) == Strip(hops[0])
  {
    SplitJoin(hops, ',');
  }

  // ---- Request body capture ----

  /** What `await request.body()` gave: the bytes, or an exception. */
  datatype BodyRead = ReadFailed | Body(bytes: seq<bv8>)

  /** The `body` entry of a request event: the first bytes of the body
      (decoded with replacement, which is not modelled) followed by a
      truncation note, or the read-error marker. */
  datatype BodyLog = Excerpt(head: seq<bv8>, note: string) | ReadErrorNote

  predicate CarriesBody(httpMethod: string) {
    httpMethod == "POST" || httpMethod == "PUT" || httpMethod == "PATCH"
  }

  /** `f"... [truncated, {len(body_bytes)} bytes total]"` */
  function TruncationNote(total: nat): string {
    "... [truncated, " + NatToString(total) + " bytes total]"
  }

  /** The body the middleware logs for a request, if any. */
  function CaptureBody(httpMethod: string, read: BodyRead): (logged: Option<BodyLog>)
    ensures logged.Some? <==> CarriesBody(httpMethod) && (read.ReadFailed? || read.bytes != [])
    ensures logged.Some? && read.ReadFailed? ==> logged.value == ReadErrorNote
    ensures logged.Some? && read.Body? ==>
      && logged.value.Excerpt?
      && |logged.value.head| <= MaxBodyLog && |logged.value.head| <= |read.bytes|
      && logged.value.head == read.bytes[..|logged.value.head|]
      && (|read.bytes| <= MaxBodyLog ==> logged.value.head == read.bytes && logged.value.note == "")
      && (|read.bytes| > MaxBodyLog ==>
        |logged.value.head| == MaxBodyLog && logged.value.note == TruncationNote(|read.bytes|))
  {
    if !CarriesBody(httpMethod) then None
    else match read
      case ReadFailed => Some(ReadErrorNote)
      case Body(bytes) =>
        if bytes == [] then None
        else if |bytes| > MaxBodyLog then Some(Excerpt(bytes[..MaxBodyLog], TruncationNote(|bytes|)))
        else Some(Excerpt(bytes[..|bytes|], ""))
  }

  // ---- Daily log file names ----

  /** Three numbers written as `%Y-%m-%d` writes a date's fields. */
  function Dashed(y: nat, m: nat, d: nat): string {
    NatToString(y) + "-" + Pad2(m) + "-" + Pad2(d)
  }

  /** The day part of a daily log name: `%Y-%m-%d`. */
  function DayStem(d: Date): string
    requires Valid(d)
  {
    Dashed(d.year, d.month, d.day)
  }

  /** The file `emit_event` appends to on day `d`: `%Y-%m-%d.jsonl`. */
  function LogFileName(d: Date): (name: string)
    requires Valid(d)
  {
    DayStem(d) + ".jsonl"
  }

  /** `_parse_log_date`: drop `.jsonl.gz`, then `.jsonl`, wherever they
      occur; split on `-`; build a date from the first three parts. `None`
      stands for the `ValueError` or `IndexError` it catches. */
  function ParseLogDate(filename: string): (d: Option<Date>)
    ensures d.Some? ==> Valid(d.value)
  {
    ParseDayStem(RemoveAll(RemoveAll(filename, ".jsonl.gz"), ".jsonl"))
  }

  /** The range of a C `int`, into which `date()` converts its arguments
      before it checks them. */
  const CIntMin := -0x8000_0000
  const CIntMax := 0x7fff_ffff

  predicate InCInt(n: int) {
    CIntMin <= n <= CIntMax
  }

  /** What `_parse_log_date` does as written: a date, `None`, or an
      `OverflowError` that escapes it. */
  datatype DateParse = Parsed(date: Date) | NoDate | Overflow

  /** `_parse_log_date` as written: `except (ValueError, IndexError)` does
      not catch the `OverflowError` that `date()` raises for a part outside
      the C `int` range. */
  function ParseLogDateAsWritten(filename: string): (r: DateParse)
    ensures r.Parsed? ==> Valid(r.date)
  {
    var parts := Split(RemoveAll(RemoveAll(filename, ".jsonl.gz"), ".jsonl"), '-');
    if |parts| < 3 then NoDate
    else
      match (ParseInt(parts[0]), ParseInt(parts[1]), ParseInt(parts[2]))
      case (Some(y), Some(m), Some(day)) =>
        if !(InCInt(y) && InCInt(m) && InCInt(day)) then Overflow
        else if ValidDate(y, m, day) then Parsed(Date(y, m, day)) else NoDate
      case _ => NoDate
  }

  /** A name whose year does not fit a C `int` makes the parse as written
      raise, and so stops `delete_old_logs` (and `maintain_logs`) at that
      file; the corrected parse gives `None` and the file is skipped. */
  lemma ParseLogDateOverflows(y: nat)
    requires y > CIntMax && |NatToString(y)| <= MaxStrDigits
    ensures ParseLogDateAsWritten(Dashed(y, 1, 1) + ".jsonl") == Overflow
    ensures ParseLogDate(Dashed(y, 1, 1) + ".jsonl") == None
  {
    DashedParts(y, 1, 1);
    DropSuffixes(Dashed(y, 1, 1));
    ParseIntToString(y);
    ParsePad2(1);
  }

  /** The corrected parse never raises: it agrees with the code as written
      wherever that returns, and answers `None` where that raises. */
  lemma ParseLogDateCorrected(filename: string)
    ensures ParseLogDate(filename) == match ParseLogDateAsWritten(filename)
      case Parsed(d) => Some(d)
      case _ => None
  {
  }

  /** `date(int(parts[0]), int(parts[1]), int(parts[2]))` on the parts of
      `stem.split("-")`, answering `None` for every failure; parts after the
      third are ignored. */
  function ParseDayStem(stem: string): (d: Option<Date>)
    ensures d.Some? ==> Valid(d.value)
  {
    var parts := Split(stem, '-');
    if |parts| < 3 then None
    else
      match (ParseInt(parts[0]), ParseInt(parts[1]), ParseInt(parts[2]))
      case (Some(y), Some(m), Some(day)) =>
        if ValidDate(y, m, day) then Some(Date(y, m, day)) else None
      case _ => None
  }

  /** The day part of a daily log name holds no `.` and splits into its
      three fields. */
  lemma DayStemParts(d: Date)
    requires Valid(d)
    ensures '.' !in DayStem(d)
    ensures Split(DayStem(d), '-') == [NatToString(d.year), Pad2(d.month), Pad2(d.day)]
  {
    DashedParts(d.year, d.month, d.day);
  }

  lemma DashedParts(year: nat, month: nat, day: nat)
    ensures '.' !in Dashed(year, month, day)
    ensures Split(Dashed(year, month, day), '-') == [NatToString(year), Pad2(month), Pad2(day)]
  {
    var y, m, dd := NatToString(year), Pad2(month), Pad2(day);
    DashedJoin(y, m, dd);
    assert '-' !in y && '-' !in m && '-' !in dd;
    SplitJoin([y, m, dd], '-');
    DashedNoDot(y, m, dd);
  }

  /** Three fields joined by dashes. */
  lemma DashedJoin(a: string, b: string, c: string)
    ensures Join([a, b, c], '-') == a + "-" + b + "-" + c
  {
    var parts := [a, b, c];
    assert parts[1..] == [b, c] && parts[1..][1..] == [c];
    assert Join([c], '-') == c;
    assert Join([b, c], '-') == b + "-" + c;
  }

  /** Digit fields joined by dashes hold no dot. */
  lemma DashedNoDot(a: string, b: string, c: string)
    requires forall i :: 0 <= i < |a| ==> IsDigit(a[i])
    requires forall i :: 0 <= i < |b| ==> IsDigit(b[i])
    requires forall i :: 0 <= i < |c| ==> IsDigit(c[i])
    ensures '.' !in a + "-" + b + "-" + c
  {
    var x := a + "-" + b + "-" + c;
    assert forall i :: 0 <= i < |x| ==> x[i] == '-' || IsDigit(x[i]);
  }

  /** The day part parses back to the day. */
  lemma ParseDayStemRoundTrip(d: Date)
    requires Valid(d)
    ensures ParseDayStem(DayStem(d)) == Some(d)
  {
    DayStemParts(d);
    NatToStringLength(d.year, 4);
    ParseIntToString(d.year);
    ParsePad2(d.month);
    ParsePad2(d.day);
  }

  /** Dropping the suffixes from a name whose stem holds no `.` leaves the stem. */
  lemma DropSuffixes(x: string)
    requires '.' !in x
    ensures RemoveAll(RemoveAll(x + ".jsonl", ".jsonl.gz"), ".jsonl") == x
    ensures RemoveAll(RemoveAll(x + ".jsonl.gz", ".jsonl.gz"), ".jsonl") == x
  {
    RemoveAllSkips(x, ".jsonl", ".jsonl.gz");
    RemoveAllShort(".jsonl", ".jsonl.gz");
    RemoveAllSkips(x, ".jsonl", ".jsonl");
    RemoveAllSelf(".jsonl");
    assert x + [] == x;
    RemoveAllSkips(x, ".jsonl.gz", ".jsonl.gz");
    RemoveAllSelf(".jsonl.gz");
    RemoveAllSkips(x, [], ".jsonl");
  }

  /** Every name `emit_event` writes, plain or gzipped, parses back to its day. */
  lemma LogFileNameRoundTrip(d: Date)
    requires Valid(d)
    ensures ParseLogDate(LogFileName(d)) == Some(d)
    ensures ParseLogDate(LogFileName(d) + ".gz") == Some(d)
  {
    DayStemParts(d);
    DropSuffixes(DayStem(d));
    assert LogFileName(d) + ".gz" == DayStem(d) + ".jsonl.gz";
    ParseDayStemRoundTrip(d);
  }

  /** `logfile.with_suffix(".jsonl.gz")` for a `*.jsonl` file. */
  function GzName(name: string): (gz: string)
    ensures EndsWith(gz, ".jsonl.gz")
  {
    Stem(name) + ".jsonl.gz"
  }

  /** Compressing a daily log gives the name with `.gz` appended. */
  lemma GzNameOfLog(d: Date)
    requires Valid(d)
    ensures GzName(LogFileName(d)) == LogFileName(d) + ".gz"
  {
    var stem := DayStem(d);
    DayStemParts(d);
    assert stem != [];
    StemOfSuffixed(stem, "jsonl");
    assert LogFileName(d) == stem + "." + "jsonl";
    assert GzName(LogFileName(d)) == stem + ".jsonl.gz";
  }

  // ---- Retention rules ----

  predicate IsPlainLog(name: string) {
    EndsWith(name, ".jsonl")
  }

  predicate IsGzLog(name: string) {
    EndsWith(name, ".jsonl.gz")
  }

  /** The name parses to a date strictly before `today - timedelta(days)`. */
  predicate OlderThan(name: string, today: Date, days: int)
    requires Valid(today)
  {
    match ParseLogDate(name)
    case Some(d) => Ordinal(d) < Ordinal(today) - days
    case None => false
  }

  /** What one `glob("*" + suffix)` loop acts on: the matching names that
      parse to a day older than the cutoff, but for those whose action
      raises. Names that do not parse are never touched. */
  function Expired(files: set<string>, suffix: string, today: Date, days: int, failing: set<string>): (sel: set<string>)
    requires Valid(today)
    ensures sel <= files
    ensures forall f :: f in sel ==> EndsWith(f, suffix) && f !in failing && ParseLogDate(f).Some?
  {
    set f | f in files && EndsWith(f, suffix) && OlderThan(f, today, days) && f !in failing
  }

  /** The logs `delete_old_logs` removes: old plain logs, then old gzipped ones. */
  function DeletedBy(files: set<string>, today: Date, failing: set<string>): set<string>
    requires Valid(today)
  {
    Expired(files, ".jsonl", today, RetainDays, failing) + Expired(files, ".jsonl.gz", today, RetainDays, failing)
  }

  /** The plain logs `compress_old_logs` gzips. */
  function CompressedBy(files: set<string>, today: Date, failing: set<string>): set<string>
    requires Valid(today)
  {
    Expired(files, ".jsonl", today, CompressAfterDays, failing)
  }

  /** The directory after the compression pass: each compressed log is
      replaced by its `.jsonl.gz` sibling. */
  function AfterCompress(files: set<string>, today: Date, failing: set<string>): set<string>
    requires Valid(today)
  {
    var done := CompressedBy(files, today, failing);
    (files - done) + GzNames(done)
  }

  function GzNames(names: set<string>): set<string> {
    set f | f in names :: GzName(f)
  }

  /** A name cannot end in both `.jsonl` and `.jsonl.gz`. */
  lemma PlainNotGz(name: string)
    ensures !(IsPlainLog(name) && IsGzLog(name))
  {
    if IsGzLog(name) {
      assert name[|name| - 1] == 'z';
    }
  }

  /** The compressed sibling of any name ends in `.jsonl.gz`, never in `.jsonl`. */
  lemma GzNameIsGz(name: string)
    ensures IsGzLog(GzName(name)) && !IsPlainLog(GzName(name))
  {
    var g := GzName(name);
    assert g[|g| - 9..] == ".jsonl.gz";
    PlainNotGz(g);
  }

  /** One compression step: `f` leaves the directory and its sibling enters. */
  lemma CompressStep(base: set<string>, done: set<string>, f: string)
    requires f !in GzNames(done)
    ensures ((base - done) + GzNames(done) - {f}) + {GzName(f)} == (base - (done + {f})) + GzNames(done + {f})
  {
  }

  /** One step of a loop over a snapshot `matching` that acts on the names
      in `target`: `f` moves from pending to processed. */
  lemma SweepStep<T>(matching: set<T>, pending: set<T>, target: set<T>, f: T)
    requires f in pending && pending <= matching
    ensures (matching - (pending - {f})) * target
      == if f in target then (matching - pending) * target + {f} else (matching - pending) * target
    ensures f !in (matching - pending) * target
  {
    var processed := matching - pending;
    assert matching - (pending - {f}) == processed + {f};
  }

  lemma RemoveStep<T>(base: set<T>, gone: set<T>, f: T)
    ensures (base - gone) - {f} == base - (gone + {f})
  {
  }

  lemma IntersectAll<T>(matching: set<T>, target: set<T>)
    requires target <= matching
    ensures (matching - {}) * target == target
  {
  }

  /** Removing names that do not match a loop's pattern does not change
      what that loop acts on. */
  lemma ExpiredIgnoresOthers(files: set<string>, removed: set<string>, suffix: string, today: Date, days: int, failing: set<string>)
    requires Valid(today)
    requires forall f :: f in removed ==> !EndsWith(f, suffix)
    ensures Expired(files - removed, suffix, today, days, failing) == Expired(files, suffix, today, days, failing)
  {
  }

  /** The two deletion loops act on disjoint sets of names. */
  lemma DeletionLoopsDisjoint(files: set<string>, today: Date, failing: set<string>)
    requires Valid(today)
    ensures Expired(files, ".jsonl", today, RetainDays, failing) !! Expired(files, ".jsonl.gz", today, RetainDays, failing)
    ensures |DeletedBy(files, today, failing)|
      == |Expired(files, ".jsonl", today, RetainDays, failing)| + |Expired(files, ".jsonl.gz", today, RetainDays, failing)|
  {
    var p := Expired(files, ".jsonl", today, RetainDays, failing);
    var g := Expired(files, ".jsonl.gz", today, RetainDays, failing);
    forall f | f in p ensures f !in g { PlainNotGz(f); }
  }

  /** A daily log's names end in the patterns the two passes glob for. */
  lemma DailyLogSuffixes(d: Date)
    requires Valid(d)
    ensures IsPlainLog(LogFileName(d)) && !IsGzLog(LogFileName(d))
    ensures IsGzLog(LogFileName(d) + ".gz") && !IsPlainLog(LogFileName(d) + ".gz")
  {
    var name := LogFileName(d);
    assert name[|name| - 6..] == ".jsonl";
    assert (name + ".gz")[|name + ".gz"| - 9..] == ".jsonl.gz";
    PlainNotGz(name);
    PlainNotGz(name + ".gz");
  }

  /** A daily log, plain or gzipped, is older than a cutoff exactly when its
      day is: so today's and yesterday's files are never compressed, and
      a file is deleted only when its day is more than 90 days back. */
  lemma DailyLogAge(d: Date, today: Date, days: int)
    requires Valid(d) && Valid(today)
    ensures OlderThan(LogFileName(d), today, days) <==> Ordinal(d) < Ordinal(today) - days
    ensures OlderThan(LogFileName(d) + ".gz", today, days) <==> Ordinal(d) < Ordinal(today) - days
  {
    LogFileNameRoundTrip(d);
  }

  /** A file the deletion pass removed is never offered to the compression
      pass, and a file that pass then compresses is at most 90 days old
      unless its deletion failed. */
  lemma DeleteBeforeCompress(files: set<string>, deleteToday: Date, compressToday: Date, failDelete: set<string>, failCompress: set<string>)
    requires Valid(deleteToday) && Valid(compressToday)
    ensures var remaining := files - DeletedBy(files, deleteToday, failDelete);
      forall f :: f in CompressedBy(remaining, compressToday, failCompress) ==>
        && f !in DeletedBy(files, deleteToday, failDelete)
        && (f !in failDelete ==> !OlderThan(f, deleteToday, RetainDays))
  {
  }

  /** Each pass reads `date.today()` itself. A compression pass that reads a
      later day than the deletion pass (a run across midnight) compresses
      every log the earlier day would have, and possibly more. */
  lemma {:induction false} CompressLaterDay(files: set<string>, earlier: Date, later: Date, failing: set<string>)
    requires Valid(earlier) && Valid(later) && Ordinal(earlier) <= Ordinal(later)
    ensures CompressedBy(files, earlier, failing) <= CompressedBy(files, later, failing)
  {
    forall f | f in CompressedBy(files, earlier, failing)
      ensures f in CompressedBy(files, later, failing)
    {
      assert OlderThan(f, earlier, CompressAfterDays);
    }
  }

  /** The log directory: the set of names in it. A missing directory is an
      empty one, on which both passes do nothing. */
  class LogDirectory {
    var files: set<string>

    constructor(names: set<string>)
      ensures files == names
    {
      files := names;
    }

    /** One `glob("*" + suffix)` loop of `delete_old_logs`. */
    method DeleteMatching(suffix: string, today: Date, failing: set<string>) returns (n: nat)
      requires Valid(today)
      modifies this
      ensures files == old(files) - Expired(old(files), suffix, today, RetainDays, failing)
      ensures n == |Expired(old(files), suffix, today, RetainDays, failing)|
    {
      var pending := set f | f in files && EndsWith(f, suffix);
      ghost var matching := pending;
      ghost var target := Expired(files, suffix, today, RetainDays, failing);
      ghost var gone: set<string> := {};
      n := 0;
      while pending != {}
        invariant pending <= matching
        invariant target <= matching
        invariant gone == (matching - pending) * target
        invariant files == old(files) - gone
        invariant n == |gone|
        decreases |pending|
      {
        var f :| f in pending;
        SweepStep(matching, pending, target, f);
        var logDate := ParseLogDate(f);
        if logDate.Some? && Ordinal(logDate.value) < Ordinal(today) - RetainDays && f !in failing {
          assert f in target;
          RemoveStep(old(files), gone, f);
          files := files - {f};
          gone := gone + {f};
          n := n + 1;
        } else {
          assert f !in target;
        }
        pending := pending - {f};
      }
      IntersectAll(matching, target);
    }

    /** `delete_old_logs`: the `*.jsonl` files, then the `*.jsonl.gz` files. */
    method DeleteOldLogs(today: Date, failing: set<string>) returns (deleted: nat)
      requires Valid(today)
      modifies this
      ensures files == old(files) - DeletedBy(old(files), today, failing)
      ensures deleted == |DeletedBy(old(files), today, failing)|
    {
      ghost var before := files;
      var n1 := DeleteMatching(".jsonl", today, failing);
      ghost var plain := Expired(before, ".jsonl", today, RetainDays, failing);
      forall f | f in plain ensures !EndsWith(f, ".jsonl.gz") { PlainNotGz(f); }
      ExpiredIgnoresOthers(before, plain, ".jsonl.gz", today, RetainDays, failing);
      var n2 := DeleteMatching(".jsonl.gz", today, failing);
      DeletionLoopsDisjoint(before, today, failing);
      deleted := n1 + n2;
    }

    /** `compress_old_logs`: each old `*.jsonl` file is replaced by its
        `.jsonl.gz` sibling. */
    method CompressOldLogs(today: Date, failing: set<string>) returns (compressed: nat)
      requires Valid(today)
      modifies this
      ensures files == AfterCompress(old(files), today, failing)
      ensures compressed == |CompressedBy(old(files), today, failing)|
    {
      var pending := set f | f in files && EndsWith(f, ".jsonl");
      ghost var matching := pending;
      ghost var target := CompressedBy(files, today, failing);
      ghost var done: set<string> := {};
      compressed := 0;
      while pending != {}
        invariant pending <= matching
        invariant target <= matching
        invariant forall f :: f in matching ==> IsPlainLog(f)
        invariant done == (matching - pending) * target
        invariant files == (old(files) - done) + GzNames(done)
        invariant compressed == |done|
        decreases |pending|
      {
        var f :| f in pending;
        SweepStep(matching, pending, target, f);
        var logDate := ParseLogDate(f);
        if logDate.Some? && Ordinal(logDate.value) < Ordinal(today) - CompressAfterDays && f !in failing {
          assert f in target;
          PlainNotGz(f);
          forall g | g in done ensures GzName(g) != f {
            GzNameIsGz(g);
          }
          CompressStep(old(files), done, f);
          files := (files - {f}) + {GzName(f)};
          done := done + {f};
          compressed := compressed + 1;
        } else {
          assert f !in target;
        }
        pending := pending - {f};
      }
      IntersectAll(matching, target);
    }

    /** `maintain_logs`: deletion first, then compression of what is left;
        `reported` says whether the summary event is emitted. */
    method MaintainLogs(deleteToday: Date, compressToday: Date, failDelete: set<string>, failCompress: set<string>)
      returns (deleted: nat, compressed: nat, reported: bool)
      requires Valid(deleteToday) && Valid(compressToday)
      modifies this
      ensures var remaining := old(files) - DeletedBy(old(files), deleteToday, failDelete);
        && files == AfterCompress(remaining, compressToday, failCompress)
        && deleted == |DeletedBy(old(files), deleteToday, failDelete)|
        && compressed == |CompressedBy(remaining, compressToday, failCompress)|
      ensures reported <==> deleted > 0 || compressed > 0
    {
      deleted := DeleteOldLogs(deleteToday, failDelete);
      compressed := CompressOldLogs(compressToday, failCompress);
      reported := deleted > 0 || compressed > 0;
    }
  }
}
