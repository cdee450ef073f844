/** The admin pages' logic: the session-token check, the list of log
    dates, and the log viewer's filter, sort and pagination. */
module Admin {
  import opened Base
  import opened PyText
  import opened Records

  // ---- Session tokens ----

  /** `_TOKEN_TTL`: seven days, in seconds. */
  const TokenTtl := 86400 * 7

  /** The keyed signature of a timestamp: the first 16 hex digits of
      HMAC-SHA256 under the admin password. */
  type Mac = (string, string) -> string

  /** `int(t)` for a float: truncation toward zero. */
  function Trunc(t: real): (n: int)
    ensures t >= 0.0 ==> n as real <= t < n as real + 1.0
    ensures t < 0.0 ==> n as real - 1.0 < t <= n as real
  {
    if t >= 0.0 then t.Floor else -((-t).Floor)
  }

  /** `s.split(c, 1)`: the text before the first `c` and the text after it. */
  function SplitFirst(s: string, c: char): (r: Option<(string, string)>)
    ensures r.None? <==> c !in s
    ensures r.Some? ==> s == r.value.0 + [c] + r.value.1 && c !in r.value.0
  {
    if s == [] then None
    else if s[0] == c then
      assert s == [] + [c] + s[1..];
      Some(([], s[1..]))
    else
      match SplitFirst(s[1..], c)
      case None => None
      case Some(p) =>
        assert s == [s[0]] + p.0 + [c] + p.1;
        Some(([s[0]] + p.0, p.1))
  }

  /** Splitting at the first `c` undoes joining at a `c` the head lacks. */
  lemma {:induction false} SplitFirstJoin(x: string, c: char, y: string)
    requires c !in x
    ensures SplitFirst(x + [c] + y, c) == Some((x, y))
  {
    var s := x + [c] + y;
    if x != [] {
      assert s[1..] == x[1..] + [c] + y;
      SplitFirstJoin(x[1..], c, y);
      assert [x[0]] + x[1..] == x;
    } else {
      assert s[1..] == y;
    }
  }

  /** `_make_token` at time `now`: `"<ts>.<sig>"`; it splits at its first
      dot into the timestamp's text and that text's signature. */
  function MakeToken(password: string, now: real, mac: Mac): (token: string)
    ensures var ts := IntToString(Trunc(now));
      SplitFirst(token, '.') == Some((ts, mac(password, ts)))
  {
    var ts := IntToString(Trunc(now));
    assert '.' !in ts;
    SplitFirstJoin(ts, '.', mac(password, ts));
    assert ts + "." + mac(password, ts) == ts + ['.'] + mac(password, ts);
    ts + "." + mac(password, ts)
  }

  /** Every character is ASCII. */
  predicate IsAscii(s: string) {
    forall i :: 0 <= i < |s| ==> s[i] as int < 128
  }

  /** What escapes `_verify_token` as written. */
  datatype TokenError =
    /** `time.time() - int(ts)` converts `int(ts)` to a float. */
    | IntTooLargeForFloat
    /** `hmac.compare_digest` refuses a `str` holding a non-ASCII character. */
    | NonAsciiDigest

  /** The outcome of `_verify_token` as written: it returns, or it raises. */
  datatype TokenCheck = Accepted | Refused | Raises(error: TokenError)

  /** `_verify_token` as written: `except ValueError` does not catch the
      `OverflowError` of the float conversion, and nothing catches the
      `TypeError` of `compare_digest`. */
  function VerifyTokenAsWritten(password: string, token: string, now: real, mac: Mac): (c: TokenCheck)
    ensures password == [] || token == [] || '.' !in token ==> c == Refused
    ensures c == Accepted ==>
      var (ts, sig) := SplitFirst(token, '.').value;
      && ParseInt(ts).Some? && FitsFloat(ParseInt(ts).value)
      && now - ParseInt(ts).value as real <= TokenTtl as real
      && sig == mac(password, ts)
    ensures c == Raises(IntTooLargeForFloat) ==>
      var ts := SplitFirst(token, '.').value.0;
      ParseInt(ts).Some? && !FitsFloat(ParseInt(ts).value)
    ensures c == Raises(NonAsciiDigest) ==>
      var (ts, sig) := SplitFirst(token, '.').value;
      !IsAscii(sig) || !IsAscii(mac(password, ts))
  {
    if password == [] || token == [] then Refused
    else match SplitFirst(token, '.')
      case None => Refused
      case Some((ts, sig)) =>
        match ParseInt(ts)
        case None => Refused
        case Some(t) =>
          if !FitsFloat(t) then Raises(IntTooLargeForFloat)
          else if now - t as real > TokenTtl as real then Refused
          else
            var expected := mac(password, ts);
            if !IsAscii(sig) || !IsAscii(expected) then Raises(NonAsciiDigest)
            else if sig == expected then Accepted
            else Refused
  }

  /** `_verify_token` as evidently intended: every token that is not valid
      is refused, where the code as written raises on some of them. */
  function VerifyToken(password: string, token: string, now: real, mac: Mac): (ok: bool)
    ensures password == [] || token == [] || '.' !in token ==> !ok
    ensures ok ==>
      var (ts, sig) := SplitFirst(token, '.').value;
      && ParseInt(ts).Some? && FitsFloat(ParseInt(ts).value)
      && now - ParseInt(ts).value as real <= TokenTtl as real
      && sig == mac(password, ts)
  {
    if password == [] || token == [] then false
    else match SplitFirst(token, '.')
      case None => false
      case Some((ts, sig)) =>
        match ParseInt(ts)
        case None => false
        case Some(t) =>
          if !FitsFloat(t) || now - t as real > TokenTtl as real then false
          else sig == mac(password, ts)
  }

  /** The intended check accepts exactly what the code as written accepts,
      as long as the signature function yields ASCII text (a hex digest
      does); the tokens on which the code raises are refused. */
  lemma VerifyTokenCorrected(password: string, token: string, now: real, mac: Mac)
    requires token != [] && '.' in token ==> IsAscii(mac(password, SplitFirst(token, '.').value.0))
    ensures VerifyToken(password, token, now, mac) <==> VerifyTokenAsWritten(password, token, now, mac) == Accepted
    ensures VerifyTokenAsWritten(password, token, now, mac).Raises? ==> !VerifyToken(password, token, now, mac)
  {
  }

  /** A timestamp whose integer does not fit a float makes the token check as
      written raise `OverflowError` before the signature is looked at; the
      intended check refuses it. */
  lemma TokenOverflowRaises(password: string, ts: string, sig: string, now: real, mac: Mac)
    requires password != [] && '.' !in ts
    requires ParseInt(ts).Some? && !FitsFloat(ParseInt(ts).value)
    ensures VerifyTokenAsWritten(password, ts + "." + sig, now, mac) == Raises(IntTooLargeForFloat)
    ensures !VerifyToken(password, ts + "." + sig, now, mac)
  {
    SplitFirstJoin(ts, '.', sig);
    assert ts + "." + sig == ts + ['.'] + sig;
  }

  /** Such a timestamp exists: the decimal digits of the overflow limit,
      342 at most, so within the digit limit of `int()`. */
  lemma TokenOverflowWitness(n: nat, password: string, sig: string, now: real, mac: Mac)
    requires password != [] && n == FloatLimit
    ensures VerifyTokenAsWritten(password, NatToString(n) + "." + sig, now, mac) == Raises(IntTooLargeForFloat)
  {
    FloatRange();
    var ts := NatToString(n);
    FloatDigits(n);
    NatToStringRun(n);
    NatToStringValue(n);
    DigitCountAll(ts);
    ParseRun(ts);
    assert '.' !in ts;
    TokenOverflowRaises(password, ts, sig, now, mac);
  }

  /** A fresh timestamp with a signature holding a non-ASCII character makes
      the token check as written raise `TypeError`; the intended check refuses it
      whenever the expected signature is ASCII text. */
  lemma NonAsciiSignatureRaises(password: string, ts: string, sig: string, now: real, mac: Mac)
    requires password != [] && '.' !in ts && !IsAscii(sig)
    requires ParseInt(ts).Some? && FitsFloat(ParseInt(ts).value)
    requires now - ParseInt(ts).value as real <= TokenTtl as real
    ensures VerifyTokenAsWritten(password, ts + "." + sig, now, mac) == Raises(NonAsciiDigest)
    ensures IsAscii(mac(password, ts)) ==> !VerifyToken(password, ts + "." + sig, now, mac)
  {
    SplitFirstJoin(ts, '.', sig);
    assert ts + "." + sig == ts + ['.'] + sig;
    if IsAscii(mac(password, ts)) {
      assert sig != mac(password, ts);
    }
  }

  /** A token minted at a float time under a non-empty password is accepted
      under it exactly while it is at most seven days old, by the intended
      check and, when the signature is ASCII text, by the code as written. */
  lemma TokenRoundTrip(password: string, minted: real, now: real, mac: Mac)
    requires password != []
    requires -(MaxFloat as real) <= minted <= MaxFloat as real
    ensures VerifyToken(password, MakeToken(password, minted, mac), now, mac)
      <==> now - Trunc(minted) as real <= TokenTtl as real
    ensures var ts := IntToString(Trunc(minted));
      IsAscii(mac(password, ts)) ==>
        VerifyTokenAsWritten(password, MakeToken(password, minted, mac), now, mac)
          == if now - Trunc(minted) as real <= TokenTtl as real then Accepted else Refused
  {
    var t := Trunc(minted);
    FloatRange();
    var k: nat := if t < 0 then -t else t;
    FloatDigits(k);
    ParseIntToString(t);
  }

  /** Only the first `.` splits: a token whose signature differs from the
      password's signature of its timestamp is never accepted, even when the
      signature part holds further dots; the code as written refuses it
      (rather than raising) when its timestamp fits a float and both
      signatures are ASCII text. */
  lemma ForgedTokenRefused(password: string, ts: string, sig: string, now: real, mac: Mac)
    requires '.' !in ts && sig != mac(password, ts)
    ensures !VerifyToken(password, ts + "." + sig, now, mac)
    ensures VerifyTokenAsWritten(password, ts + "." + sig, now, mac) != Accepted
    ensures IsAscii(sig) && IsAscii(mac(password, ts)) && (ParseInt(ts).None? || FitsFloat(ParseInt(ts).value))
      ==> VerifyTokenAsWritten(password, ts + "." + sig, now, mac) == Refused
  {
    SplitFirstJoin(ts, '.', sig);
    assert ts + "." + sig == ts + ['.'] + sig;
  }

  // ---- Log dates ----

  /** The date `_get_log_dates` reads from a `*.jsonl` file: its stem. */
  function PlainLogDate(name: string): string {
    Stem(name)
  }

  /** The date it reads from a `*.jsonl.gz` file: the stem without `.jsonl`. */
  function GzLogDate(name: string): string {
    RemoveAll(Stem(name), ".jsonl")
  }

  /** Every date the two globs contribute. */
  function DateSet(files: set<string>): set<string> {
    (set f | f in files && EndsWith(f, ".jsonl") :: PlainLogDate(f))
    + (set f | f in files && EndsWith(f, ".jsonl.gz") :: GzLogDate(f))
  }

  /** A day's plain and compressed logs give the same date. */
  lemma PlainAndGzSameDate(x: string)
    requires x != [] && '.' !in x
    ensures PlainLogDate(x + ".jsonl") == x
    ensures GzLogDate(x + ".jsonl.gz") == x
  {
    StemOfSuffixed(x, "jsonl");
    assert x + ".jsonl" == x + "." + "jsonl";
    StemOfSuffixed(x + ".jsonl", "gz");
    assert x + ".jsonl.gz" == (x + ".jsonl") + "." + "gz";
    RemoveAllSkips(x, ".jsonl", ".jsonl");
    RemoveAllSelf(".jsonl");
    assert x + [] == x;
  }

  predicate Descending(s: seq<string>) {
    forall i, j :: 0 <= i < j < |s| ==> StrLess(s[j], s[i])
  }

  /** `x` put into a strictly descending list that lacks it. */
  function InsertDescending(x: string, s: seq<string>): (r: seq<string>)
    requires Descending(s) && x !in s
    ensures Descending(r) && |r| == |s| + 1
    ensures forall y :: y in r <==> y == x || y in s
  {
    if s == [] || StrLess(s[0], x) then
      forall j | 0 <= j < |s| ensures StrLess(s[j], x) {
        if j > 0 { StrLessTransitive(s[j], s[0], x); }
      }
      [x] + s
    else
      StrLessTotal(x, s[0]);
      var rest := InsertDescending(x, s[1..]);
      assert forall y :: y in rest ==> StrLess(y, s[0]) by {
        forall y | y in rest ensures StrLess(y, s[0]) {
          if y != x {
            var k :| 0 <= k < |s[1..]| && s[1..][k] == y;
            assert s[k + 1] == y;
          }
        }
      }
      assert s == [s[0]] + s[1..];
      [s[0]] + rest
  }

  /** `sorted(dates, reverse=True)` on a set of strings. */
  method SortedDescending(dates: set<string>) returns (r: seq<string>)
    ensures Descending(r)
    ensures forall d :: d in r <==> d in dates
    ensures |r| == |dates|
  {
    r := [];
    var pending := dates;
    while pending != {}
      invariant pending <= dates
      invariant Descending(r)
      invariant forall d :: d in r <==> d in dates - pending
      invariant |r| + |pending| == |dates|
      decreases |pending|
    {
      var d :| d in pending;
      r := InsertDescending(d, r);
      pending := pending - {d};
    }
  }

  /** One `for f in LOGS_DIR.glob(...)` loop: `dates.add(h(f))` for every match. */
  method AddAll(dates: set<string>, matching: set<string>, h: string -> string) returns (r: set<string>)
    ensures r == dates + set f | f in matching :: h(f)
  {
    r := dates;
    var pending := matching;
    while pending != {}
      invariant pending <= matching
      invariant r == dates + set g | g in matching - pending :: h(g)
      decreases |pending|
    {
      var f :| f in pending;
      assert matching - (pending - {f}) == (matching - pending) + {f};
      r := r + {h(f)};
      pending := pending - {f};
    }
    assert matching - {} == matching;
  }

  /** `_get_log_dates`: every date of a daily log, plain or compressed,
      once, latest first. */
  method LogDates(files: set<string>) returns (sorted: seq<string>)
    ensures Descending(sorted)
    ensures forall d :: d in sorted <==> d in DateSet(files)
  {
    var dates: set<string> := {};
    dates := AddAll(dates, (set f | f in files && EndsWith(f, ".jsonl")), PlainLogDate);
    dates := AddAll(dates, (set f | f in files && EndsWith(f, ".jsonl.gz")), GzLogDate);
    sorted := SortedDescending(dates);
  }

  // ---- Log viewer ----

  /** The query of `GET /admin/logs/{date}`. */
  datatype Query = Query(event: string, status: string, page: int, perPage: int, sort: string, order: string)

  /** The filter of `view_log`: an exact `event` match, and a status whose
      text starts with the first character of `status`. */
  predicate Keep(entry: Record, event: string, status: string) {
    && (event == [] || Get(entry, "event") == Str(event))
    && (status == [] || (Get(entry, "status") != Null && StartsWith(Show(Get(entry, "status")), [status[0]])))
  }

  /** One line of a log as `json.loads` reads it: blank or not JSON, a JSON
      value that is not an object (a number, a string, a list, `null`), or
      an object. */
  datatype Line = Unreadable | NonObject | Object(entry: Record)

  /** Whether the loop of `view_log` appends a line. An unreadable line is
      skipped; on a non-object `entry.get` raises `AttributeError`, which the
      loop's `except` swallows, so it is skipped as soon as a filter is set,
      and appended as it is when neither is. */
  predicate KeepLine(line: Line, event: string, status: string) {
    match line
    case Unreadable => false
    case NonObject => event == [] && status == []
    case Object(e) => Keep(e, event, status)
  }

  /** The lines the filter keeps, in file order. */
  function Filter(lines: seq<Line>, event: string, status: string): (kept: seq<Line>)
    ensures |kept| <= |lines|
    ensures forall l :: l in kept <==> l in lines && KeepLine(l, event, status)
  {
    if lines == [] then []
    else
      var n := |lines| - 1;
      assert lines == lines[..n] + [lines[n]];
      Filter(lines[..n], event, status)
      + (if KeepLine(lines[n], event, status) then [lines[n]] else [])
  }

  /** The filter works line by line: filtering two parts of a log one after
      the other gives the two filtered parts in file order. */
  lemma {:induction false} FilterAppend(a: seq<Line>, b: seq<Line>, event: string, status: string)
    ensures Filter(a + b, event, status) == Filter(a, event, status) + Filter(b, event, status)
    decreases |b|
  {
    if b == [] {
      assert a + b == a;
    } else {
      var n := |b| - 1;
      assert (a + b)[..|a + b| - 1] == a + b[..n];
      FilterAppend(a, b[..n], event, status);
    }
  }

  /** A kept line appears as many times as in the log, a dropped one never:
      `total` counts every line that passes, repeats included. */
  lemma {:induction false} FilterCount(lines: seq<Line>, event: string, status: string)
    ensures forall l :: (multiset(Filter(lines, event, status))[l]
                         == if KeepLine(l, event, status) then multiset(lines)[l] else 0)
  {
    if lines != [] {
      var n := |lines| - 1;
      assert lines == lines[..n] + [lines[n]];
      FilterCount(lines[..n], event, status);
    }
  }

  /** The objects among kept lines, in order. */
  function Entries(kept: seq<Line>): (entries: seq<Record>)
    ensures |entries| <= |kept|
    ensures forall e :: e in entries <==> Object(e) in kept
    ensures (forall i :: 0 <= i < |kept| ==> kept[i].Object?) ==> |entries| == |kept|
  {
    if kept == [] then []
    else
      var n := |kept| - 1;
      assert kept == kept[..n] + [kept[n]];
      Entries(kept[..n]) + (if kept[n].Object? then [kept[n].entry] else [])
  }

  /** Projecting the objects keeps file order: the objects of two parts are
      those of the first part followed by those of the second. */
  lemma {:induction false} EntriesAppend(a: seq<Line>, b: seq<Line>)
    ensures Entries(a + b) == Entries(a) + Entries(b)
    decreases |b|
  {
    if b == [] {
      assert a + b == a;
    } else {
      var n := |b| - 1;
      assert (a + b)[..|a + b| - 1] == a + b[..n];
      EntriesAppend(a, b[..n]);
    }
  }

  /** `e.get(sort, "")` */
  function SortKey(e: Record, key: string): Value {
    GetOr(e, key, Str(""))
  }

  /** Python's `<` on two sort keys; `None` and mixed kinds raise `TypeError`. */
  predicate KeyLess(a: Value, b: Value) {
    match (a, b)
    case (Str(x), Str(y)) => StrLess(x, y)
    case (Int(x), Int(y)) => x < y
    case _ => false
  }

  predicate OfKind(v: Value, str: bool) {
    if str then v.Str? else v.Int?
  }

  predicate Homogeneous(s: seq<Record>, key: string, str: bool) {
    forall i :: 0 <= i < |s| ==> OfKind(SortKey(s[i], key), str)
  }

  /** `list.sort` compares some pair of keys as soon as there are two
      entries, and compares some neighbours of different kinds whenever
      both kinds occur; it succeeds exactly on these lists. */
  predicate Orderable(s: seq<Record>, key: string) {
    |s| <= 1 || Homogeneous(s, key, true) || Homogeneous(s, key, false)
  }

  /** Python can order the two keys: both strings or both integers. */
  predicate Comparable(a: Value, b: Value) {
    (a.Str? && b.Str?) || (a.Int? && b.Int?)
  }

  /** The sort succeeds exactly when every two entries' keys can be
      compared with each other. */
  lemma OrderablePairwise(s: seq<Record>, key: string)
    ensures Orderable(s, key) <==>
      forall i, j :: 0 <= i < j < |s| ==> Comparable(SortKey(s[i], key), SortKey(s[j], key))
  {
    if |s| >= 2 && forall i, j :: 0 <= i < j < |s| ==> Comparable(SortKey(s[i], key), SortKey(s[j], key)) {
      var str := SortKey(s[0], key).Str?;
      forall i | 0 <= i < |s| ensures OfKind(SortKey(s[i], key), str) {
        if i == 0 {
          assert Comparable(SortKey(s[0], key), SortKey(s[1], key));
        } else {
          assert Comparable(SortKey(s[0], key), SortKey(s[i], key));
        }
      }
    }
  }

  /** Key `a` goes strictly before key `b`: ascending, or with `reverse`. */
  predicate Before(a: Value, b: Value, desc: bool) {
    if desc then KeyLess(b, a) else KeyLess(a, b)
  }

  lemma BeforeIrreflexive(a: Value, desc: bool)
    ensures !Before(a, a, desc)
  {
    if a.Str? { StrLessIrreflexive(a.s); }
  }

  lemma BeforeTransitive(a: Value, b: Value, c: Value, desc: bool)
    requires Before(a, b, desc) && Before(b, c, desc)
    ensures Before(a, c, desc)
  {
    if a.Str? {
      if desc { StrLessTransitive(c.s, b.s, a.s); } else { StrLessTransitive(a.s, b.s, c.s); }
    }
  }

  lemma BeforeTotal(a: Value, b: Value, desc: bool, str: bool)
    requires OfKind(a, str) && OfKind(b, str) && a != b
    ensures Before(a, b, desc) || Before(b, a, desc)
  {
    if str { StrLessTotal(a.s, b.s); }
  }

  predicate Precedes(x: Record, y: Record, key: string, desc: bool) {
    Before(SortKey(x, key), SortKey(y, key), desc)
  }

  /** No entry is followed by one that should have come first. */
  predicate SortedBy(s: seq<Record>, key: string, desc: bool) {
    forall i, j :: 0 <= i < j < |s| ==> !Precedes(s[j], s[i], key, desc)
  }

  /** `x` placed after the entries that strictly precede it. */
  function Insert(x: Record, t: seq<Record>, key: string, desc: bool): (r: seq<Record>)
    ensures multiset(r) == multiset(t) + multiset{x}
  {
    if t == [] || !Precedes(t[0], x, key, desc) then [x] + t
    else
      assert t == [t[0]] + t[1..];
      [t[0]] + Insert(x, t[1..], key, desc)
  }

  /** `entries.sort(key=lambda e: e.get(key, ""), reverse=desc)`, which is
      stable in both directions. */
  function SortBy(s: seq<Record>, key: string, desc: bool): (r: seq<Record>)
    ensures multiset(r) == multiset(s)
  {
    if s == [] then []
    else
      assert s == [s[0]] + s[1..];
      Insert(s[0], SortBy(s[1..], key, desc), key, desc)
  }

  lemma InsertHomogeneous(x: Record, t: seq<Record>, key: string, desc: bool, str: bool)
    requires Homogeneous(t, key, str) && OfKind(SortKey(x, key), str)
    ensures Homogeneous(Insert(x, t, key, desc), key, str)
  {
    var r := Insert(x, t, key, desc);
    forall i | 0 <= i < |r| ensures OfKind(SortKey(r[i], key), str) {
      assert r[i] in multiset(r);
      if r[i] != x {
        assert r[i] in multiset(t);
        var k :| 0 <= k < |t| && t[k] == r[i];
      }
    }
  }

  /** `x` goes in front of a sorted list whose head does not precede it. */
  lemma InsertFront(x: Record, t: seq<Record>, key: string, desc: bool, str: bool)
    requires Homogeneous(t, key, str) && OfKind(SortKey(x, key), str) && SortedBy(t, key, desc)
    requires t == [] || !Precedes(t[0], x, key, desc)
    ensures SortedBy([x] + t, key, desc)
  {
    forall j | 0 <= j < |t| ensures !Precedes(t[j], x, key, desc) {
      if j > 0 && Precedes(t[j], x, key, desc) {
        var a, b, c := SortKey(t[j], key), SortKey(t[0], key), SortKey(x, key);
        if b != c {
          BeforeTotal(b, c, desc, str);
          BeforeTransitive(a, c, b, desc);
        }
      }
    }
    var r := [x] + t;
    forall i, j | 0 <= i < j < |r| ensures !Precedes(r[j], r[i], key, desc) {
      if i > 0 {
        assert r[i] == t[i - 1] && r[j] == t[j - 1];
      } else {
        assert r[j] == t[j - 1];
      }
    }
  }

  /** `t0`, preceding `x`, stays in front of `x` and of the rest of its list. */
  lemma InsertBehind(x: Record, t: seq<Record>, key: string, desc: bool, rest: seq<Record>)
    requires t != [] && Precedes(t[0], x, key, desc) && SortedBy(t, key, desc)
    requires multiset(rest) == multiset(t[1..]) + multiset{x} && SortedBy(rest, key, desc)
    ensures SortedBy([t[0]] + rest, key, desc)
  {
    var t0 := t[0];
    var r := [t0] + rest;
    forall j | 0 <= j < |rest| ensures !Precedes(rest[j], t0, key, desc) {
      var y := rest[j];
      assert y in multiset(rest);
      if y == x {
        if Precedes(x, t0, key, desc) {
          BeforeTransitive(SortKey(t0, key), SortKey(x, key), SortKey(t0, key), desc);
          BeforeIrreflexive(SortKey(t0, key), desc);
        }
      } else {
        assert y in multiset(t[1..]);
        var k :| 0 <= k < |t[1..]| && t[1..][k] == y;
        assert t[k + 1] == y;
      }
    }
    forall i, j | 0 <= i < j < |r| ensures !Precedes(r[j], r[i], key, desc) {
      if i > 0 {
        assert r[i] == rest[i - 1] && r[j] == rest[j - 1];
      } else {
        assert r[j] == rest[j - 1];
      }
    }
  }

  lemma SortedTail(t: seq<Record>, key: string, desc: bool)
    requires t != [] && SortedBy(t, key, desc)
    ensures SortedBy(t[1..], key, desc)
  {
    forall i, j | 0 <= i < j < |t[1..]| ensures !Precedes(t[1..][j], t[1..][i], key, desc) {
      assert t[1..][j] == t[j + 1] && t[1..][i] == t[i + 1];
    }
  }

  /** Inserting into a sorted list of one kind of key keeps it sorted. */
  lemma {:induction false} InsertSorted(x: Record, t: seq<Record>, key: string, desc: bool, str: bool)
    requires Homogeneous(t, key, str) && OfKind(SortKey(x, key), str) && SortedBy(t, key, desc)
    ensures SortedBy(Insert(x, t, key, desc), key, desc)
    decreases |t|
  {
    if t == [] || !Precedes(t[0], x, key, desc) {
      InsertFront(x, t, key, desc, str);
    } else {
      assert Homogeneous(t[1..], key, str) by {
        forall i | 0 <= i < |t[1..]| ensures OfKind(SortKey(t[1..][i], key), str) {
          assert t[1..][i] == t[i + 1];
        }
      }
      SortedTail(t, key, desc);
      InsertSorted(x, t[1..], key, desc, str);
      InsertBehind(x, t, key, desc, Insert(x, t[1..], key, desc));
    }
  }

  /** The sort puts every orderable list in order. */
  lemma {:induction false} SortBySorted(s: seq<Record>, key: string, desc: bool)
    requires Orderable(s, key)
    ensures SortedBy(SortBy(s, key, desc), key, desc)
  {
    if |s| <= 1 {
    } else {
      var str := Homogeneous(s, key, true);
      SortByHomogeneous(s, key, desc, str);
    }
  }

  lemma {:induction false} SortByHomogeneous(s: seq<Record>, key: string, desc: bool, str: bool)
    requires Homogeneous(s, key, str)
    ensures SortedBy(SortBy(s, key, desc), key, desc) && Homogeneous(SortBy(s, key, desc), key, str)
  {
    if s != [] {
      assert Homogeneous(s[1..], key, str) by {
        forall i | 0 <= i < |s[1..]| ensures OfKind(SortKey(s[1..][i], key), str) {
          assert s[1..][i] == s[i + 1];
        }
      }
      SortByHomogeneous(s[1..], key, desc, str);
      InsertSorted(s[0], SortBy(s[1..], key, desc), key, desc, str);
      InsertHomogeneous(s[0], SortBy(s[1..], key, desc), key, desc, str);
    }
  }

  /** The entries whose key is `k`, in order. */
  function WithKey(s: seq<Record>, key: string, k: Value): (r: seq<Record>)
    ensures forall e :: e in r <==> e in s && SortKey(e, key) == k
  {
    if s == [] then []
    else (if SortKey(s[0], key) == k then [s[0]] else []) + WithKey(s[1..], key, k)
  }

  lemma {:induction false} InsertStable(x: Record, t: seq<Record>, key: string, desc: bool, k: Value)
    ensures WithKey(Insert(x, t, key, desc), key, k)
      == (if SortKey(x, key) == k then [x] else []) + WithKey(t, key, k)
    decreases |t|
  {
    if t == [] || !Precedes(t[0], x, key, desc) {
      WithKeyCons(x, t, key, k);
    } else {
      var rest := Insert(x, t[1..], key, desc);
      assert Insert(x, t, key, desc) == [t[0]] + rest;
      var head := if SortKey(t[0], key) == k then [t[0]] else [];
      var mid := if SortKey(x, key) == k then [x] else [];
      var tail := WithKey(t[1..], key, k);
      WithKeyCons(t[0], rest, key, k);
      InsertStable(x, t[1..], key, desc, k);
      assert WithKey(Insert(x, t, key, desc), key, k) == head + (mid + tail);
      WithKeyCons(t[0], t[1..], key, k);
      assert t == [t[0]] + t[1..];
      assert WithKey(t, key, k) == head + tail;
      assert Before(SortKey(t[0], key), SortKey(x, key), desc);
      assert !(SortKey(t[0], key) == k && SortKey(x, key) == k) by {
        BeforeIrreflexive(k, desc);
      }
      SwapEmpty(head, mid, tail);
    }
  }

  /** Two pieces of which one is empty can trade places. */
  lemma SwapEmpty<T>(a: seq<T>, b: seq<T>, c: seq<T>)
    requires a == [] || b == []
    ensures a + (b + c) == b + (a + c)
  {
    if a == [] {
      assert a + (b + c) == b + c && a + c == c;
    } else {
      assert b + (a + c) == a + c && b + c == c;
    }
  }

  /** `WithKey` of a list with a first entry. */
  lemma WithKeyCons(e: Record, rest: seq<Record>, key: string, k: Value)
    ensures WithKey([e] + rest, key, k) == (if SortKey(e, key) == k then [e] else []) + WithKey(rest, key, k)
  {
    assert ([e] + rest)[1..] == rest;
  }

  /** The sort is stable: entries with equal keys keep their relative order. */
  lemma {:induction false} SortByStable(s: seq<Record>, key: string, desc: bool, k: Value)
    ensures WithKey(SortBy(s, key, desc), key, k) == WithKey(s, key, k)
  {
    if s != [] {
      SortByStable(s[1..], key, desc, k);
      InsertStable(s[0], SortBy(s[1..], key, desc), key, desc, k);
    }
  }

  function Max(a: int, b: int): int { if a >= b then a else b }
  function Min(a: int, b: int): int { if a <= b then a else b }

  /** The page shown: its number, size, the page count and the slice bounds. */
  datatype Window = Window(page: int, perPage: int, totalPages: int, start: int, end: int)

  /** `(total + size - 1) // size`, the page count before clamping to 1. */
  lemma CeilDiv(total: nat, size: int)
    requires size > 0
    ensures var q := (total + size - 1) / size;
      && q >= 0 && (total == 0 ==> q == 0)
      && (total > 0 ==> q >= 1 && (q - 1) * size < total <= q * size)
  {
    var q := (total + size - 1) / size;
    var r := (total + size - 1) % size;
    assert total + size - 1 == q * size + r;
    assert (q - 1) * size == q * size - size;
  }

  lemma MulMono(a: int, b: int, c: int)
    requires a <= b && c >= 0
    ensures a * c <= b * c
  {
  }

  /** Page `p` of `pages` pages of `size` starts inside the entries, and
      every page before the last is full. */
  lemma PageSpan(total: nat, size: int, pages: int, p: int)
    requires size > 0 && 1 <= p <= pages
    requires total == 0 ==> pages == 1
    requires total > 0 ==> (pages - 1) * size < total
    ensures 0 <= (p - 1) * size <= total
    ensures p < pages ==> (p - 1) * size + size <= total
  {
    MulMono(0, p - 1, size);
    MulMono(p - 1, pages - 1, size);
    if p < pages {
      MulMono(p, pages - 1, size);
      assert (p - 1) * size + size == p * size;
    }
  }

  /** The clamping and slicing of `view_log` for `total` filtered entries. */
  function Paginate(total: nat, page: int, perPage: int): (w: Window)
    ensures 10 <= w.perPage <= 500 && (10 <= perPage <= 500 ==> w.perPage == perPage)
    ensures 1 <= w.page <= w.totalPages
    ensures total == 0 ==> w.totalPages == 1
    ensures total > 0 ==> (w.totalPages - 1) * w.perPage < total <= w.totalPages * w.perPage
    ensures 1 <= page <= w.totalPages ==> w.page == page
    ensures page < 1 ==> w.page == 1
    ensures page > w.totalPages ==> w.page == w.totalPages
    ensures 0 <= w.start <= w.end <= total && w.end - w.start <= w.perPage
    ensures w.start == (w.page - 1) * w.perPage && w.end == Min(w.start + w.perPage, total)
    ensures w.page < w.totalPages ==> w.end - w.start == w.perPage
  {
    var size := Max(10, Min(perPage, 500));
    CeilDiv(total, size);
    var pages := Max(1, (total + size - 1) / size);
    var p := Min(Max(1, page), pages);
    var start := (p - 1) * size;
    PageSpan(total, size, pages, p);
    Window(p, size, pages, start, Min(start + size, total))
  }

  /** A product below another with the same positive factor has the
      smaller other factor. */
  lemma MulBelow(a: int, b: int, c: int)
    requires c > 0 && a * c < b * c
    ensures a < b
  {
    if a >= b {
      MulMono(b, a, c);
    }
  }

  /** Integer division places `i` on page `i / size + 1`. */
  lemma DivBounds(i: nat, size: int)
    requires size > 0
    ensures var p := i / size + 1; (p - 1) * size <= i < (p - 1) * size + size
  {
  }

  /** Each entry is shown on exactly one page: entry `i` on page `i / perPage + 1`. */
  lemma PageOfEntry(total: nat, perPage: int, i: nat)
    requires 10 <= perPage <= 500 && i < total
    ensures var w := Paginate(total, i / perPage + 1, perPage);
      w.page == i / perPage + 1 && w.start <= i < w.end
  {
    var p := i / perPage + 1;
    DivBounds(i, perPage);
    var w := Paginate(total, p, perPage);
    assert w.perPage == perPage;
    MulBelow(p - 1, w.totalPages, perPage);
    assert w.page == p;
  }

  /** What the viewer shows. */
  datatype LogPage = LogPage(entries: seq<Record>, page: int, perPage: int, total: nat, totalPages: int)

  /** What escapes `view_log`'s sort. */
  datatype ViewError =
    /** `AttributeError` from the sort key's `e.get` on a kept non-object;
        `list.sort` computes every key, even of a single entry, before it
        compares any. */
    | NotAnObject
    /** `TypeError` from comparing unorderable keys. */
    | UnorderableKeys

  /** `view_log` on the lines of one day's log. */
  function View(lines: seq<Line>, q: Query): Result<LogPage, ViewError> {
    var kept := Filter(lines, q.event, q.status);
    if NonObject in kept then Err(NotAnObject)
    else
      var filtered := Entries(kept);
      if !Orderable(filtered, q.sort) then Err(UnorderableKeys)
      else
        var sorted := SortBy(filtered, q.sort, q.order == "desc");
        var w := Paginate(|sorted|, q.page, q.perPage);
        Ok(LogPage(sorted[w.start..w.end], w.page, w.perPage, |sorted|, w.totalPages))
  }

  /** The view fails on a non-object line exactly when no filter is set, and
      otherwise only on unorderable keys. A shown page holds at most
      `perPage` kept objects, in order, and `total` counts every kept line. */
  lemma ViewPage(lines: seq<Line>, q: Query)
    ensures View(lines, q) == Err(NotAnObject) <==> NonObject in lines && q.event == [] && q.status == []
    ensures View(lines, q).Err? <==>
      NonObject in Filter(lines, q.event, q.status) || !Orderable(Entries(Filter(lines, q.event, q.status)), q.sort)
    ensures View(lines, q).Ok? ==>
      var pg := View(lines, q).value;
      && pg.total == |Filter(lines, q.event, q.status)|
      && |pg.entries| <= pg.perPage
      && 1 <= pg.page <= pg.totalPages
      && (forall e :: e in pg.entries ==> Object(e) in lines && Keep(e, q.event, q.status))
      && SortedBy(pg.entries, q.sort, q.order == "desc")
  {
    var kept := Filter(lines, q.event, q.status);
    var filtered := Entries(kept);
    if NonObject !in kept && Orderable(filtered, q.sort) {
      forall i | 0 <= i < |kept| ensures kept[i].Object? {
        assert kept[i] in kept;
      }
      var desc := q.order == "desc";
      var sorted := SortBy(filtered, q.sort, desc);
      SortBySorted(filtered, q.sort, desc);
      var w := Paginate(|sorted|, q.page, q.perPage);
      SliceOfPermutation(filtered, sorted, w.start, w.end);
      SliceSorted(sorted, w.start, w.end, q.sort, desc);
    }
  }

  /** A slice of a permutation holds only entries of the original. */
  lemma SliceOfPermutation(s: seq<Record>, t: seq<Record>, a: int, b: int)
    requires multiset(t) == multiset(s) && 0 <= a <= b <= |t|
    ensures forall e :: e in t[a..b] ==> e in s
  {
    forall e | e in t[a..b] ensures e in s {
      var k :| a <= k < b && t[k] == e;
      assert e in multiset(t);
    }
  }

  /** A slice of a sorted list is sorted. */
  lemma SliceSorted(s: seq<Record>, a: int, b: int, key: string, desc: bool)
    requires SortedBy(s, key, desc) && 0 <= a <= b <= |s|
    ensures SortedBy(s[a..b], key, desc)
  {
    var t := s[a..b];
    forall i, j | 0 <= i < j < |t| ensures !Precedes(t[j], t[i], key, desc) {
      assert t[i] == s[a + i] && t[j] == s[a + j];
    }
  }

  /** The loop of `view_log` over the log's lines. */
  method FilterEntries(lines: seq<Line>, event: string, status: string) returns (entries: seq<Line>)
    ensures entries == Filter(lines, event, status)
  {
    entries := [];
    for k := 0 to |lines|
      invariant entries == Filter(lines[..k], event, status)
    {
      assert lines[..k + 1][..k] == lines[..k];
      if lines[k].NonObject? {
        if event == [] && status == [] {
          entries := entries + [lines[k]];
        }
      } else if lines[k].Object? {
        var entry := lines[k].entry;
        var keep := true;
        if event != [] && Get(entry, "event") != Str(event) {
          keep := false;
        }
        if keep && status != [] {
          var entryStatus := Get(entry, "status");
          if entryStatus == Null {
            keep := false;
          } else if !StartsWith(Show(entryStatus), [status[0]]) {
            keep := false;
          }
        }
        if keep {
          entries := entries + [lines[k]];
        }
      }
    }
    assert lines[..|lines|] == lines;
  }

  /** `view_log`: the filter loop, the sort, then the clamped window. */
  method ViewLog(lines: seq<Line>, q: Query) returns (r: Result<LogPage, ViewError>)
    ensures r == View(lines, q)
  {
    var kept := FilterEntries(lines, q.event, q.status);
    var reverse := q.order == "desc";
    if NonObject in kept {
      return Err(NotAnObject);
    }
    var entries := Entries(kept);
    if !Orderable(entries, q.sort) {
      return Err(UnorderableKeys);
    }
    entries := SortBy(entries, q.sort, reverse);
    var w := Paginate(|entries|, q.page, q.perPage);
    return Ok(LogPage(entries[w.start..w.end], w.page, w.perPage, |entries|, w.totalPages));
  }

  /** The query parameters `paginate_url(p)` writes, in order. */
  function PageParams(p: int, perPage: int, sort: string, order: string, event: string, status: string)
    : (params: seq<(string, string)>)
    ensures |params| >= 4
    ensures params[0] == ("page", IntToString(p)) && params[1] == ("per_page", IntToString(perPage))
    ensures params[2] == ("sort", sort) && params[3] == ("order", order)
    ensures forall k :: 4 <= k < |params| ==> params[k] == ("event", event) || params[k] == ("status", status)
  {
    [("page", IntToString(p)), ("per_page", IntToString(perPage)), ("sort", sort), ("order", order)]
    + (if event != [] then [("event", event)] else [])
    + (if status != [] then [("status", status)] else [])
  }

  /** `event` and `status` are passed on exactly when they are set. */
  lemma PageParamsOptional(p: int, perPage: int, sort: string, order: string, event: string, status: string)
    ensures var params := PageParams(p, perPage, sort, order, event, status);
      && ((exists k :: 4 <= k < |params| && params[k].0 == "event") <==> event != [])
      && ((exists k :: 4 <= k < |params| && params[k].0 == "status") <==> status != [])
  {
    var params := PageParams(p, perPage, sort, order, event, status);
    if event != [] {
      assert params[4].0 == "event";
    }
    if status != [] {
      assert params[|params| - 1].0 == "status";
    }
  }

  /** `?k1=v1&k2=v2…` */
  function QueryString(params: seq<(string, string)>): string {
    if params == [] then ""
    else
      var last := params[|params| - 1];
      QueryString(params[..|params| - 1]) + (if |params| == 1 then "?" else "&") + last.0 + "=" + last.1
  }

  /** `paginate_url(p)` */
  function PaginateUrl(date: string, p: int, perPage: int, sort: string, order: string, event: string, status: string): (url: string)
    ensures StartsWith(url, "/admin/logs/" + date + "?page=")
  {
    var params := PageParams(p, perPage, sort, order, event, status);
    assert params[..1] == [params[0]];
    QueryStringHead(params);
    "/admin/logs/" + date + QueryString(params)
  }

  lemma {:induction false} QueryStringHead(params: seq<(string, string)>)
    requires params != []
    ensures StartsWith(QueryString(params), "?" + params[0].0 + "=")
  {
    if |params| > 1 {
      var init := params[..|params| - 1];
      assert init[0] == params[0];
      QueryStringHead(init);
    }
  }
}
