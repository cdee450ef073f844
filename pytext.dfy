/** The Python string operations the crawler and the web app rely on, over
    `seq<char>`: `str.isspace`, `str.strip`, `str.replace(p, "")`,
    `str.split(sep)`, `str(int)`, `int(str)`, `PurePath.stem` and the
    code-point order of `str` comparison. */
module PyText {
  import opened Base

  /** `c.isspace()`: the characters Python treats as whitespace. */
  predicate IsSpace(c: char) {
    || c == ' '
    || '\t' <= c <= '\r'
    || '\U{1C}' <= c <= '\U{1F}'
    || c == '\U{85}' || c == '\U{A0}' || c == '\U{1680}'
    || '\U{2000}' <= c <= '\U{200A}'
    || c == '\U{2028}' || c == '\U{2029}' || c == '\U{202F}' || c == '\U{205F}' || c == '\U{3000}'
  }

  predicate AllSpace(s: string) {
    forall i :: 0 <= i < |s| ==> IsSpace(s[i])
  }

  /** `s.lstrip()` */
  function StripStart(s: string): string {
    if s != [] && IsSpace(s[0]) then StripStart(s[1..]) else s
  }

  /** `lstrip` removes exactly a run of leading whitespace. */
  lemma {:induction false} StripStartSpec(s: string)
    ensures var r := StripStart(s);
      && |r| <= |s| && r == s[|s| - |r|..]
      && (r == [] || !IsSpace(r[0]))
      && AllSpace(s[..|s| - |r|])
  {
    if s != [] && IsSpace(s[0]) {
      StripStartSpec(s[1..]);
      var r := StripStart(s);
      assert s[..|s| - |r|] == [s[0]] + s[1..][..|s| - 1 - |r|];
    }
  }

  /** `s.rstrip()` */
  function StripEnd(s: string): string {
    if s != [] && IsSpace(s[|s| - 1]) then StripEnd(s[..|s| - 1]) else s
  }

  /** `rstrip` removes exactly a run of trailing whitespace. */
  lemma {:induction false} StripEndSpec(s: string)
    ensures var r := StripEnd(s);
      && |r| <= |s| && r == s[..|r|]
      && (r == [] || !IsSpace(r[|r| - 1]))
      && AllSpace(s[|r|..])
  {
    if s != [] && IsSpace(s[|s| - 1]) {
      StripEndSpec(s[..|s| - 1]);
      var r := StripEnd(s);
      assert s[|r|..] == s[..|s| - 1][|r|..] + [s[|s| - 1]];
    }
  }

  /** `s.strip()`: the text between the leading and the trailing whitespace. */
  function Strip(s: string): string {
    StripEnd(StripStart(s))
  }

  /** `strip()` never lengthens the text, leaves no whitespace at either end,
      and leaves nothing exactly when the text is all whitespace. */
  lemma StripSpec(s: string)
    ensures var r := Strip(s);
      && (r == [] <==> AllSpace(s))
      && (r != [] ==> !IsSpace(r[0]) && !IsSpace(r[|r| - 1]))
      && |r| <= |s|
  {
    StripBothEnds(s);
    StripStartSpec(s);
    StripEndSpec(StripStart(s));
  }

  lemma StripBothEnds(s: string)
    ensures var r := StripEnd(StripStart(s));
      && (r == [] <==> AllSpace(s))
      && (r != [] ==> !IsSpace(r[0]))
  {
    var t := StripStart(s);
    var r := StripEnd(t);
    StripStartSpec(s);
    StripEndSpec(t);
    if t == [] {
      assert s[..|s|] == s;
      assert AllSpace(s);
    } else {
      assert t[0] == s[|s| - |t|] && !IsSpace(t[0]);
      assert !AllSpace(s);
      assert r != [];
      assert r[0] == t[0];
    }
  }

  /** Text that already has no surrounding whitespace is left as it is. */
  lemma StripUnchanged(s: string)
    requires s == [] || (!IsSpace(s[0]) && !IsSpace(s[|s| - 1]))
    ensures Strip(s) == s
  {
  }

  predicate StartsWith(s: string, prefix: string) {
    |prefix| <= |s| && s[..|prefix|] == prefix
  }

  predicate EndsWith(s: string, suffix: string) {
    |suffix| <= |s| && s[|s| - |suffix|..] == suffix
  }

  /** `s.replace(p, "")`: Python scans left to right and removes every
      non-overlapping occurrence of `p`. */
  function RemoveAll(s: string, p: string): (r: string)
    requires p != []
    ensures |r| <= |s|
    decreases |s|
  {
    if |s| < |p| then s
    else if s[..|p|] == p then RemoveAll(s[|p|..], p)
    else [s[0]] + RemoveAll(s[1..], p)
  }

  /** A text that does not hold the first character of `p` passes through
      `replace(p, "")` untouched, whatever follows it. */
  lemma {:induction false} RemoveAllSkips(x: string, t: string, p: string)
    requires p != [] && p[0] !in x
    ensures RemoveAll(x + t, p) == x + RemoveAll(t, p)
    decreases |x|
  {
    if x != [] {
      var s := x + t;
      assert s[0] == x[0] && x[0] != p[0];
      assert |s| >= |p| ==> s[..|p|][0] == x[0];
      assert s[1..] == x[1..] + t;
      RemoveAllSkips(x[1..], t, p);
      if |s| < |p| {
        assert |x + t| < |p|;
        assert |t| < |p|;
        assert RemoveAll(t, p) == t;
        assert RemoveAll(s, p) == s;
      } else {
        assert x == [x[0]] + x[1..];
        assert RemoveAll(s, p) == [s[0]] + RemoveAll(s[1..], p);
        calc {
          RemoveAll(s, p);
          [x[0]] + RemoveAll(x[1..] + t, p);
          [x[0]] + (x[1..] + RemoveAll(t, p));
          x + RemoveAll(t, p);
        }
      }
    } else {
      assert x + t == t;
      assert x + RemoveAll(t, p) == RemoveAll(t, p);
    }
  }

  /** Removing `p` from `p` itself leaves nothing. */
  lemma RemoveAllSelf(p: string)
    requires p != []
    ensures RemoveAll(p, p) == []
  {
    assert p[..|p|] == p;
    assert p[|p|..] == [];
  }

  /** A text shorter than `p` holds no occurrence of it. */
  lemma RemoveAllShort(s: string, p: string)
    requires p != [] && |s| < |p|
    ensures RemoveAll(s, p) == s
  {
  }

  /** `s.split(sep)` for a one-character separator: the pieces between
      separators, at least one, possibly empty. */
  function Split(s: string, sep: char): (parts: seq<string>)
    ensures |parts| >= 1
    ensures forall i :: 0 <= i < |parts| ==> sep !in parts[i]
    ensures Join(parts, sep) == s
  {
    if s == [] then [""]
    else
      var rest := Split(s[1..], sep);
      if s[0] == sep then
        assert ([""] + rest)[1..] == rest;
        [""] + rest
      else
        var parts := [[s[0]] + rest[0]] + rest[1..];
        assert parts[1..] == rest[1..];
        assert forall i :: 1 <= i < |parts| ==> parts[i] == rest[i];
        assert Join(parts, sep) == s by {
          if |rest| == 1 {
            assert s == [s[0]] + s[1..];
          } else {
            assert Join(rest, sep) == rest[0] + [sep] + Join(rest[1..], sep);
            assert s == [s[0]] + s[1..];
          }
        }
        parts
  }

  /** `sep.join(parts)`, the inverse of `Split`. */
  function Join(parts: seq<string>, sep: char): string
    requires |parts| >= 1
  {
    if |parts| == 1 then parts[0] else parts[0] + [sep] + Join(parts[1..], sep)
  }

  lemma {:induction false} SplitPrefix(x: string, t: string, sep: char)
    requires sep !in x
    ensures Split(x + t, sep) == [x + Split(t, sep)[0]] + Split(t, sep)[1..]
    decreases |x|
  {
    if x != [] {
      assert (x + t)[1..] == x[1..] + t;
      assert (x + t)[0] == x[0];
      SplitPrefix(x[1..], t, sep);
      assert [x[0]] + (x[1..] + Split(t, sep)[0]) == x + Split(t, sep)[0];
    } else {
      var parts := Split(t, sep);
      assert x + t == t;
      assert x + parts[0] == parts[0];
      assert [parts[0]] + parts[1..] == parts;
    }
  }

  /** Splitting what `Join` produced gives back the pieces, provided no piece
      holds the separator: `Split` and `Join` are inverses. */
  lemma {:induction false} SplitJoin(parts: seq<string>, sep: char)
    requires |parts| >= 1
    requires forall i :: 0 <= i < |parts| ==> sep !in parts[i]
    ensures Split(Join(parts, sep), sep) == parts
    decreases |parts|
  {
    if |parts| == 1 {
      SplitPrefix(parts[0], [], sep);
      assert parts[0] + [] == parts[0];
    } else {
      var rest := Join(parts[1..], sep);
      SplitJoin(parts[1..], sep);
      var tail := [sep] + rest;
      assert Join(parts, sep) == parts[0] + tail;
      SplitPrefix(parts[0], tail, sep);
      assert tail[1..] == rest && tail[0] == sep;
      assert Split(tail, sep) == [""] + parts[1..];
      assert parts[0] + "" == parts[0];
      assert ([""] + parts[1..])[1..] == parts[1..];
      assert [parts[0]] + parts[1..] == parts;
    }
  }

  predicate IsDigit(c: char) {
    '0' <= c <= '9'
  }

  function DigitOf(c: char): (d: nat)
    requires IsDigit(c)
    ensures d < 10
  {
    c as int - '0' as int
  }

  function DigitChar(d: nat): (c: char)
    requires d < 10
    ensures IsDigit(c) && DigitOf(c) == d
  {
    ('0' as int + d) as char
  }

  /** `str(n)` for a natural number: its decimal digits, with no leading zero. */
  function NatToString(n: nat): (r: string)
    ensures r != [] && forall i :: 0 <= i < |r| ==> IsDigit(r[i])
    ensures |r| > 1 ==> r[0] != '0'
  {
    if n < 10 then [DigitChar(n)] else NatToString(n / 10) + [DigitChar(n % 10)]
  }

  /** `str(i)` for any integer. */
  function IntToString(i: int): (r: string)
    ensures r != [] && !IsSpace(r[0]) && !IsSpace(r[|r| - 1])
    ensures forall k :: 0 <= k < |r| ==> r[k] == '-' || IsDigit(r[k])
  {
    if i < 0 then "-" + NatToString(-i) else NatToString(i)
  }

  /** Digits with single underscores between them: what `int()` accepts
      after the sign. */
  predicate IsDigitRun(s: string) {
    && s != [] && IsDigit(s[0]) && IsDigit(s[|s| - 1])
    && (forall i :: 0 <= i < |s| ==> IsDigit(s[i]) || s[i] == '_')
    && (forall i :: 0 <= i < |s| - 1 ==> s[i] == '_' ==> s[i + 1] != '_')
  }

  /** The number a digit run denotes; underscores are separators only. */
  function DigitsValue(s: string): nat {
    if s == [] then 0
    else if IsDigit(s[|s| - 1]) then 10 * DigitsValue(s[..|s| - 1]) + DigitOf(s[|s| - 1])
    else DigitsValue(s[..|s| - 1])
  }

  /** `sys.get_int_max_str_digits()` by default: from Python 3.11 on,
      `int()` of a text with more decimal digits than this raises `ValueError`. */
  const MaxStrDigits := 4300

  /** The number of decimal digits in `s`. */
  function DigitCount(s: string): (n: nat)
    ensures n <= |s|
  {
    if s == [] then 0
    else DigitCount(s[..|s| - 1]) + (if IsDigit(s[|s| - 1]) then 1 else 0)
  }

  /** A text of digits only has as many digits as characters. */
  lemma {:induction false} DigitCountAll(s: string)
    requires forall i :: 0 <= i < |s| ==> IsDigit(s[i])
    ensures DigitCount(s) == |s|
  {
    if s != [] {
      DigitCountAll(s[..|s| - 1]);
    }
  }

  /** `int(s)` in base 10; `None` where Python raises `ValueError`, which
      includes a text of more than `MaxStrDigits` digits. */
  function ParseInt(s: string): (r: Option<int>)
    ensures r.Some? ==> Strip(s) != []
  {
    var t := Strip(s);
    if t != [] && (t[0] == '+' || t[0] == '-') then
      if IsDigitRun(t[1..]) && DigitCount(t[1..]) <= MaxStrDigits then
        var v: int := DigitsValue(t[1..]);
        Some(if t[0] == '-' then -v else v)
      else None
    else if IsDigitRun(t) && DigitCount(t) <= MaxStrDigits then Some(DigitsValue(t))
    else None
  }

  lemma {:induction false} NatToStringValue(n: nat)
    ensures DigitsValue(NatToString(n)) == n
    decreases n
  {
    if n >= 10 {
      var pre := NatToString(n / 10);
      var s := pre + [DigitChar(n % 10)];
      assert s[..|s| - 1] == pre;
      NatToStringValue(n / 10);
    }
  }

  /** `int()` of a digit run. */
  lemma {:induction false} ParseRun(digits: string)
    requires IsDigitRun(digits) && DigitCount(digits) <= MaxStrDigits
    ensures ParseInt(digits) == Some(DigitsValue(digits))
  {
    assert !IsSpace(digits[0]) && !IsSpace(digits[|digits| - 1]);
    StripUnchanged(digits);
    assert digits[0] != '+' && digits[0] != '-';
  }

  /** `int()` of a minus sign and a digit run. */
  lemma {:induction false} ParseNegativeRun(digits: string)
    requires IsDigitRun(digits) && DigitCount(digits) <= MaxStrDigits
    ensures var v: int := DigitsValue(digits); ParseInt("-" + digits) == Some(-v)
  {
    var s := "-" + digits;
    assert s[|s| - 1] == digits[|digits| - 1];
    StripUnchanged(s);
    assert s[1..] == digits;
  }

  /** A number's digits form a digit run. */
  lemma NatToStringRun(n: nat)
    ensures IsDigitRun(NatToString(n))
  {
  }

  /** `int(str(n)) == n` for every integer of at most `MaxStrDigits`
      digits (`str(n)` itself raises `ValueError` beyond that). */
  lemma ParseIntToString(n: int)
    requires |NatToString(if n < 0 then -n else n)| <= MaxStrDigits
    ensures ParseInt(IntToString(n)) == Some(n)
  {
    var k: nat := if n < 0 then -n else n;
    NatToStringRun(k);
    NatToStringValue(k);
    DigitCountAll(NatToString(k));
    if n < 0 {
      ParseNegativeRun(NatToString(k));
    } else {
      ParseRun(NatToString(k));
    }
  }

  function Pow10(k: nat): (p: nat)
    ensures p >= 1
  {
    if k == 0 then 1 else 10 * Pow10(k - 1)
  }

  /** A number below `10^k` has at most `k` digits. */
  lemma {:induction false} NatToStringLength(n: nat, k: nat)
    requires 1 <= k && n < Pow10(k)
    ensures |NatToString(n)| <= k
  {
    if n >= 10 {
      NatToStringLength(n / 10, k - 1);
    }
  }

  // ---- Python floats ----

  function Pow2(k: nat): (p: nat)
    ensures p >= 1
  {
    if k == 0 then 1 else 2 * Pow2(k - 1)
  }

  /** The largest finite binary64 float, `sys.float_info.max`:
      (2^53 - 1) * 2^971. */
  const MaxFloat: int := Pow2(1024) - Pow2(971)

  /** The smallest integer magnitude whose conversion to a float raises
      `OverflowError`: (2^54 - 1) * 2^970, the midpoint between `MaxFloat`
      and 2^1024, which rounds to even, that is up to 2^1024. */
  const FloatLimit: int := Pow2(1024) - Pow2(970)

  /** `float(n)` succeeds: `n` rounds to a finite float. */
  predicate FitsFloat(n: int) {
    -FloatLimit < n < FloatLimit
  }

  lemma Pow2Double(k: nat)
    ensures Pow2(k + 1) == 2 * Pow2(k)
  {
  }

  lemma {:induction false} Pow2Mono(a: nat, b: nat)
    requires a <= b
    ensures Pow2(a) <= Pow2(b)
  {
    if a < b {
      Pow2Mono(a, b - 1);
    }
  }

  lemma {:induction false} Pow2Pow10(k: nat)
    ensures Pow2(3 * k) <= Pow10(k)
  {
    if k > 0 {
      Pow2Pow10(k - 1);
      assert Pow2(3 * k) == 2 * Pow2(3 * k - 1);
      assert Pow2(3 * k - 1) == 2 * Pow2(3 * k - 2);
      assert Pow2(3 * k - 2) == 2 * Pow2(3 * (k - 1));
    }
  }

  lemma PowerGap(e: nat, top: nat)
    requires e + 2 <= top
    ensures 0 < Pow2(top) - Pow2(e + 1) < Pow2(top) - Pow2(e)
  {
    Pow2Mono(e + 2, top);
    Pow2Double(e);
    Pow2Double(e + 1);
  }

  /** Every finite float lies below the overflow limit. */
  lemma FloatRange()
    ensures 0 < MaxFloat < FloatLimit
  {
    PowerGap(970, 1024);
  }

  /** A number no larger than the float overflow limit has at most 342
      digits, well within `MaxStrDigits`. */
  lemma FloatDigits(n: nat)
    requires n <= FloatLimit
    ensures |NatToString(n)| <= 342 < MaxStrDigits
  {
    Pow2Pow10(342);
    Pow2Mono(1024, 3 * 342);
    NatToStringLength(n, 342);
  }

  /** The decimal digits of a natural number, with a leading zero added
      below 10: the `%m` and `%d` fields of `strftime`. */
  function Pad2(n: nat): (r: string)
    ensures forall i :: 0 <= i < |r| ==> IsDigit(r[i])
  {
    if n < 10 then "0" + NatToString(n) else NatToString(n)
  }

  lemma ParsePad2(n: nat)
    requires n < 100
    ensures ParseInt(Pad2(n)) == Some(n)
  {
    var s := Pad2(n);
    StripUnchanged(s);
    NatToStringValue(n);
    NatToStringLength(n, 2);
    DigitCountAll(s);
    if n < 10 {
      assert s[..|s| - 1] == "0";
      assert DigitsValue("0") == 0 by {
        assert "0"[..0] == [];
      }
    }
  }

  function LastIndexOf(s: string, c: char): (r: Option<nat>)
    ensures r.Some? ==> r.value < |s| && s[r.value] == c && c !in s[r.value + 1..]
    ensures r.None? ==> c !in s
  {
    if s == [] then None
    else if s[|s| - 1] == c then Some(|s| - 1)
    else
      var r := LastIndexOf(s[..|s| - 1], c);
      assert s == s[..|s| - 1] + [s[|s| - 1]];
      r
  }

  /** `PurePath(name).stem`: the name without its last suffix, where a
      suffix starts at the last `.` that is neither the first nor the last
      character. */
  function Stem(name: string): string {
    match LastIndexOf(name, '.')
    case Some(i) => if 0 < i < |name| - 1 then name[..i] else name
    case None => name
  }

  /** A name `x.ext` whose extension holds no `.` has stem `x`. */
  lemma StemOfSuffixed(x: string, ext: string)
    requires x != [] && ext != [] && '.' !in ext
    ensures Stem(x + "." + ext) == x
  {
    var name := x + "." + ext;
    assert name[|x|] == '.';
    assert name[|x| + 1..] == ext;
    assert name[..|x|] == x;
  }

  /** Python's `a < b` on `str`: code-point lexicographic order. */
  predicate StrLess(a: string, b: string) {
    if a == [] then b != []
    else if b == [] then false
    else a[0] < b[0] || (a[0] == b[0] && StrLess(a[1..], b[1..]))
  }

  lemma {:induction false} StrLessIrreflexive(a: string)
    ensures !StrLess(a, a)
  {
    if a != [] {
      StrLessIrreflexive(a[1..]);
    }
  }

  lemma {:induction false} StrLessTransitive(a: string, b: string, c: string)
    requires StrLess(a, b) && StrLess(b, c)
    ensures StrLess(a, c)
  {
    if a != [] && b != [] && c != [] && a[0] == b[0] == c[0] {
      StrLessTransitive(a[1..], b[1..], c[1..]);
    }
  }

  /** Any two different strings are ordered one way or the other. */
  lemma {:induction false} StrLessTotal(a: string, b: string)
    requires a != b
    ensures StrLess(a, b) || StrLess(b, a)
  {
    if a != [] && b != [] && a[0] == b[0] {
      assert a == [a[0]] + a[1..] && b == [b[0]] + b[1..];
      StrLessTotal(a[1..], b[1..]);
    }
  }
}
