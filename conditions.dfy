/** The done-condition library: six rules over a whole record list, each
    answering `(passed, message)`. The rules that the source writes as
    loops with an early return or a growing `seen` set are methods proved
    equal to the specification function `Check`. */
module Conditions {
  import opened Base
  import opened PyText
  import opened Records

  type Positive = n: int | n > 0 witness 1

  /** A coverage threshold `num / den`, standing for the source's float. */
  datatype Ratio = Ratio(num: int, den: Positive)

  /** `FieldCoverage`'s default threshold, 0.9. */
  const DefaultThreshold := Ratio(9, 10)

  /** One configured rule; its parameters are never updated. */
  datatype Condition =
    | MinCount(n: int)
    | MaxCount(n: int)
    | RequiredFields(fields: seq<string>)
    | UniqueField(field: string)
    | FieldCoverage(field: string, threshold: Ratio)
    | FieldCompleteness(field: string)

  /** The data each rule's message prints. */
  datatype Message =
    | MinCountGot(n: int, count: nat)
    | MaxCountGot(n: int, count: nat)
    | RecordMissing(id: Value, field: string)
    | AllPresent(fields: seq<string>)
    | DuplicateValue(field: string, value: Value)
    | AllUnique(field: string, count: nat)
    | NoRecords(field: string)
    | CoverageRatio(field: string, filled: nat, total: nat, threshold: Ratio)
    | BlankValue(field: string, id: Value)
    | NoBlankValues(field: string)

  datatype Verdict = Verdict(passed: bool, message: Message)

  // ---- MinCount, MaxCount ----

  function MinCountCheck(n: int, records: seq<Record>): (v: Verdict)
    ensures v.passed <==> |records| >= n
    ensures v.message.MinCountGot? && v.message.n == n && v.message.count == |records|
  {
    Verdict(|records| >= n, MinCountGot(n, |records|))
  }

  function MaxCountCheck(n: int, records: seq<Record>): (v: Verdict)
    ensures v.passed <==> |records| <= n
    ensures v.message.MaxCountGot? && v.message.n == n && v.message.count == |records|
  {
    Verdict(|records| <= n, MaxCountGot(n, |records|))
  }

  // ---- RequiredFields ----

  /** The field is absent or `None`: what `RequiredFields` rejects. */
  predicate Lacks(r: Record, f: string) {
    f !in r || r[f] == Null
  }

  predicate Complete(r: Record, fields: seq<string>) {
    forall k :: 0 <= k < |fields| ==> !Lacks(r, fields[k])
  }

  /** Record `i`, field `j` is where the scan (records first, fields second)
      meets its first absent or `None` field. */
  predicate IsFirstOffender(records: seq<Record>, fields: seq<string>, i: int, j: int) {
    && 0 <= i < |records| && 0 <= j < |fields|
    && Lacks(records[i], fields[j])
    && (forall i' :: 0 <= i' < i ==> Complete(records[i'], fields))
    && (forall k :: 0 <= k < j ==> !Lacks(records[i], fields[k]))
  }

  function FirstLacking(r: Record, fields: seq<string>): (j: Option<nat>)
    ensures j.None? <==> Complete(r, fields)
    ensures j.Some? ==>
      && j.value < |fields| && Lacks(r, fields[j.value])
      && forall k :: 0 <= k < j.value ==> !Lacks(r, fields[k])
  {
    if fields == [] then None
    else if Lacks(r, fields[0]) then Some(0)
    else match FirstLacking(r, fields[1..])
      case None => None
      case Some(j) => Some(j + 1)
  }

  function FirstIncomplete(records: seq<Record>, fields: seq<string>): (i: Option<nat>)
    ensures i.None? <==> forall i' :: 0 <= i' < |records| ==> Complete(records[i'], fields)
    ensures i.Some? ==>
      && i.value < |records| && !Complete(records[i.value], fields)
      && forall i' :: 0 <= i' < i.value ==> Complete(records[i'], fields)
  {
    if records == [] then None
    else if !Complete(records[0], fields) then Some(0)
    else match FirstIncomplete(records[1..], fields)
      case None => None
      case Some(i) => Some(i + 1)
  }

  /** `RequiredFields(fields).check(records)` */
  function RequiredFieldsCheck(fields: seq<string>, records: seq<Record>): (v: Verdict)
    ensures v.passed <==> forall i :: 0 <= i < |records| ==> Complete(records[i], fields)
    ensures v.passed ==> v.message == AllPresent(fields)
    ensures !v.passed ==> exists i, j ::
      && IsFirstOffender(records, fields, i, j)
      && v.message == RecordMissing(IdLabel(records[i]), fields[j])
  {
    match FirstIncomplete(records, fields)
    case None => Verdict(true, AllPresent(fields))
    case Some(i) =>
      var j := FirstLacking(records[i], fields).value;
      assert IsFirstOffender(records, fields, i, j);
      Verdict(false, RecordMissing(IdLabel(records[i]), fields[j]))
  }

  method CheckRequiredFields(fields: seq<string>, records: seq<Record>) returns (v: Verdict)
    ensures v == RequiredFieldsCheck(fields, records)
  {
    for i := 0 to |records|
      invariant forall i' :: 0 <= i' < i ==> Complete(records[i'], fields)
    {
      for k := 0 to |fields|
        invariant forall k' :: 0 <= k' < k ==> !Lacks(records[i], fields[k'])
      {
        var f := fields[k];
        if f !in records[i] || records[i][f] == Null {
          assert FirstIncomplete(records, fields) == Some(i);
          assert FirstLacking(records[i], fields) == Some(k);
          return Verdict(false, RecordMissing(IdLabel(records[i]), f));
        }
      }
    }
    return Verdict(true, AllPresent(fields));
  }

  // ---- UniqueField ----

  /** `[r.get(field) for r in records]` */
  function Column(records: seq<Record>, field: string): (vs: seq<Value>)
    ensures |vs| == |records| && forall i :: 0 <= i < |records| ==> vs[i] == Get(records[i], field)
  {
    seq(|records|, i requires 0 <= i < |records| => Get(records[i], field))
  }

  predicate Distinct(vs: seq<Value>) {
    forall i, j :: 0 <= i < j < |vs| ==> vs[i] != vs[j]
  }

  /** The index of the first value equal to an earlier one. */
  function FirstRepeat(vs: seq<Value>): (j: Option<nat>)
    ensures j.None? <==> Distinct(vs)
    ensures j.Some? ==> j.value < |vs| && vs[j.value] in vs[..j.value] && Distinct(vs[..j.value])
  {
    if vs == [] then None
    else
      var n := |vs| - 1;
      var pre := vs[..n];
      match FirstRepeat(pre)
      case Some(j) =>
        assert pre[..j] == vs[..j];
        Some(j)
      case None =>
        if vs[n] in pre then
          assert vs[..n] == pre;
          Some(n)
        else
          assert Distinct(vs) by {
            forall i, k | 0 <= i < k < |vs| ensures vs[i] != vs[k] {
              if k == n {
                assert vs[i] in pre;
              } else {
                assert pre[i] == vs[i] && pre[k] == vs[k];
              }
            }
          }
          None
  }

  /** A repeat at `j` with no earlier repeat is the one `FirstRepeat` finds. */
  lemma {:induction false} FirstRepeatAt(vs: seq<Value>, j: nat)
    requires j < |vs| && vs[j] in vs[..j] && Distinct(vs[..j])
    ensures FirstRepeat(vs) == Some(j)
  {
    var i :| 0 <= i < j && vs[..j][i] == vs[j];
    assert vs[i] == vs[j];
    var r := FirstRepeat(vs).value;
    DistinctPrefix(vs, j, r);
    DistinctPrefix(vs, r, j);
  }

  /** Within a prefix without repeats, no value repeats an earlier one. */
  lemma DistinctPrefix(vs: seq<Value>, n: nat, m: nat)
    requires n <= |vs| && Distinct(vs[..n])
    ensures m < n ==> vs[m] !in vs[..m]
  {
    if m < n {
      forall a | 0 <= a < m ensures vs[..m][a] != vs[m] {
        assert vs[..n][a] == vs[..m][a] && vs[..n][m] == vs[m];
      }
    }
  }

  /** `UniqueField(field).check(records)` */
  function UniqueFieldCheck(field: string, records: seq<Record>): (v: Verdict)
    ensures v.passed <==> Distinct(Column(records, field))
    ensures v.passed ==> v.message == AllUnique(field, |records|)
    ensures !v.passed ==> exists j ::
      && 0 <= j < |records| && FirstRepeat(Column(records, field)) == Some(j)
      && v.message == DuplicateValue(field, Get(records[j], field))
  {
    var col := Column(records, field);
    match FirstRepeat(col)
    case None => Verdict(true, AllUnique(field, |records|))
    case Some(j) => Verdict(false, DuplicateValue(field, col[j]))
  }

  method CheckUniqueField(field: string, records: seq<Record>) returns (v: Verdict)
    ensures v == UniqueFieldCheck(field, records)
  {
    ghost var col := Column(records, field);
    var seen: set<Value> := {};
    for i := 0 to |records|
      invariant seen == set k | 0 <= k < i :: col[k]
      invariant Distinct(col[..i])
    {
      var val := Get(records[i], field);
      if val in seen {
        assert val in col[..i];
        FirstRepeatAt(col, i);
        return Verdict(false, DuplicateValue(field, val));
      }
      assert Distinct(col[..i + 1]) by {
        forall a, b | 0 <= a < b < i + 1 ensures col[a] != col[b] {
          if b < i {
            assert col[..i][a] == col[a] && col[..i][b] == col[b];
          }
        }
      }
      seen := seen + {val};
    }
    assert col[..|records|] == col;
    return Verdict(true, AllUnique(field, |records|));
  }

  // ---- FieldCoverage ----

  /** `sum(1 for r in records if r.get(field) is not None)` */
  function Filled(records: seq<Record>, field: string): (n: nat)
    ensures n <= |records|
  {
    if records == [] then 0
    else
      var last := if Get(records[|records| - 1], field) != Null then 1 else 0;
      Filled(records[..|records| - 1], field) + last
  }

  /** `FieldCoverage(field, threshold).check(records)`: the ratio
      `filled / len(records)` compared with `threshold`, without division. */
  function FieldCoverageCheck(field: string, threshold: Ratio, records: seq<Record>): (v: Verdict)
    ensures records == [] ==> !v.passed && v.message == NoRecords(field)
    ensures records != [] ==>
      && (v.passed <==> Filled(records, field) * threshold.den >= threshold.num * |records|)
      && v.message == CoverageRatio(field, Filled(records, field), |records|, threshold)
  {
    if records == [] then Verdict(false, NoRecords(field))
    else
      var filled := Filled(records, field);
      Verdict(filled * threshold.den >= threshold.num * |records|,
              CoverageRatio(field, filled, |records|, threshold))
  }

  /** `Filled` counts exactly the records whose field is present and not `None`. */
  lemma {:induction false} FilledCounts(records: seq<Record>, field: string)
    ensures Filled(records, field) == |set i | 0 <= i < |records| && Get(records[i], field) != Null|
  {
    if records != [] {
      var n := |records| - 1;
      var pre := records[..n];
      FilledCounts(pre, field);
      var A := set i | 0 <= i < n && Get(pre[i], field) != Null;
      var B := set i | 0 <= i < |records| && Get(records[i], field) != Null;
      assert A == set i | 0 <= i < n && Get(records[i], field) != Null;
      if Get(records[n], field) != Null {
        assert B == A + {n};
      } else {
        assert B == A;
      }
    }
  }

  // ---- FieldCompleteness ----

  /** `val is not None and isinstance(val, str) and not val.strip()` */
  predicate IsBlank(v: Value) {
    v != Null && v.Str? && Strip(v.s) == []
  }

  /** The record holds `field` as a blank string. */
  predicate HasBlank(r: Record, field: string) {
    IsBlank(Get(r, field))
  }

  function FirstBlank(records: seq<Record>, field: string): (i: Option<nat>)
    ensures i.None? <==> forall k :: 0 <= k < |records| ==> !HasBlank(records[k], field)
    ensures i.Some? ==>
      && i.value < |records| && HasBlank(records[i.value], field)
      && forall k :: 0 <= k < i.value ==> !HasBlank(records[k], field)
  {
    if records == [] then None
    else if HasBlank(records[0], field) then Some(0)
    else
      var rest := records[1..];
      assert forall k :: 0 <= k < |rest| ==> rest[k] == records[k + 1];
      match FirstBlank(rest, field)
      case None => None
      case Some(i) => Some(i + 1)
  }

  lemma FirstBlankAt(records: seq<Record>, field: string, i: nat)
    requires i < |records| && HasBlank(records[i], field)
    requires forall k :: 0 <= k < i ==> !HasBlank(records[k], field)
    ensures FirstBlank(records, field) == Some(i)
  {
  }

  /** `FieldCompleteness(field).check(records)` */
  function FieldCompletenessCheck(field: string, records: seq<Record>): (v: Verdict)
    ensures v.passed <==> forall k :: 0 <= k < |records| ==> !HasBlank(records[k], field)
    ensures v.passed ==> v.message == NoBlankValues(field)
    ensures !v.passed ==> exists i ::
      && FirstBlank(records, field) == Some(i) && i < |records|
      && v.message == BlankValue(field, IdLabel(records[i]))
  {
    match FirstBlank(records, field)
    case None => Verdict(true, NoBlankValues(field))
    case Some(i) => Verdict(false, BlankValue(field, IdLabel(records[i])))
  }

  method CheckFieldCompleteness(field: string, records: seq<Record>) returns (v: Verdict)
    ensures v == FieldCompletenessCheck(field, records)
  {
    for i := 0 to |records|
      invariant forall k :: 0 <= k < i ==> !HasBlank(records[k], field)
    {
      var val := Get(records[i], field);
      var blank := val != Null && val.Str? && Strip(val.s) == [];
      if blank {
        FirstBlankAt(records, field, i);
        return Verdict(false, BlankValue(field, IdLabel(records[i])));
      }
      assert !HasBlank(records[i], field);
    }
    assert FirstBlank(records, field) == None;
    return Verdict(true, NoBlankValues(field));
  }

  /** A field that is absent, `None` or a number never makes
      `FieldCompleteness` fail; only a blank string does. */
  lemma CompletenessIgnoresNonStrings(field: string, records: seq<Record>)
    requires forall k :: 0 <= k < |records| ==> !Get(records[k], field).Str?
    ensures FieldCompletenessCheck(field, records).passed
  {
  }

  /** A string is blank exactly when every character of it is whitespace. */
  lemma BlankIsAllSpace(s: string)
    ensures IsBlank(Str(s)) <==> AllSpace(s)
  {
    StripSpec(s);
  }

  // ---- All rules ----

  /** A message reports on its own rule: it is of that rule's kind and
      names that rule's parameters, on success and on failure. */
  predicate Reports(c: Condition, m: Message) {
    match c
    case MinCount(n) => m.MinCountGot? && m.n == n
    case MaxCount(n) => m.MaxCountGot? && m.n == n
    case RequiredFields(fields) => m == AllPresent(fields) || (m.RecordMissing? && m.field in fields)
    case UniqueField(field) => (m.AllUnique? || m.DuplicateValue?) && m.field == field
    case FieldCoverage(field, threshold) => m == NoRecords(field) || (m.CoverageRatio? && m.field == field && m.threshold == threshold)
    case FieldCompleteness(field) => m == NoBlankValues(field) || (m.BlankValue? && m.field == field)
  }

  /** `cond.check(records)`: each rule answers with its own verdict, whose
      message reports on that rule. */
  function Check(c: Condition, records: seq<Record>): (v: Verdict)
    ensures Reports(c, v.message)
  {
    match c
    case MinCount(n) => MinCountCheck(n, records)
    case MaxCount(n) => MaxCountCheck(n, records)
    case RequiredFields(fields) => RequiredFieldsCheck(fields, records)
    case UniqueField(field) => UniqueFieldCheck(field, records)
    case FieldCoverage(field, threshold) => FieldCoverageCheck(field, threshold, records)
    case FieldCompleteness(field) => FieldCompletenessCheck(field, records)
  }

  /** Every rule of the list passes on `records`. */
  predicate AllPass(conditions: seq<Condition>, records: seq<Record>) {
    forall k :: 0 <= k < |conditions| ==> Check(conditions[k], records).passed
  }

  /** Runs one rule the way its class does: the looping rules by their loops. */
  method Evaluate(c: Condition, records: seq<Record>) returns (v: Verdict)
    ensures v == Check(c, records)
  {
    match c
    case MinCount(n) => v := MinCountCheck(n, records);
    case MaxCount(n) => v := MaxCountCheck(n, records);
    case RequiredFields(fields) => v := CheckRequiredFields(fields, records);
    case UniqueField(field) => v := CheckUniqueField(field, records);
    case FieldCoverage(field, threshold) => v := FieldCoverageCheck(field, threshold, records);
    case FieldCompleteness(field) => v := CheckFieldCompleteness(field, records);
  }

  /** Two records that both lack `field`, or both hold `None` there, are a
      duplicate for `UniqueField`: missing values count as one shared value. */
  lemma MissingValuesCollide(field: string, records: seq<Record>, i: nat, j: nat)
    requires i < j < |records|
    requires Lacks(records[i], field) && Lacks(records[j], field)
    ensures !Check(UniqueField(field), records).passed
  {
    var col := Column(records, field);
    assert col[i] == Null == col[j];
  }

  /** On an empty list `FieldCoverage` fails whatever its threshold, even
      one at or below zero, which every non-empty list meets. */
  lemma CoverageOfEmptyFails(field: string, threshold: Ratio)
    ensures !Check(FieldCoverage(field, threshold), []).passed
    ensures threshold.num <= 0 ==>
      forall records: seq<Record> :: records != [] ==> Check(FieldCoverage(field, threshold), records).passed
  {
  }
}
