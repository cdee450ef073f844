/** The crawler runner: after the crawl, it rejects a record list in which
    some record has no `id` key, evaluates every done condition of the
    adapter (all of them, in order, even after a failure) and writes the
    Parquet artifact only when none failed. Writing the file itself is
    left to the caller: the outcome names the file and the rows. */
module Runner {
  import opened Base
  import opened Records
  import opened Conditions
  import CongressContacts

  datatype Outcome =
    /** `FATAL: Record at index i has no 'id' field`, exit status 1. */
    | MissingId(index: nat)
    /** Some condition failed: the report, then exit status 1. */
    | Blocked(report: seq<Verdict>, failures: seq<Message>)
    /** Every condition passed: `rows` go to `outputDir/fileName`. */
    | Exported(report: seq<Verdict>, outputDir: string, fileName: string, rows: seq<Record>)

  /** The first record without an `id` key; a key holding `None` counts as present. */
  function FirstWithoutId(records: seq<Record>): (i: Option<nat>)
    ensures i.None? <==> forall k :: 0 <= k < |records| ==> "id" in records[k]
    ensures i.Some? ==>
      && i.value < |records| && "id" !in records[i.value]
      && forall k :: 0 <= k < i.value ==> "id" in records[k]
  {
    if records == [] then None
    else if "id" !in records[0] then Some(0)
    else match FirstWithoutId(records[1..])
      case None => None
      case Some(i) => Some(i + 1)
  }

  /** The verdict of every condition, in order: the printed report. */
  function Report(conditions: seq<Condition>, records: seq<Record>): (report: seq<Verdict>)
    ensures |report| == |conditions|
    ensures forall k :: 0 <= k < |conditions| ==> report[k] == Check(conditions[k], records)
  {
    if conditions == [] then []
    else
      var n := |conditions| - 1;
      Report(conditions[..n], records) + [Check(conditions[n], records)]
  }

  /** The messages of the failed verdicts of a report, in order. */
  function FailedMessages(report: seq<Verdict>): (fs: seq<Message>)
    ensures |fs| <= |report|
    ensures fs == [] <==> forall k :: 0 <= k < |report| ==> report[k].passed
  {
    if report == [] then []
    else
      var n := |report| - 1;
      FailedMessages(report[..n]) + (if report[n].passed then [] else [report[n].message])
  }

  /** `failures`: the messages of the failed conditions. */
  function Failures(conditions: seq<Condition>, records: seq<Record>): (fs: seq<Message>)
    ensures fs == [] <==> AllPass(conditions, records)
  {
    FailedMessages(Report(conditions, records))
  }

  /** The indices of the failed verdicts of a report, increasing. */
  function FailedIndices(report: seq<Verdict>): (idx: seq<nat>)
    ensures forall t :: 0 <= t < |idx| ==> idx[t] < |report| && !report[idx[t]].passed
    ensures forall t, u :: 0 <= t < u < |idx| ==> idx[t] < idx[u]
    ensures forall k :: 0 <= k < |report| && !report[k].passed ==> k in idx
  {
    if report == [] then []
    else
      var n := |report| - 1;
      var pre := FailedIndices(report[..n]);
      assert forall k :: 0 <= k < n ==> report[..n][k] == report[k];
      if report[n].passed then pre else pre + [n]
  }

  /** One more condition adds its verdict to the end of the report. */
  lemma ReportStep(conditions: seq<Condition>, k: nat, records: seq<Record>)
    requires k < |conditions|
    ensures Report(conditions[..k + 1], records) == Report(conditions[..k], records) + [Check(conditions[k], records)]
  {
    assert conditions[..k + 1][..k] == conditions[..k];
  }

  /** One more verdict adds its message to the failures exactly when it failed. */
  lemma FailedStep(report: seq<Verdict>, v: Verdict)
    ensures FailedMessages(report + [v]) == FailedMessages(report) + (if v.passed then [] else [v.message])
    ensures FailedIndices(report + [v]) == FailedIndices(report) + (if v.passed then [] else [|report|])
  {
    assert (report + [v])[..|report|] == report;
  }

  /** The failed messages are those of exactly the failed verdicts, in the
      order of the report. */
  lemma {:induction false} FailuresInOrder(report: seq<Verdict>)
    ensures |FailedMessages(report)| == |FailedIndices(report)|
    ensures forall t :: 0 <= t < |FailedIndices(report)| ==>
      FailedMessages(report)[t] == report[FailedIndices(report)[t]].message
  {
    if report != [] {
      var n := |report| - 1;
      var pre := report[..n];
      FailuresInOrder(pre);
      assert report == pre + [report[n]];
      FailedStep(pre, report[n]);
      Aligned(FailedMessages(pre), FailedIndices(pre), pre, report[n]);
    }
  }

  /** Messages aligned with the positions of a report stay aligned when one
      more verdict is appended, and with it its message when it failed. */
  lemma Aligned(ms: seq<Message>, idx: seq<nat>, pre: seq<Verdict>, v: Verdict)
    requires |ms| == |idx|
    requires forall t :: 0 <= t < |idx| ==> idx[t] < |pre| && ms[t] == pre[idx[t]].message
    ensures var ms', idx' := ms + (if v.passed then [] else [v.message]), idx + (if v.passed then [] else [|pre|]);
      && |ms'| == |idx'|
      && forall t :: 0 <= t < |idx'| ==> ms'[t] == (pre + [v])[idx'[t]].message
  {
    var ms', idx' := ms + (if v.passed then [] else [v.message]), idx + (if v.passed then [] else [|pre|]);
    forall t | 0 <= t < |idx'| ensures ms'[t] == (pre + [v])[idx'[t]].message {
      if t < |idx| {
        assert ms'[t] == ms[t] && idx'[t] == idx[t];
      }
    }
  }

  /** The artifact's file name: `<name>.parquet`. */
  function ArtifactName(name: string): string {
    name + ".parquet"
  }

  /** What `main` does with the crawled records of adapter `name`. */
  function Gate(name: string, outputDir: string, records: seq<Record>, conditions: seq<Condition>): (o: Outcome)
    ensures o.MissingId? <==> exists k :: 0 <= k < |records| && "id" !in records[k]
    ensures o.MissingId? ==> FirstWithoutId(records) == Some(o.index)
    ensures o.Exported? <==>
      && (forall k :: 0 <= k < |records| ==> "id" in records[k])
      && AllPass(conditions, records)
    ensures o.Exported? ==>
      && o.rows == records && o.outputDir == outputDir && o.fileName == ArtifactName(name)
    ensures o.Blocked? ==> o.failures != [] && o.failures == Failures(conditions, records)
    ensures !o.MissingId? ==> o.report == Report(conditions, records)
  {
    match FirstWithoutId(records)
    case Some(i) => MissingId(i)
    case None =>
      var failures := Failures(conditions, records);
      if failures != [] then Blocked(Report(conditions, records), failures)
      else Exported(Report(conditions, records), outputDir, ArtifactName(name), records)
  }

  /** The `id` loop of `main`: the first record without an `id` key. */
  method FindMissingId(records: seq<Record>) returns (missing: Option<nat>)
    ensures missing == FirstWithoutId(records)
  {
    for i := 0 to |records|
      invariant forall k :: 0 <= k < i ==> "id" in records[k]
    {
      if "id" !in records[i] {
        return Some(i);
      }
    }
    return None;
  }

  /** The condition loop of `main`: every condition is evaluated, in order,
      even after one has failed. */
  method EvaluateAll(conditions: seq<Condition>, records: seq<Record>) returns (report: seq<Verdict>, failures: seq<Message>)
    ensures report == Report(conditions, records)
    ensures failures == Failures(conditions, records)
  {
    report := [];
    failures := [];
    for k := 0 to |conditions|
      invariant report == Report(conditions[..k], records)
      invariant failures == FailedMessages(report)
    {
      var v := Evaluate(conditions[k], records);
      ReportStep(conditions, k, records);
      FailedStep(report, v);
      report := report + [v];
      if !v.passed {
        failures := failures + [v.message];
      }
    }
    assert conditions[..|conditions|] == conditions;
  }

  /** `main` after the crawl: the `id` loop, then the condition loop. */
  method RunGate(name: string, outputDir: string, records: seq<Record>, conditions: seq<Condition>) returns (outcome: Outcome)
    ensures outcome == Gate(name, outputDir, records, conditions)
  {
    var missing := FindMissingId(records);
    if missing.Some? {
      return MissingId(missing.value);
    }
    var report, failures := EvaluateAll(conditions, records);
    if failures != [] {
      return Blocked(report, failures);
    }
    return Exported(report, outputDir, ArtifactName(name), records);
  }

  /** Why `python -m crawlers.runner congress_contacts` ended. */
  datatype CongressRun =
    | CrawlFailed(error: CongressContacts.CrawlError)
    | Ran(outcome: Outcome)

  /** The whole run of the congress-contacts adapter on the two lists. */
  method RunCongress(legislators: seq<CongressContacts.Legislator>, socialRaw: seq<CongressContacts.SocialEntry>, outputDir: string)
    returns (run: CongressRun)
    ensures CongressContacts.CrawlResult(legislators, socialRaw).Err? ==>
      run == CrawlFailed(CongressContacts.CrawlResult(legislators, socialRaw).error)
    ensures CongressContacts.CrawlResult(legislators, socialRaw).Ok? ==>
      run == Ran(Gate(CongressContacts.Name, outputDir, CongressContacts.CrawlResult(legislators, socialRaw).value,
                      CongressContacts.DoneConditions()))
  {
    var crawled := CongressContacts.Crawl(legislators, socialRaw);
    if crawled.Err? {
      return CrawlFailed(crawled.error);
    }
    var outcome := RunGate(CongressContacts.Name, outputDir, crawled.value, CongressContacts.DoneConditions());
    return Ran(outcome);
  }

  /** Every record the congress adapter yields has an `id` key, so its run
      never stops at the structural check, and an exported artifact is
      `congress_contacts.parquet` holding between 530 and 600 rows with
      distinct ids. */
  lemma CongressNeverMissesId(legislators: seq<CongressContacts.Legislator>, socialRaw: seq<CongressContacts.SocialEntry>, outputDir: string)
    requires CongressContacts.CrawlResult(legislators, socialRaw).Ok?
    ensures var o := Gate(CongressContacts.Name, outputDir, CongressContacts.CrawlResult(legislators, socialRaw).value,
                          CongressContacts.DoneConditions());
      && !o.MissingId?
      && (o.Exported? ==>
        && o.fileName == "congress_contacts.parquet"
        && 530 <= |o.rows| <= 600
        && Distinct(Column(o.rows, "id")))
  {
    var records := CongressContacts.CrawlResult(legislators, socialRaw).value;
    CongressContacts.CrawlSpec(legislators, socialRaw);
    forall k | 0 <= k < |records|
      ensures "id" in records[k]
    {
      var leg := legislators[k];
      CongressContacts.NormalizeFields(leg.ids.value["bioguide"], leg.name.value,
        CongressContacts.LastTerm(leg), CongressContacts.Index(socialRaw));
    }
    var o := Gate(CongressContacts.Name, outputDir, records, CongressContacts.DoneConditions());
    if o.Exported? {
      CongressContacts.DoneConditionsGuarantee(records);
    }
  }
}
