/** The congress-contacts source adapter: joins the current-legislator list
    against the social-media list by bioguide id and flattens each
    legislator into one record. The two lists arrive already parsed. */
module CongressContacts {
  import opened Base
  import opened PyText
  import opened Records
  import opened Conditions

  /** The adapter's dataset name, the stem of its artifact's file name. */
  const Name := "congress_contacts"

  /** A JSON object of scalar values. */
  type Object = map<string, Value>

  /** One element of the legislator list: its `id` object and its `name`
      object (`None` when the key is absent) and its `terms` (empty when the
      key is absent, `null` or `[]`). */
  datatype Legislator = Legislator(ids: Option<Object>, name: Option<Object>, terms: seq<Object>)

  /** One element of the social-media list; a missing `id` or `social`
      object reads as an empty one. */
  datatype SocialEntry = SocialEntry(ids: Object, social: Object)

  /** `leg["id"]["bioguide"]` or `leg["name"]` raised `KeyError` for `key`
      at the legislator with this index. */
  datatype CrawlError = KeyError(index: nat, key: string)

  type SocialIndex = map<Value, Object>

  /** `entry.get("id", {}).get("bioguide")` */
  function SocialKey(e: SocialEntry): Value {
    Get(e.ids, "bioguide")
  }

  /** Entry `i` is the last one whose bioguide is `k`. */
  predicate IsLastFor(entries: seq<SocialEntry>, k: Value, i: int) {
    && 0 <= i < |entries| && SocialKey(entries[i]) == k
    && forall j :: i < j < |entries| ==> SocialKey(entries[j]) != k
  }

  /** The index the first loop of `crawl` builds. */
  function Index(entries: seq<SocialEntry>): SocialIndex {
    if entries == [] then map[]
    else
      var e := entries[|entries| - 1];
      var before := Index(entries[..|entries| - 1]);
      if Truthy(SocialKey(e)) then before[SocialKey(e) := e.social] else before
  }

  /** Only truthy bioguides become keys, every truthy bioguide does, and a
      later entry overwrites an earlier one. */
  lemma {:induction false} IndexSpec(entries: seq<SocialEntry>)
    ensures forall k :: k in Index(entries) ==> Truthy(k)
    ensures forall i :: 0 <= i < |entries| && Truthy(SocialKey(entries[i])) ==> SocialKey(entries[i]) in Index(entries)
    ensures forall k :: k in Index(entries) ==> exists i :: IsLastFor(entries, k, i) && Index(entries)[k] == entries[i].social
  {
    if entries != [] {
      var n := |entries| - 1;
      var pre := entries[..n];
      IndexSpec(pre);
      var before := Index(pre);
      var e := entries[n];
      var index := Index(entries);
      assert forall i :: 0 <= i < n ==> pre[i] == entries[i];
      forall k | k in index
        ensures exists i :: IsLastFor(entries, k, i) && index[k] == entries[i].social
      {
        if Truthy(SocialKey(e)) && k == SocialKey(e) {
          assert IsLastFor(entries, k, n);
        } else {
          var i :| IsLastFor(pre, k, i) && before[k] == pre[i].social;
          assert IsLastFor(entries, k, i);
        }
      }
    }
  }

  /** The first loop of `crawl`, filling the `social` dictionary. */
  method BuildIndex(entries: seq<SocialEntry>) returns (social: SocialIndex)
    ensures social == Index(entries)
  {
    social := map[];
    for i := 0 to |entries|
      invariant social == Index(entries[..i])
    {
      var bioId := SocialKey(entries[i]);
      if Truthy(bioId) {
        social := social[bioId := entries[i].social];
      }
      assert entries[..i + 1][..i] == entries[..i];
    }
    assert entries[..|entries|] == entries;
  }

  /** `leg["terms"][-1] if leg.get("terms") else {}` */
  function LastTerm(leg: Legislator): Object {
    if leg.terms == [] then map[] else leg.terms[|leg.terms| - 1]
  }

  /** The keys of every emitted record, in the order `crawl` writes them. */
  const RecordFields: seq<string> := [
    "id", "first_name", "last_name", "full_name", "chamber", "state", "district", "party",
    "phone", "office_address", "website", "contact_form_url",
    "twitter", "facebook", "youtube", "instagram"
  ]

  /** What one record is read from: the bioguide, the `name` object, the
      last term and the legislator's social-media object. */
  datatype Inputs = Inputs(bioguide: Value, name: Object, term: Object, soc: Object)

  /** `f"{first} {last}".strip()` */
  function FullName(name: Object): string {
    Strip(Show(GetOr(name, "first", Str(""))) + " " + Show(GetOr(name, "last", Str(""))))
  }

  /** The value `crawl` writes under field `f`. */
  function FieldValue(f: string, src: Inputs): Value {
    if f == "id" then src.bioguide
    else if f == "first_name" then GetOr(src.name, "first", Str(""))
    else if f == "last_name" then GetOr(src.name, "last", Str(""))
    else if f == "full_name" then Str(FullName(src.name))
    else if f == "chamber" then (if Get(src.term, "type") == Str("sen") then Str("senate") else Str("house"))
    else if f == "state" then GetOr(src.term, "state", Str(""))
    else if f == "district" then Get(src.term, "district")
    else if f == "party" then GetOr(src.term, "party", Str(""))
    else if f == "phone" then GetOr(src.term, "phone", Str(""))
    else if f == "office_address" then GetOr(src.term, "address", Str(""))
    else if f == "website" then GetOr(src.term, "url", Str(""))
    else if f == "contact_form_url" then GetOr(src.term, "contact_form", Str(""))
    else if f == "twitter" then GetOr(src.soc, "twitter", Str(""))
    else if f == "facebook" then GetOr(src.soc, "facebook", Str(""))
    else if f == "youtube" then GetOr(src.soc, "youtube", Str(""))
    else GetOr(src.soc, "instagram", Str(""))
  }

  /** The dictionary literal of `crawl`, written key by key. */
  function Fill(fields: seq<string>, src: Inputs): Record {
    if fields == [] then map[]
    else
      var f := fields[|fields| - 1];
      Fill(fields[..|fields| - 1], src)[f := FieldValue(f, src)]
  }

  /** `Fill` has exactly the listed keys, each with its field's value. */
  lemma {:induction false} FillAt(fields: seq<string>, src: Inputs, f: string)
    ensures f in Fill(fields, src) <==> f in fields
    ensures f in fields ==> Fill(fields, src)[f] == FieldValue(f, src)
  {
    if fields != [] {
      var pre := fields[..|fields| - 1];
      FillAt(pre, src, f);
      assert fields == pre + [fields[|fields| - 1]];
    }
  }

  /** What the record of a legislator is read from; `soc` is
      `social.get(bio_id, {})`. */
  function Source(bioguide: Value, name: Object, term: Object, social: SocialIndex): Inputs {
    Inputs(bioguide, name, term, if bioguide in social then social[bioguide] else map[])
  }

  /** The record `crawl` yields for a legislator with this bioguide, `name`
      object and last term. */
  function Normalize(bioguide: Value, name: Object, term: Object, social: SocialIndex): Record {
    Fill(RecordFields, Source(bioguide, name, term, social))
  }

  /** A normalized record has exactly the sixteen keys of `RecordFields`. */
  lemma NormalizeKeys(bioguide: Value, name: Object, term: Object, social: SocialIndex)
    ensures forall f :: f in Normalize(bioguide, name, term, social) <==> f in RecordFields
  {
    forall f ensures f in Normalize(bioguide, name, term, social) <==> f in RecordFields {
      FillAt(RecordFields, Source(bioguide, name, term, social), f);
    }
  }

  /** The `i`-th output field holds its value. */
  lemma NormalizeAt(bioguide: Value, name: Object, term: Object, social: SocialIndex, i: nat)
    requires i < |RecordFields|
    ensures var f := RecordFields[i];
      && f in Normalize(bioguide, name, term, social)
      && Normalize(bioguide, name, term, social)[f] == FieldValue(f, Source(bioguide, name, term, social))
  {
    FillAt(RecordFields, Source(bioguide, name, term, social), RecordFields[i]);
  }

  /** The bioguide becomes the `id`, the chamber is `senate` exactly for a
      `sen` term and `house` otherwise, and the district is copied as is. */
  lemma NormalizeFields(bioguide: Value, name: Object, term: Object, social: SocialIndex)
    ensures var r := Normalize(bioguide, name, term, social);
      && "id" in r && "chamber" in r && "district" in r
      && r["id"] == bioguide
      && (r["chamber"] == Str("senate") || r["chamber"] == Str("house"))
      && (r["chamber"] == Str("senate") <==> Get(term, "type") == Str("sen"))
      && r["district"] == Get(term, "district")
  {
    NormalizeAt(bioguide, name, term, social, 0);
    assert RecordFields[0] == "id";
    NormalizeAt(bioguide, name, term, social, 4);
    assert RecordFields[4] == "chamber";
    NormalizeAt(bioguide, name, term, social, 6);
    assert RecordFields[6] == "district";
  }

  /** The full name carries no surrounding whitespace, and is empty when the
      `name` object has neither a first nor a last name. */
  lemma FullNameStripped(name: Object)
    ensures var full := FullName(name);
      && (full == [] || (!IsSpace(full[0]) && !IsSpace(full[|full| - 1])))
      && ("first" !in name && "last" !in name ==> full == [])
  {
    StripSpec(Show(GetOr(name, "first", Str(""))) + " " + Show(GetOr(name, "last", Str(""))));
    if "first" !in name && "last" !in name {
      assert AllSpace("" + " " + "");
    }
  }

  /** The record's `full_name` is the stripped full name. */
  lemma NormalizeFullName(bioguide: Value, name: Object, term: Object, social: SocialIndex)
    ensures var r := Normalize(bioguide, name, term, social);
      "full_name" in r && r["full_name"] == Str(FullName(name))
  {
    NormalizeAt(bioguide, name, term, social, 3);
    assert RecordFields[3] == "full_name";
  }

  /** Phone and website are `None` only where the last term holds an
      explicit `null` there. */
  lemma NormalizeContact(bioguide: Value, name: Object, term: Object, social: SocialIndex)
    ensures var r := Normalize(bioguide, name, term, social);
      && "phone" in r && "website" in r
      && r["phone"] == GetOr(term, "phone", Str(""))
      && r["website"] == GetOr(term, "url", Str(""))
  {
    NormalizeAt(bioguide, name, term, social, 8);
    assert RecordFields[8] == "phone";
    NormalizeAt(bioguide, name, term, social, 10);
    assert RecordFields[10] == "website";
  }

  /** The four social handles come from the legislator's social object. */
  lemma NormalizeSocial(bioguide: Value, name: Object, term: Object, social: SocialIndex)
    ensures var r := Normalize(bioguide, name, term, social);
      var soc := Source(bioguide, name, term, social).soc;
      && "twitter" in r && "facebook" in r && "youtube" in r && "instagram" in r
      && r["twitter"] == GetOr(soc, "twitter", Str(""))
      && r["facebook"] == GetOr(soc, "facebook", Str(""))
      && r["youtube"] == GetOr(soc, "youtube", Str(""))
      && r["instagram"] == GetOr(soc, "instagram", Str(""))
  {
    NormalizeAt(bioguide, name, term, social, 12);
    assert RecordFields[12] == "twitter";
    NormalizeAt(bioguide, name, term, social, 13);
    assert RecordFields[13] == "facebook";
    NormalizeAt(bioguide, name, term, social, 14);
    assert RecordFields[14] == "youtube";
    NormalizeAt(bioguide, name, term, social, 15);
    assert RecordFields[15] == "instagram";
  }

  /** A normalized record holds `None` as phone or website only where the
      last term holds an explicit `null` there, and empty social handles
      for a legislator the social index does not know. */
  lemma NormalizeDefaults(bioguide: Value, name: Object, term: Object, social: SocialIndex)
    ensures var r := Normalize(bioguide, name, term, social);
      && "phone" in r && "website" in r
      && (r["phone"] == Null <==> "phone" in term && term["phone"] == Null)
      && (r["website"] == Null <==> "url" in term && term["url"] == Null)
      && (bioguide !in social ==>
        && "twitter" in r && "facebook" in r && "youtube" in r && "instagram" in r
        && r["twitter"] == r["facebook"] == r["youtube"] == r["instagram"] == Str(""))
  {
    NormalizeContact(bioguide, name, term, social);
    NormalizeSocial(bioguide, name, term, social);
  }

  /** The legislator has the keys `crawl` subscripts. */
  predicate Readable(leg: Legislator) {
    leg.ids.Some? && "bioguide" in leg.ids.value && leg.name.Some?
  }

  /** The key whose subscript fails first on an unreadable legislator. */
  function MissingKey(leg: Legislator): (key: string)
    requires !Readable(leg)
    ensures key == "id" <==> leg.ids.None?
    ensures key == "bioguide" <==> leg.ids.Some? && "bioguide" !in leg.ids.value
    ensures key == "name" ==> leg.name.None?
  {
    if leg.ids.None? then "id"
    else if "bioguide" !in leg.ids.value then "bioguide"
    else "name"
  }

  /** The record for a readable legislator. */
  function Row(leg: Legislator, social: SocialIndex): Record
    requires Readable(leg)
  {
    Normalize(leg.ids.value["bioguide"], leg.name.value, LastTerm(leg), social)
  }

  function FirstUnreadable(legislators: seq<Legislator>): (i: Option<nat>)
    ensures i.None? <==> forall k :: 0 <= k < |legislators| ==> Readable(legislators[k])
    ensures i.Some? ==>
      && i.value < |legislators| && !Readable(legislators[i.value])
      && forall k :: 0 <= k < i.value ==> Readable(legislators[k])
  {
    if legislators == [] then None
    else if !Readable(legislators[0]) then Some(0)
    else match FirstUnreadable(legislators[1..])
      case None => None
      case Some(i) => Some(i + 1)
  }

  /** What `list(crawl())` produces on the two parsed lists. */
  function CrawlResult(legislators: seq<Legislator>, socialRaw: seq<SocialEntry>): Result<seq<Record>, CrawlError> {
    match FirstUnreadable(legislators)
    case Some(i) => Err(KeyError(i, MissingKey(legislators[i])))
    case None =>
      Ok(Rows(legislators, Index(socialRaw)))
  }

  /** The records of a list of readable legislators, in order. */
  function Rows(legislators: seq<Legislator>, social: SocialIndex): seq<Record>
    requires forall k :: 0 <= k < |legislators| ==> Readable(legislators[k])
  {
    if legislators == [] then []
    else
      var n := |legislators| - 1;
      Rows(legislators[..n], social) + [Row(legislators[n], social)]
  }

  /** `Rows` holds one record per legislator, at the legislator's index. */
  lemma {:induction false} RowsAt(legislators: seq<Legislator>, social: SocialIndex)
    requires forall k :: 0 <= k < |legislators| ==> Readable(legislators[k])
    ensures |Rows(legislators, social)| == |legislators|
    ensures forall k :: 0 <= k < |legislators| ==> Rows(legislators, social)[k] == Row(legislators[k], social)
  {
    if legislators != [] {
      var n := |legislators| - 1;
      var pre := legislators[..n];
      assert forall k :: 0 <= k < n ==> pre[k] == legislators[k];
      RowsAt(pre, social);
      assert Rows(legislators, social) == Rows(pre, social) + [Row(legislators[n], social)];
    }
  }

  /** The crawl fails exactly when some legislator is unreadable, and then
      names the first one and the key that is missing; otherwise it yields
      one record per legislator, in input order. */
  lemma CrawlSpec(legislators: seq<Legislator>, socialRaw: seq<SocialEntry>)
    ensures var r := CrawlResult(legislators, socialRaw);
      && (r.Err? <==> exists k :: 0 <= k < |legislators| && !Readable(legislators[k]))
      && (r.Err? ==>
        && FirstUnreadable(legislators) == Some(r.error.index)
        && r.error.key == MissingKey(legislators[r.error.index]))
      && (r.Ok? ==>
        && |r.value| == |legislators|
        && forall k :: 0 <= k < |legislators| ==>
          && Readable(legislators[k])
          && r.value[k] == Row(legislators[k], Index(socialRaw)))
  {
    if FirstUnreadable(legislators).None? {
      RowsAt(legislators, Index(socialRaw));
    }
  }

  /** Appending one readable legislator appends its record. */
  lemma RowsSnoc(legislators: seq<Legislator>, k: nat, social: SocialIndex)
    requires k < |legislators|
    requires forall j :: 0 <= j <= k ==> Readable(legislators[j])
    ensures Rows(legislators[..k + 1], social) == Rows(legislators[..k], social) + [Row(legislators[k], social)]
  {
    var next := legislators[..k + 1];
    assert next[..k] == legislators[..k];
  }

  /** The second loop of `crawl`, against an index already built. */
  method NormalizeAll(legislators: seq<Legislator>, social: SocialIndex) returns (result: Result<seq<Record>, CrawlError>)
    ensures result == (match FirstUnreadable(legislators)
      case Some(i) => Err(KeyError(i, MissingKey(legislators[i])))
      case None => Ok(Rows(legislators, social)))
  {
    var records: seq<Record> := [];
    for k := 0 to |legislators|
      invariant forall j :: 0 <= j < k ==> Readable(legislators[j])
      invariant records == Rows(legislators[..k], social)
    {
      var leg := legislators[k];
      if leg.ids.None? || "bioguide" !in leg.ids.value || leg.name.None? {
        assert FirstUnreadable(legislators) == Some(k);
        return Err(KeyError(k, MissingKey(leg)));
      }
      RowsSnoc(legislators, k, social);
      records := records + [Row(leg, social)];
    }
    assert legislators[..|legislators|] == legislators;
    return Ok(records);
  }

  /** `crawl`: builds the social index, then yields one record per
      legislator in input order; a legislator without an `id` object, a
      bioguide or a `name` object aborts it. */
  method Crawl(legislators: seq<Legislator>, socialRaw: seq<SocialEntry>) returns (result: Result<seq<Record>, CrawlError>)
    ensures result == CrawlResult(legislators, socialRaw)
  {
    var social := BuildIndex(socialRaw);
    result := NormalizeAll(legislators, social);
  }

  /** The fields `RequiredFields` demands of every record. */
  const RequiredFieldNames := ["id", "first_name", "last_name", "chamber", "state", "party"]

  /** `done_conditions()`: the adapter's quality bar, in registration order. */
  function DoneConditions(): seq<Condition> {
    [ MinCount(530),
      MaxCount(600),
      RequiredFields(RequiredFieldNames),
      UniqueField("id"),
      FieldCoverage("phone", Ratio(85, 100)),
      FieldCoverage("website", Ratio(90, 100)),
      FieldCompleteness("full_name") ]
  }

  /** What a record list that passes every done condition is guaranteed
      to be: between 530 and 600 records, each with the six required
      fields, with distinct ids and a non-blank full name. */
  lemma DoneConditionsGuarantee(records: seq<Record>)
    requires AllPass(DoneConditions(), records)
    ensures 530 <= |records| <= 600
    ensures forall i :: 0 <= i < |records| ==> Complete(records[i], RequiredFieldNames)
    ensures Distinct(Column(records, "id"))
    ensures forall i :: 0 <= i < |records| ==> !HasBlank(records[i], "full_name")
  {
    var cs := DoneConditions();
    assert Check(cs[0], records).passed;
    assert Check(cs[1], records).passed;
    assert Check(cs[2], records).passed;
    assert Check(cs[3], records).passed;
    assert Check(cs[6], records).passed;
  }

  /** A record list that passes every done condition has a phone on at
      least 85% and a website on at least 90% of its records. */
  lemma DoneConditionsCoverage(records: seq<Record>)
    requires AllPass(DoneConditions(), records)
    ensures Filled(records, "phone") * 100 >= 85 * |records|
    ensures Filled(records, "website") * 100 >= 90 * |records|
  {
    var cs := DoneConditions();
    assert cs[4] == FieldCoverage("phone", Ratio(85, 100));
    assert cs[5] == FieldCoverage("website", Ratio(90, 100));
    CoverageMet(records, "phone", Ratio(85, 100));
    CoverageMet(records, "website", Ratio(90, 100));
  }

  /** A passing coverage rule met its threshold. */
  lemma CoverageMet(records: seq<Record>, field: string, threshold: Ratio)
    requires Check(FieldCoverage(field, threshold), records).passed
    ensures Filled(records, field) * threshold.den >= threshold.num * |records|
  {
  }

  /** The adapter fills a missing `phone` or `url` with `""`, never `None`,
      so the two coverage rules count every record as filled unless the
      upstream term holds an explicit `null`: on a non-empty crawl without
      such nulls they cannot fail. */
  lemma CoverageMetWithoutExplicitNulls(legislators: seq<Legislator>, socialRaw: seq<SocialEntry>)
    requires CrawlResult(legislators, socialRaw).Ok? && legislators != []
    requires forall k :: 0 <= k < |legislators| ==>
      && !("phone" in LastTerm(legislators[k]) && LastTerm(legislators[k])["phone"] == Null)
      && !("url" in LastTerm(legislators[k]) && LastTerm(legislators[k])["url"] == Null)
    ensures Check(FieldCoverage("phone", Ratio(85, 100)), CrawlResult(legislators, socialRaw).value).passed
    ensures Check(FieldCoverage("website", Ratio(90, 100)), CrawlResult(legislators, socialRaw).value).passed
  {
    var records := CrawlResult(legislators, socialRaw).value;
    CrawlSpec(legislators, socialRaw);
    forall i | 0 <= i < |records|
      ensures Get(records[i], "phone") != Null && Get(records[i], "website") != Null
    {
      var leg := legislators[i];
      NormalizeDefaults(leg.ids.value["bioguide"], leg.name.value, LastTerm(leg), Index(socialRaw));
    }
    AllFilled(records, "phone");
    AllFilled(records, "website");
  }

  lemma {:induction false} AllFilled(records: seq<Record>, field: string)
    requires forall i :: 0 <= i < |records| ==> Get(records[i], field) != Null
    ensures Filled(records, field) == |records|
  {
    if records != [] {
      AllFilled(records[..|records| - 1], field);
    }
  }
}
