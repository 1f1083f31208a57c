/**
 * The batch script: one nested record per profile, an "error" entry when an
 * exception reaches the profile boundary, and a batch loop that strips the
 * URLs, skips the blank ones and asks for a pause between profiles.
 */
module Scraper {
  import opened Base
  import opened Text
  import opened PyDict
  import opened PageModel
  import opened Extraction

  /**
   * The dict process_single_profile returns: "url", "about" and
   * "contact_details" always, and "error" (the exception's text) only when an
   * exception reached the profile boundary.
   */
  datatype ProfileRecord = ProfileRecord(url: string, about: string, contactDetails: Dict, error: Option<string>)

  /** The record before any step has run. */
  function InitialRecord(url: string): ProfileRecord {
    ProfileRecord(url, NotFound, [], None)
  }

  /** The record process_single_profile returns for the page that `url` shows. */
  function Profile(url: string, p: ProfilePage): ProfileRecord {
    match NavigateAndSettle(p)
    case Raises(message) => InitialRecord(url).(error := Some(message))
    case Completes =>
      var about := ExtractAbout(p.about);
      match ContactSpec(p.contact)
      case Collected(details) => ProfileRecord(url, about, details, None)
      case Propagated(message) => ProfileRecord(url, about, [], Some(message))
  }

  /**
   * process_single_profile, step by step: the defaults, navigation, then
   * "about", then "contact_details"; an exception at any point adds "error"
   * and keeps the fields set so far.
   */
  method ProcessSingleProfile(p: ProfilePage, url: string) returns (record: ProfileRecord)
    ensures record == Profile(url, p)
  {
    record := InitialRecord(url);
    var prelude := NavigateAndSettle(p);
    if prelude.Raises? {
      record := record.(error := Some(prelude.message));
      return;
    }
    record := record.(about := ExtractAbout(p.about));
    var contact := ExtractContactInfo(p.contact);
    match contact
    case Collected(details) =>
      record := record.(contactDetails := details);
    case Propagated(message) =>
      record := record.(error := Some(message));
  }

  /**
   * The record keeps its URL; it carries an error exactly when navigation or
   * the contact step let an exception out, with that exception's text; "about"
   * stays "N/A" and "contact_details" empty when navigation failed, and the
   * About text already extracted is kept when the contact step fails.
   */
  lemma ProfileRecordFacts(url: string, p: ProfilePage)
    ensures var r := Profile(url, p);
      && r.url == url
      && (r.error.Some? <==> NavigateAndSettle(p).Raises? || ContactSpec(p.contact).Propagated?)
      && (NavigateAndSettle(p).Raises? ==>
            r.about == NotFound && r.contactDetails == [] && r.error == Some(NavigateAndSettle(p).message))
      && (NavigateAndSettle(p).Completes? ==> r.about == ExtractAbout(p.about))
      && (NavigateAndSettle(p).Completes? && ContactSpec(p.contact).Propagated? ==>
            r.contactDetails == [] && r.error == Some(ContactSpec(p.contact).message))
      && (r.error.None? ==> r.contactDetails == ContactSpec(p.contact).data)
  {
  }

  /** The contact details of a record hold only the six labels, each at most once. */
  lemma ProfileContactKeys(url: string, p: ProfilePage)
    ensures var d := Profile(url, p).contactDetails;
      && DistinctKeys(d)
      && forall k :: k in Keys(d) ==> k in ContactLabels
  {
    var d := Profile(url, p).contactDetails;
    if d != [] {
      ContactResultFacts(p.contact);
      forall k | k in Keys(d) ensures k in ContactLabels {
        assert Get(d, k).Some?;
      }
    }
  }

  /** A network-idle wait that times out is swallowed: the record is the one an idle page gives. */
  lemma IdleTimeoutIgnored(url: string, p: ProfilePage)
    ensures Profile(url, p.(idle := IdleTimeout)) == Profile(url, p.(idle := Idle))
  {
  }

  // ---------------------------------------------------------------------------
  // The batch

  /** One record per URL, in order, each for the page that URL shows. */
  function ProfilesOf(urls: seq<string>, site: Site): (records: seq<ProfileRecord>)
    ensures |records| == |urls|
  {
    if urls == [] then [] else ProfilesOf(urls[..|urls| - 1], site) + [RecordOf(urls[|urls| - 1], site)]
  }

  /** The record at position `k` is the record of the URL at position `k`, which it names. */
  lemma {:induction false} ProfilesOfAt(urls: seq<string>, site: Site, k: nat)
    requires k < |urls|
    ensures ProfilesOf(urls, site)[k] == RecordOf(urls[k], site)
    ensures ProfilesOf(urls, site)[k].url == urls[k]
    decreases |urls|
  {
    ProfileRecordFacts(urls[k], site(urls[k]));
    if k < |urls| - 1 {
      var init := urls[..|urls| - 1];
      ProfilesOfAt(init, site, k);
      assert init[k] == urls[k];
    }
  }

  /** The record of one URL, on the page the site shows for it. */
  function RecordOf(url: string, site: Site): ProfileRecord {
    Profile(url, site(url))
  }

  /** The results of run_batch_scraper: the records of the stripped, non-blank URLs, in input order. */
  function Batch(urls: seq<string>, site: Site): (r: seq<ProfileRecord>)
    ensures |r| <= |urls|
  {
    ProfilesOf(Clean(PySpace, urls), site)
  }

  /**
   * Whether run_batch_scraper pauses after the URL at raw position `i`: only
   * for a non-blank URL, since the skip for a blank one also skips the pause,
   * and never after the last position.
   */
  predicate PausesAfter(urls: seq<string>, i: nat)
    requires i < |urls|
  {
    !AllSpace(PySpace, urls[i]) && i < |urls| - 1
  }

  /** Cleaning one more URL adds its stripped form when it is not blank. */
  lemma CleanSnoc(urls: seq<string>, u: string)
    ensures Clean(PySpace, urls + [u]) ==
      Clean(PySpace, urls) + if Strip(PySpace, u) == [] then [] else [Strip(PySpace, u)]
  {
    CleanAppend(PySpace, urls, [u]);
    CleanOne(PySpace, u);
  }

  /** One more raw URL adds its record to the batch unless it is blank. */
  lemma BatchSnoc(urls: seq<string>, u: string, site: Site)
    ensures Batch(urls + [u], site) ==
      Batch(urls, site) + if AllSpace(PySpace, u) then [] else [RecordOf(Strip(PySpace, u), site)]
  {
    CleanSnoc(urls, u);
    var c := Clean(PySpace, urls);
    if !AllSpace(PySpace, u) {
      assert (c + [Strip(PySpace, u)])[..|c|] == c;
    } else {
      assert c + [] == c;
    }
  }

  /**
   * run_batch_scraper's loop: the records of the non-blank URLs in order, and
   * for every raw position whether a pause follows it.
   */
  method RunBatchScraper(urls: seq<string>, site: Site) returns (results: seq<ProfileRecord>, pauses: seq<bool>)
    ensures results == Batch(urls, site)
    ensures |pauses| == |urls| && forall i :: 0 <= i < |urls| ==> pauses[i] == PausesAfter(urls, i)
  {
    results := [];
    pauses := [];
    var total := |urls|;
    var index := 0;
    while index < total
      invariant 0 <= index <= total
      invariant results == Batch(urls[..index], site)
      invariant |pauses| == index && forall i :: 0 <= i < index ==> pauses[i] == PausesAfter(urls, i)
    {
      assert urls[..index + 1] == urls[..index] + [urls[index]];
      BatchSnoc(urls[..index], urls[index], site);
      var url := Strip(PySpace, urls[index]);
      PausesExtend(urls, pauses, index);
      if url == [] {
        assert !PausesAfter(urls, index);
        pauses := pauses + [false];
        index := index + 1;
        continue;
      }
      var data := ProcessSingleProfile(site(url), url);
      results := results + [data];
      assert PausesAfter(urls, index) == (index < total - 1);
      pauses := pauses + [index < total - 1];
      index := index + 1;
    }
    assert urls[..index] == urls;
  }

  /** Recording whether a pause follows URL `n` extends the record of pauses by one URL. */
  lemma PausesExtend(urls: seq<string>, pauses: seq<bool>, n: nat)
    requires n < |urls| && |pauses| == n
    requires forall i :: 0 <= i < n ==> pauses[i] == PausesAfter(urls, i)
    ensures var next := pauses + [PausesAfter(urls, n)];
      |next| == n + 1 && forall i :: 0 <= i < n + 1 ==> next[i] == PausesAfter(urls, i)
  {
  }

  /**
   * A blank URL changes nothing: the batch without it has the same results,
   * and no pause follows it.
   */
  lemma BlankUrlSkipped(urls: seq<string>, i: nat, site: Site)
    requires i < |urls| && AllSpace(PySpace, urls[i])
    ensures Batch(urls, site) == Batch(urls[..i] + urls[i + 1..], site)
    ensures !PausesAfter(urls, i)
  {
    assert urls == urls[..i] + [urls[i]] + urls[i + 1..];
    CleanSkipsBlank(PySpace, urls[..i], urls[i], urls[i + 1..]);
  }

  /**
   * The batch holds, in order, the record of every stripped, non-blank URL,
   * and each record names its URL.
   */
  lemma BatchRecords(urls: seq<string>, site: Site)
    ensures var c := Clean(PySpace, urls);
      && |Batch(urls, site)| == |c| <= |urls|
      && forall k :: 0 <= k < |c| ==>
           Batch(urls, site)[k] == RecordOf(c[k], site) && Batch(urls, site)[k].url == c[k] &&
           c[k] != [] && IsStripped(PySpace, c[k])
  {
    var c := Clean(PySpace, urls);
    forall k | 0 <= k < |c|
      ensures Batch(urls, site)[k] == RecordOf(c[k], site) && Batch(urls, site)[k].url == c[k]
    {
      ProfilesOfAt(c, site, k);
    }
  }

  // ---------------------------------------------------------------------------
  // The URL file

  /** The list the script reads from its URL file: split on ",", each field stripped, empty ones dropped. */
  function ParseUrlFile(content: string): (urls: seq<string>)
    ensures forall k :: 0 <= k < |urls| ==> urls[k] != [] && IsStripped(PySpace, urls[k]) && ',' !in urls[k]
  {
    CleanKeepsOut(PySpace, SplitOn(content, ','), ',');
    Clean(PySpace, SplitOn(content, ','))
  }

  /** A list of stripped, non-empty, comma-free URLs written comma-separated is read back as the same list. */
  lemma ParseUrlFileRoundTrip(urls: seq<string>)
    requires forall k :: 0 <= k < |urls| ==> urls[k] != [] && IsStripped(PySpace, urls[k]) && ',' !in urls[k]
    ensures ParseUrlFile(JoinWith(urls, ',')) == urls
  {
    if urls == [] {
      assert SplitOn([], ',') == [[]];
      CleanOne(PySpace, []);
    } else {
      SplitOfJoin(urls, ',');
      CleanOfClean(PySpace, urls);
    }
  }

  /**
   * On the list read from the URL file nothing is skipped: one record per URL
   * in order, and a pause after every position but the last.
   */
  lemma BatchOfParsedFile(content: string, site: Site)
    ensures var urls := ParseUrlFile(content);
      && Batch(urls, site) == ProfilesOf(urls, site)
      && forall i :: 0 <= i < |urls| ==> (PausesAfter(urls, i) <==> i < |urls| - 1)
  {
    var urls := ParseUrlFile(content);
    CleanOfClean(PySpace, urls);
  }
}
