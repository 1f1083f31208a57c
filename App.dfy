/**
 * The API server's variant of the pipeline: a flat row per profile that the
 * contact dict is merged into, no error entry, the CSV projection of a row, the
 * CSV batch over the raw URL list and the /scrape endpoint with its state-file
 * check. About and contact extraction are the shared ones of Extraction.
 */
module App {
  import opened Base
  import opened Text
  import opened PyDict
  import opened PageModel
  import opened Extraction

  const ProfileUrlKey := "Profile URL"
  const AboutKey := "About"

  /** The CSV columns, in order. */
  const CsvHeaders: seq<string> := [ProfileUrlKey, AboutKey, "Phone", "Email", "Website", "Address", "Birthday", "Twitter"]

  /** The file whose absence makes /scrape refuse. */
  const StateFile := "linkedin_state.json"

  /** The row before any step has run. */
  function InitialRow(url: string): Dict {
    [Entry(ProfileUrlKey, url), Entry(AboutKey, NotFound)]
  }

  /**
   * The row process_single_profile returns for the page that `url` shows:
   * the defaults, "About" replaced once navigation succeeded, then the contact
   * dict merged in when the contact step returned one. An exception at the
   * profile boundary leaves the row as it was and records nothing.
   */
  function Row(url: string, p: ProfilePage): Dict {
    match NavigateAndSettle(p)
    case Raises(_) => InitialRow(url)
    case Completes =>
      var withAbout := Set(InitialRow(url), AboutKey, ExtractAbout(p.about));
      match ContactSpec(p.contact)
      case Collected(details) => Update(withAbout, details)
      case Propagated(_) => withAbout
  }

  /** process_single_profile, step by step, filling the row in place. */
  method ProcessSingleProfile(p: ProfilePage, url: string) returns (row: Dict)
    ensures row == Row(url, p)
  {
    row := InitialRow(url);
    var prelude := NavigateAndSettle(p);
    if prelude.Raises? {
      return;
    }
    row := Set(row, AboutKey, ExtractAbout(p.about));
    var contact := ExtractContactInfo(p.contact);
    if contact.Collected? {
      row := Update(row, contact.data);
    }
  }

  /** Every contact label is a CSV header, and neither fixed key is a contact label. */
  lemma LabelsAreHeaders()
    ensures forall k :: k in ContactLabels ==> k in CsvHeaders
    ensures ProfileUrlKey !in ContactLabels && AboutKey !in ContactLabels
  {
    forall k | k in ContactLabels ensures k in CsvHeaders {
      var j :| 0 <= j < |ContactLabels| && ContactLabels[j] == k;
      assert ContactLabels[j] == CsvHeaders[[4, 2, 3, 6, 5, 7][j]];
    }
    assert |ProfileUrlKey| == 11 && |AboutKey| == 5;
    forall j | 0 <= j < |ContactLabels| ensures ContactLabels[j] != ProfileUrlKey && ContactLabels[j] != AboutKey {
      assert ContactLabels[j][0] in "WPEBAT";
    }
  }

  /** The contact dict never carries the two fixed keys, so merging it cannot overwrite them. */
  lemma ContactKeysAreLabels(p: ProfilePage)
    requires ContactSpec(p.contact).Collected?
    ensures var d := ContactSpec(p.contact).data;
      && DistinctKeys(d)
      && (forall k :: k in Keys(d) ==> k in ContactLabels && k in CsvHeaders)
      && ProfileUrlKey !in Keys(d) && AboutKey !in Keys(d)
  {
    var d := ContactSpec(p.contact).data;
    ContactResultFacts(p.contact);
    forall k | k in Keys(d) ensures k in ContactLabels {
      assert Get(d, k).Some?;
    }
    LabelsAreHeaders();
  }

  /** The row once "About" is set: the same two keys, in order, with the URL and the new text. */
  lemma WithAboutFacts(url: string, about: string)
    ensures var w := Set(InitialRow(url), AboutKey, about);
      && Keys(w) == [ProfileUrlKey, AboutKey] && DistinctKeys(w)
      && Get(w, ProfileUrlKey) == Some(url) && Get(w, AboutKey) == Some(about)
  {
    var initial := InitialRow(url);
    assert Keys(initial) == [ProfileUrlKey, AboutKey];
    assert AboutKey in Keys(initial);
    SetFacts(initial, AboutKey, about);
    SetDistinct(initial, AboutKey, about);
  }

  /**
   * Merging the contact dict keeps the two fixed keys first, with their
   * values, and then appends the contact entries in the order they were found.
   */
  lemma MergeFacts(url: string, about: string, d: Dict)
    requires DistinctKeys(d) && forall k :: k in Keys(d) ==> k in ContactLabels
    ensures var row := Update(Set(InitialRow(url), AboutKey, about), d);
      && |row| >= 2 && Keys(row)[..2] == [ProfileUrlKey, AboutKey]
      && Get(row, ProfileUrlKey) == Some(url) && Get(row, AboutKey) == Some(about)
      && DistinctKeys(row)
      && (forall k :: k in Keys(row) ==> k in CsvHeaders)
      && (forall j :: 0 <= j < |ContactLabels| ==> Get(row, ContactLabels[j]) == Get(d, ContactLabels[j]))
      && row[2..] == d
  {
    var w := Set(InitialRow(url), AboutKey, about);
    var row := Update(w, d);
    WithAboutFacts(url, about);
    LabelsAreHeaders();
    forall i | 0 <= i < |d| ensures d[i].key !in Keys(w) {
      assert d[i].key == Keys(d)[i];
    }
    UpdateFresh(w, d);
    assert row[2..] == d;
    UpdateKeys(w, d);
    UpdateDistinct(w, d);
    UpdateGet(w, d, ProfileUrlKey);
    UpdateGet(w, d, AboutKey);
    forall k | k in Keys(row) ensures k in CsvHeaders {
      if k !in Keys(w) {
        assert k in ContactLabels;
      }
    }
    forall j | 0 <= j < |ContactLabels| ensures Get(row, ContactLabels[j]) == Get(d, ContactLabels[j]) {
      UpdateGet(w, d, ContactLabels[j]);
      if ContactLabels[j] !in Keys(d) {
        assert ContactLabels[j] !in Keys(w);
      }
    }
  }

  /**
   * The row starts with "Profile URL" (the input URL) and "About" (the
   * extracted text, or "N/A" when navigation failed), keeps its keys distinct
   * and within the CSV headers, and carries every stored contact value under
   * its label. An exception from the contact step leaves just those two keys.
   */
  lemma RowFacts(url: string, p: ProfilePage)
    ensures var row := Row(url, p);
      && |row| >= 2 && Keys(row)[..2] == [ProfileUrlKey, AboutKey]
      && Get(row, ProfileUrlKey) == Some(url)
      && Get(row, AboutKey) == Some(if NavigateAndSettle(p).Raises? then NotFound else ExtractAbout(p.about))
      && DistinctKeys(row)
      && (forall k :: k in Keys(row) ==> k in CsvHeaders)
      && (NavigateAndSettle(p).Completes? && ContactSpec(p.contact).Collected? ==>
            forall j :: 0 <= j < |ContactLabels| ==>
              Get(row, ContactLabels[j]) == Get(ContactSpec(p.contact).data, ContactLabels[j]))
      && (NavigateAndSettle(p).Completes? && ContactSpec(p.contact).Collected? ==>
            row[2..] == ContactSpec(p.contact).data)
      && (NavigateAndSettle(p).Raises? || ContactSpec(p.contact).Propagated? ==> |row| == 2)
  {
    if NavigateAndSettle(p).Raises? {
      var initial := InitialRow(url);
      assert Keys(initial) == [ProfileUrlKey, AboutKey];
      assert forall k :: k in Keys(initial) ==> k == ProfileUrlKey || k == AboutKey;
    } else {
      var about := ExtractAbout(p.about);
      WithAboutFacts(url, about);
      if ContactSpec(p.contact).Collected? {
        ContactKeysAreLabels(p);
        MergeFacts(url, about, ContactSpec(p.contact).data);
      } else {
        assert forall k :: k in Keys(Set(InitialRow(url), AboutKey, about)) ==> k == ProfileUrlKey || k == AboutKey;
      }
    }
  }

  // ---------------------------------------------------------------------------
  // The CSV projection

  /**
   * What csv.DictWriter with extrasaction='ignore' writes for a row: the value
   * under each header in header order, and an empty field for a header the row
   * lacks.
   */
  function CsvRecord(row: Dict): (fields: seq<string>)
    ensures |fields| == |CsvHeaders|
  {
    seq(|CsvHeaders|, i requires 0 <= i < |CsvHeaders| =>
      match Get(row, CsvHeaders[i]) case Some(v) => v case None => "")
  }

  /**
   * The projection of a row drops nothing, since every key of a row is a
   * header: the URL and About come first, and each contact column holds the
   * stored value or is blank.
   */
  lemma CsvRecordOfRow(url: string, p: ProfilePage)
    ensures forall k :: k in Keys(Row(url, p)) ==> k in CsvHeaders
    ensures var fields := CsvRecord(Row(url, p));
      && fields[0] == url
      && fields[1] == (if NavigateAndSettle(p).Raises? then NotFound else ExtractAbout(p.about))
      && forall i :: 2 <= i < |CsvHeaders| ==>
           fields[i] == match Get(Row(url, p), CsvHeaders[i]) case Some(v) => v case None => ""
  {
    RowFacts(url, p);
  }

  /** The CSV lines written after the header: one per URL, in order, no URL skipped. */
  function CsvLines(urls: seq<string>, site: Site): (lines: seq<seq<string>>)
    ensures |lines| == |urls|
  {
    if urls == [] then []
    else CsvLines(urls[..|urls| - 1], site) + [CsvRecord(Row(urls[|urls| - 1], site(urls[|urls| - 1])))]
  }

  /** Line `k` is the projection of the row for URL `k`, taken as it is. */
  lemma {:induction false} CsvLinesAt(urls: seq<string>, site: Site, k: nat)
    requires k < |urls|
    ensures CsvLines(urls, site)[k] == CsvRecord(Row(urls[k], site(urls[k])))
    ensures CsvLines(urls, site)[k][0] == urls[k]
    decreases |urls|
  {
    CsvRecordOfRow(urls[k], site(urls[k]));
    if k < |urls| - 1 {
      var init := urls[..|urls| - 1];
      CsvLinesAt(init, site, k);
      assert init[k] == urls[k];
    }
  }

  /**
   * run_batch_scraper of the API server: the header line, then one line per
   * URL in input order with no URL skipped or stripped, and a pause after
   * every position but the last.
   */
  method RunBatchScraper(urls: seq<string>, site: Site) returns (lines: seq<seq<string>>, pauses: seq<bool>)
    ensures lines == [CsvHeaders] + CsvLines(urls, site)
    ensures |pauses| == |urls| && forall i :: 0 <= i < |urls| ==> (pauses[i] <==> i < |urls| - 1)
  {
    lines := [CsvHeaders];
    pauses := [];
    var total := |urls|;
    var index := 0;
    while index < total
      invariant 0 <= index <= total
      invariant lines == [CsvHeaders] + CsvLines(urls[..index], site)
      invariant |pauses| == index && forall i :: 0 <= i < index ==> (pauses[i] <==> i < total - 1)
    {
      assert urls[..index + 1][..index] == urls[..index];
      var url := urls[index];
      var data := ProcessSingleProfile(site(url), url);
      lines := lines + [CsvRecord(data)];
      pauses := pauses + [index < total - 1];
      index := index + 1;
    }
    assert urls[..index] == urls;
  }

  // ---------------------------------------------------------------------------
  // The /scrape endpoint

  /** One entry of the endpoint's "profiles": the URL and the row scraped for it. */
  datatype UserRecord = UserRecord(url: string, scrapedData: Dict)

  /**
   * The endpoint's outcome: an HTTP error it raises, {"count": ..., "profiles": [...]},
   * or an exception that escapes the handler (FastAPI then answers 500).
   */
  datatype Response =
    | HttpError(status: nat, detail: string)
    | Scraped(count: nat, profiles: seq<UserRecord>)
    | Escaped(message: string)

  /** The user records of the URLs, one per URL, in order. */
  function UserRecords(urls: seq<string>, site: Site): (records: seq<UserRecord>)
    ensures |records| == |urls|
  {
    if urls == [] then []
    else
      var url := urls[|urls| - 1];
      UserRecords(urls[..|urls| - 1], site) + [UserRecord(url, Row(url, site(url)))]
  }

  /** Record `k` names URL `k`, and so does the row it holds. */
  lemma {:induction false} UserRecordsAt(urls: seq<string>, site: Site, k: nat)
    requires k < |urls|
    ensures UserRecords(urls, site)[k] == UserRecord(urls[k], Row(urls[k], site(urls[k])))
    ensures Get(UserRecords(urls, site)[k].scrapedData, ProfileUrlKey) == Some(urls[k])
    decreases |urls|
  {
    RowFacts(urls[k], site(urls[k]));
    if k < |urls| - 1 {
      var init := urls[..|urls| - 1];
      UserRecordsAt(init, site, k);
      assert init[k] == urls[k];
    }
  }

  /** The refusal when the browser session was never saved. */
  const MissingStateFile := HttpError(400, "State file '" + StateFile + "' not found. Please use login first.")

  /**
   * scrape_profiles: refuse with 400 before launching a browser when the state
   * file is missing. Otherwise `launch` stands for starting Playwright, the
   * browser, the context loaded from the state file and the page, and `close`
   * for closing them; an exception from either escapes the endpoint. When both
   * complete, the answer holds one user record per requested URL, in order,
   * with a pause after every position but the last.
   */
  method ScrapeProfiles(stateFileExists: bool, launch: Step, close: Step, urls: seq<string>, site: Site)
    returns (response: Response, launchAttempted: bool, pauses: seq<bool>)
    ensures !stateFileExists ==> response == MissingStateFile && !launchAttempted && pauses == []
    ensures stateFileExists ==> launchAttempted
    ensures stateFileExists && launch.Raises? ==> response == Escaped(launch.message) && pauses == []
    ensures stateFileExists && launch.Completes? ==>
      |pauses| == |urls| && forall i :: 0 <= i < |urls| ==> (pauses[i] <==> i < |urls| - 1)
    ensures stateFileExists && launch.Completes? && close.Raises? ==> response == Escaped(close.message)
    ensures stateFileExists && launch.Completes? && close.Completes? ==>
      response == Scraped(|urls|, UserRecords(urls, site))
  {
    if !stateFileExists {
      return MissingStateFile, false, [];
    }
    launchAttempted := true;
    if launch.Raises? {
      return Escaped(launch.message), true, [];
    }
    var results: seq<UserRecord> := [];
    pauses := [];
    var total := |urls|;
    var index := 0;
    while index < total
      invariant 0 <= index <= total
      invariant results == UserRecords(urls[..index], site)
      invariant |pauses| == index && forall i :: 0 <= i < index ==> (pauses[i] <==> i < total - 1)
    {
      assert urls[..index + 1][..index] == urls[..index];
      var url := urls[index];
      var data := ProcessSingleProfile(site(url), url);
      results := results + [UserRecord(url, data)];
      pauses := pauses + [index < total - 1];
      index := index + 1;
    }
    assert urls[..index] == urls;
    if close.Raises? {
      response := Escaped(close.message);
    } else {
      response := Scraped(|results|, results);
    }
  }

  /**
   * A successful answer counts its profiles, holds one per requested URL, and
   * profile `i` names URL `i` both itself and in its row's "Profile URL".
   */
  lemma ScrapedResponseFacts(urls: seq<string>, site: Site)
    ensures var r := Scraped(|urls|, UserRecords(urls, site));
      && r.count == |r.profiles| == |urls|
      && forall i :: 0 <= i < |urls| ==>
           r.profiles[i].url == urls[i] && Get(r.profiles[i].scrapedData, ProfileUrlKey) == Some(urls[i])
  {
    forall i | 0 <= i < |urls|
      ensures UserRecords(urls, site)[i].url == urls[i]
      ensures Get(UserRecords(urls, site)[i].scrapedData, ProfileUrlKey) == Some(urls[i])
    {
      UserRecordsAt(urls, site, i);
    }
  }
}
