# LinkedIn profile extraction and the dashboard's form parsing, in Dafny

This project models two small programs and proves properties of the model.

The first is a LinkedIn profile scraper. It exists in two near-identical variants:

- `linkdine_scrapper/scraper.py`, a batch script writing nested JSON records;
- `linkdine_scrapper/app.py`, an API server writing flat CSV rows and answering `/scrape`.

For each profile URL the scraper:

1. navigates to the page and waits for it to settle;
2. reads the About section, which gives the cleaned text, or one of two sentinels, "N/A" and "Error";
3. opens the "Contact info" dialog and reads six labels in a fixed order ("Website", "Phone", "Email", "Birthday", "Address", "Twitter"), collapsing the whitespace of each value;
4. assembles a record or row, with defaults, and handles exceptions at the profile boundary.

A batch loop runs this for every URL and asks for a pause between profiles.

The second is the Rails dashboard's `PagesController`. Three actions take form input:

- `make_call` and `scrape_urls` split the input on ",", strip each entry and drop the empty ones;
- all three pick a branch on whether the input is present;
- they call one service per entry, once for the list, or once for the title;
- they render with status 422.

## Modules

- **Text** holds the string operations both languages use:
  - `strip`, `split()` and `" ".join`;
  - `split(",")` for Python and for Ruby, which drops trailing empty fields;
  - `replace`, `lower`, `startswith`, `in`, and `Integer#to_s`.

  Whitespace is a fixed character set per language:
  - Python's `str.isspace()`: Unicode White_Space plus U+001C to U+001F;
  - Ruby's `String#strip`: NUL, tab to CR, and space;
  - Ruby's `[[:space:]]`, behind `present?`: Unicode White_Space.
- **PyDict** is a Python dict as an insertion-ordered list of entries:
  - `d[k] = v` replaces in place, or appends;
  - `update` assigns entry by entry;
  - `get` looks up a key.
- **PageModel** describes one profile page as data. It records what the browser would report:
  - whether navigation succeeds;
  - whether the heading, the "see more" button and the contact link are visible;
  - the About text;
  - the dialog's label paragraphs, each with its `normalize-space()` text and its next sibling;
  - at which step, if any, a browser call raises.
- **Extraction** holds About and contact extraction. The code is the same in both Python files (`scraper.py:65-122` and `app.py:92-156`), so it is modelled once and cited at `scraper.py`.
  - `ExtractContactInfo` is a method whose label loop fills the dict step by step.
  - It is proved equal to the function `ContactSpec`.
- **Scraper** covers `scraper.py`:
  - the nested record and `process_single_profile`;
  - the batch loop, which skips blank URLs;
  - the URL-file parsing.
- **App** covers `app.py`:
  - the flat row and the merge with `update`;
  - the CSV projection and the CSV batch loop;
  - the `/scrape` endpoint with its state-file check.
- **PagesController** covers the three actions, with the services as function parameters.

Where the code and its description disagree, the model follows the code:

- **The handler's Escape press.** Inside `extract_contact_info`'s `except` handler, the second Escape press (`scraper.py:120`, `app.py:154`) is not guarded. If it raises, the exception leaves the function. In `scraper.py` that exception becomes the record's "error" entry, and the contact details so far are lost. In `app.py` the row keeps only "Profile URL" and "About". This is `Extraction.Handler`, and the `Propagated` outcome of `Extraction.ContactSpec`.
- **Pauses in the batch script.** In `scraper.py`'s batch loop, the `continue` for a blank URL also skips the pause (`scraper.py:177`). A pause follows raw position `i` only when that URL is not blank and `i` is not the last position. This is `Scraper.PausesAfter`.

## Model

| member | source | states |
|---|---|---|
| Text.Strip | linkdine_scrapper/scraper.py:78 | The result has no whitespace at either end. It equals the input when the input is already stripped. It is empty exactly when the input is all whitespace. It only drops characters. |
| Text.StripRemovesOnlyEnds | linkdine_scrapper/scraper.py:78 | Stripping keeps one contiguous slice of the input. Everything before and after that slice is whitespace. |
| Text.StripLeadingSpace | linkdine_scrapper/scraper.py:82 | A single space before non-empty stripped text is removed by stripping, and nothing else is. |
| Text.StartsWith | linkdine_scrapper/scraper.py:81 | Definition of `startswith`; its meaning is stated by `Text.StartsWithSplit`. |
| Text.StartsWithSplit | linkdine_scrapper/scraper.py:81 | `s.startswith(p)` holds exactly when `s` is `p` followed by the rest of `s`. Any `p + s` starts with `p`. |
| Text.Contains | linkdine_scrapper/scraper.py:83 | Definition of `p in s`; its meaning is stated by `Text.ContainsIff`. |
| Text.ContainsIff | linkdine_scrapper/scraper.py:83 | `p in s` holds exactly when `p` occurs at some offset of `s`, in both directions. |
| Text.RemoveAll | linkdine_scrapper/scraper.py:84 | `replace(pat, "")` never lengthens the text. It leaves text without `pat` unchanged. When `pat` occurs, it shortens the text by at least `len(pat)`. What it deletes is stated by `Text.RemoveAllAfter`. |
| Text.RemoveAllAfter | linkdine_scrapper/scraper.py:84 | The scan deletes the leftmost occurrence and keeps everything before it verbatim: when no occurrence starts inside `a`, `replace` on `a + pat + b` gives `a` followed by `replace` on `b`. |
| Text.RemoveAllTwo | linkdine_scrapper/scraper.py:84 | Every occurrence is deleted, not only the first: `a + pat + b + pat` becomes `a + b` when no occurrence starts inside `a` or `b`. |
| Text.RemoveAllTrailing | linkdine_scrapper/scraper.py:84 | A trailing occurrence after text in which no occurrence starts is deleted, and the text before it is kept. |
| Text.Words | linkdine_scrapper/scraper.py:112 | Every piece `split()` returns is a non-empty run without whitespace. That the pieces are the maximal runs is stated by `Text.WordsAndGaps` and `Text.WordsOfWeave`. |
| Text.WordsAndGaps | linkdine_scrapper/scraper.py:112 | The input is `g0 + w0 + g1 + w1 + ... + gn` where the `w`s are the words `split()` returns. Every gap `g` is whitespace, and every gap between two words is non-empty. So the words are the maximal whitespace-free runs. |
| Text.WordsOfWeave | linkdine_scrapper/scraper.py:112 | The converse: any text built as whitespace gaps around whitespace-free words, with the inner gaps non-empty, splits into exactly those words. |
| Text.WordsSkipGap | linkdine_scrapper/scraper.py:112 | Leading whitespace does not change what `split()` returns. |
| Text.WordsTrailingSpace | linkdine_scrapper/scraper.py:112 | Trailing whitespace does not change what `split()` returns. |
| Text.WordsOfStrip | linkdine_scrapper/scraper.py:111-112 | Stripping before `split()` does not change the words. |
| Text.Collapse | linkdine_scrapper/scraper.py:112 | `" ".join(s.split())` has whitespace only as single plain spaces, never two adjacent, and none at either end. |
| Text.JoinWordsCollapsed | linkdine_scrapper/scraper.py:112 | Joining words with single spaces gives collapsed, stripped text. It is non-empty when there is a word. |
| Text.WordsOfJoin | linkdine_scrapper/scraper.py:112 | Splitting the space-join of words gives the same words back. |
| Text.CollapseKeepsWords | linkdine_scrapper/scraper.py:112 | Collapsing keeps the words of the text, in order. |
| Text.CollapseIdempotent | linkdine_scrapper/scraper.py:112 | Collapsing twice gives what collapsing once gives. |
| Text.SplitOn | linkdine_scrapper/scraper.py:218 | `split(",")` returns at least one field. No field contains the separator. Joining the fields with the separator gives the input back. |
| Text.SplitOfJoin | linkdine_scrapper/scraper.py:218 | Splitting the separator-join of separator-free fields gives the fields back. |
| Text.SplitOfSeparators | autodialer/app/controllers/pages_controller.rb:12 | Input made only of separators splits into empty fields. |
| Text.DropTrailingEmpty | autodialer/app/controllers/pages_controller.rb:12 | Ruby's split is Python's split minus its trailing empty fields. The result is a prefix of the input and ends in a non-empty field. |
| Text.RubySplit | autodialer/app/controllers/pages_controller.rb:12 | Definition of Ruby's `split(",")` as Python's split minus its trailing empty fields. What it keeps is stated by `Text.DropTrailingEmpty`, and that cleaning does not see the difference by `Text.CleanDropTrailingEmpty`. |
| Text.StripAll | linkdine_scrapper/scraper.py:218 | Definition of `[u.strip() for u in parts]`, field by field. What the cleaned list holds is stated by `Text.Clean`, `Text.CleanAppend` and `Text.CleanOne`. |
| Text.NonEmpty | linkdine_scrapper/scraper.py:218 | Only non-empty fields are kept, and each is taken from the input. |
| Text.Clean | linkdine_scrapper/scraper.py:218 | The list comprehension's result is no longer than its input. Every entry is non-empty and stripped. |
| Text.CleanAppend | linkdine_scrapper/scraper.py:218 | Cleaning distributes over concatenation, so order is kept. |
| Text.CleanOne | linkdine_scrapper/scraper.py:176-177 | One field cleans to its stripped form, or to nothing when it is all whitespace. |
| Text.CleanSkipsBlank | linkdine_scrapper/scraper.py:176-177 | A whitespace-only field contributes nothing wherever it stands. |
| Text.CleanOfClean | linkdine_scrapper/scraper.py:218 | A list of stripped, non-empty entries cleans to itself. |
| Text.CleanKeepsOut | linkdine_scrapper/scraper.py:218 | No cleaned entry holds a character that no input field holds. |
| Text.CleanDropTrailingEmpty | autodialer/app/controllers/pages_controller.rb:12 | Cleaning gives the same list after Ruby's split as after Python's. |
| Text.CleanOfEmpties | autodialer/app/controllers/pages_controller.rb:12 | A list of empty fields cleans to nothing. |
| Text.Decimal | autodialer/app/controllers/pages_controller.rb:19 | `Integer#to_s` of a natural number is a non-empty run of digits. |
| Text.DecimalValue | autodialer/app/controllers/pages_controller.rb:19 | The digits of `Integer#to_s` read back as the number, and there is no leading zero unless the number is 0. |
| PyDict.Get | linkdine_scrapper/app.py:208 | A lookup finds a value exactly when the key is among the dict's keys. |
| PyDict.GetEntry | linkdine_scrapper/scraper.py:113 | With distinct keys, looking up an entry's key gives that entry's value. |
| PyDict.Set | linkdine_scrapper/scraper.py:113 | `d[k] = v` keeps the length of the dict when `k` is present and adds one entry when it is new. |
| PyDict.SetFacts | linkdine_scrapper/scraper.py:113 | After `d[k] = v`, `k` maps to `v` and every other key keeps its value. A present key keeps its position. A new key is appended last. |
| PyDict.SetGet | linkdine_scrapper/scraper.py:113 | After `d[k] = v`, looking up `k` gives `v`, and looking up any other key gives what it gave before. |
| PyDict.SetShape | linkdine_scrapper/scraper.py:113 | `d[k] = v` keeps the key list when `k` is present. Otherwise it appends the entry. |
| PyDict.SetKeys | linkdine_scrapper/scraper.py:113 | `d[k] = v` keeps the old keys in order, followed by `k` alone when it is new. |
| PyDict.SetDistinct | linkdine_scrapper/scraper.py:113 | Assignment keeps keys distinct. |
| PyDict.Update | linkdine_scrapper/app.py:190 | `d.update(e)` keeps every entry of `d` and adds at most one entry per entry of `e`. |
| PyDict.UpdateGet | linkdine_scrapper/app.py:190 | After `d.update(e)`, a key of `e` maps to its value in `e`, and every other key to its value in `d`. |
| PyDict.UpdateKeys | linkdine_scrapper/app.py:190 | `update` keeps the keys of `d` first and in order, and adds only keys of `e`. |
| PyDict.UpdateDistinct | linkdine_scrapper/app.py:190 | `update` keeps keys distinct. |
| PyDict.UpdateFresh | linkdine_scrapper/app.py:190 | `d.update(e)` with distinct keys, none already in `d`, appends the entries of `e` after those of `d`, in the order of `e`. |
| Extraction.NavigateAndSettle | linkdine_scrapper/scraper.py:136-148 | Definition of the navigation and settling steps as one outcome: a navigation failure escapes, a network-idle timeout is swallowed, any other exception from that wait escapes, and otherwise the scroll and key-press steps decide. Its consequence for the record is stated by `Scraper.IdleTimeoutIgnored` and `Scraper.ProfileRecordFacts`. |
| Extraction.DropLabel | linkdine_scrapper/scraper.py:78-82 | The text after the optional leading "About" is stripped and no longer than the section text. |
| Extraction.DropSeeMore | linkdine_scrapper/scraper.py:83-84 | The "see more" cleanup never lengthens the text. What it deletes is stated by `Extraction.SeeMoreArtefactsDropped` and `Extraction.TrailerDropped`. |
| Extraction.CleanAbout | linkdine_scrapper/scraper.py:78-86 | The cleaned About text is stripped and no longer than the section text. |
| PageModel.ShownText | linkdine_scrapper/scraper.py:73-76 | Definition of the text read from the section: the expanded text when the "see more" button was there to click, otherwise the text as rendered. `Extraction.ExtractAbout` states the same choice in its contract. |
| Extraction.ExtractAbout | linkdine_scrapper/scraper.py:65-88 | Gives "Error" on any fault, and "N/A" when the heading is not visible. Otherwise it gives exactly `CleanAbout` of the expanded text when the "see more" button was shown, and of the rendered text when it was not. That result is stripped and no longer than what was read. It never raises. |
| Text.Lower | linkdine_scrapper/scraper.py:83 | Lower-casing keeps the length, turns each ASCII letter from "A" to "Z" into the matching one from "a" to "z", and changes no other character. |
| Extraction.LowerKeepsLowerPattern | linkdine_scrapper/scraper.py:83 | Lower-casing keeps every occurrence of a pattern with no upper-case letters. |
| Extraction.LowerKeepsPattern | linkdine_scrapper/scraper.py:83 | Lower-casing turns every occurrence of a pattern into an occurrence of the lower-cased pattern. |
| Extraction.TitleCaseLowered | linkdine_scrapper/scraper.py:83 | "See More" lower-cases to "see more". |
| Extraction.SeeMoreAnyCaseFound | linkdine_scrapper/scraper.py:83 | Text holding any case mix of "see more", such as "See More", passes the lower-cased `in` test. |
| Extraction.SeeMoreExactCaseOnly | linkdine_scrapper/scraper.py:83-84 | Without the exact-case "see more", the text survives the cleanup unchanged or only stripped. "See More" is not removed. |
| Extraction.SeeMoreTitleCaseKept | linkdine_scrapper/scraper.py:83-84 | Text holding "See More" but not the exact-case "see more" passes the `in` test, yet the case-sensitive replaces delete nothing. The text is only stripped, and "See More" stays. |
| Extraction.SeeMoreRemoved | linkdine_scrapper/scraper.py:83-84 | With the exact-case "see more", the cleanup removes at least its eight characters. |
| Extraction.TrailerMentionsSeeMore | linkdine_scrapper/scraper.py:83 | Text holding "...see more" passes the lower-cased `in` test, wherever the artefact stands. |
| Extraction.TrailerDropped | linkdine_scrapper/scraper.py:83-84 | Text followed by "...see more" comes out as the text, stripped, when the text itself holds no artefact. |
| Extraction.SeeMoreArtefactsDropped | linkdine_scrapper/scraper.py:83-84 | Both artefacts of `a + "...see more" + b + "...see more"` are deleted, leaving `a + b` stripped. |
| Extraction.LabelDropped | linkdine_scrapper/scraper.py:81-82 | "About", a space and non-empty stripped text come out as the text alone. |
| Extraction.AboutLabelAndTrailerDropped | linkdine_scrapper/scraper.py:78-86 | A section reading "About " + text + "...see more" is cleaned to exactly the text: the label, the space after it and the artefact all go. |
| Extraction.AboutCleanupPlainText | linkdine_scrapper/scraper.py:81-86 | Text without the artefact is only stripped. A leading "About" is dropped together with the whitespace after it. |
| Extraction.SentinelAmbiguity | linkdine_scrapper/scraper.py:65-88 | The two sentinels differ. A section whose text is "N/A" reads the same as a missing heading. |
| Extraction.FirstMatch | linkdine_scrapper/scraper.py:109 | Gives the position of the first paragraph whose normalised text is the label and which has a following sibling. No earlier paragraph qualifies. |
| Extraction.Locate | linkdine_scrapper/scraper.py:109 | The locator finds an element exactly when some paragraph carries the label and has a following sibling. |
| Extraction.ContactValue | linkdine_scrapper/scraper.py:111-112 | A stored contact value is stripped and collapsed. |
| Extraction.ContactValueIdempotent | linkdine_scrapper/scraper.py:111-112 | Normalising a stored value again changes nothing. |
| Extraction.ContactValueOfWords | linkdine_scrapper/scraper.py:111-112 | A sibling text made of whitespace gaps and words is stored as the words joined by single spaces. |
| Extraction.ContactValueTwoWords | linkdine_scrapper/scraper.py:111-112 | Two words with any whitespace before, between and after them are stored as the two words separated by one space. |
| Extraction.ContactValueExample | linkdine_scrapper/scraper.py:111-112 | The value "  New\n York  " is stored as "New York". |
| Extraction.CapturedRule | linkdine_scrapper/scraper.py:109-113 | A label is captured exactly when the first paragraph labelling it has a visible sibling. The value is that sibling's normalised text. |
| Extraction.CapturedValues | linkdine_scrapper/scraper.py:107-113 | Definition of what probing each of the six labels stores, in order. Its meaning is stated by `Extraction.CapturedRule` and `Extraction.CollectFacts`. |
| Extraction.CollectGet | linkdine_scrapper/scraper.py:107-113 | After `n` labels, each of the first `n` labels maps to its captured value. No key outside them is present. |
| Extraction.CollectStep | linkdine_scrapper/scraper.py:108-113 | Probing the next label appends its entry when it is captured. Nothing is overwritten. |
| Extraction.CollectKeys | linkdine_scrapper/scraper.py:107-113 | The keys are the captured labels in label order. |
| Extraction.CollectDistinct | linkdine_scrapper/scraper.py:113 | The keys are distinct. |
| Extraction.CollectPrefix | linkdine_scrapper/scraper.py:108-113 | The dict after fewer labels is a prefix of the dict after more. |
| Extraction.CollectFacts | linkdine_scrapper/scraper.py:107-113 | After `n` labels, the keys are the captured labels in order and distinct. Each label maps to its captured value when among the first `n`, and to nothing otherwise. No other key appears. |
| Extraction.LabelsProbed | linkdine_scrapper/scraper.py:107-108 | At most six labels are probed before the dialog is left. |
| Extraction.ProbeLabel | linkdine_scrapper/scraper.py:109-113 | One loop pass turns the dict of the first `i` labels into the dict of the first `i + 1`. |
| Extraction.Handler | linkdine_scrapper/scraper.py:118-120 | The dict collected so far survives exactly when the handler's Escape press completes. Otherwise the exception from that press escapes with its message. |
| Extraction.ContactSpec | linkdine_scrapper/scraper.py:90-122 | Definition of the contact outcome: the entries of the labels probed before the dialog was left, passed through the except handler when a step raised. Its content is stated by `Extraction.ContactResultFacts`, `Extraction.ContactPartial` and `Extraction.ContactLinkAbsent`. |
| Extraction.ExtractContactInfo | linkdine_scrapper/scraper.py:90-122 | The step-by-step extraction gives exactly `ContactSpec`. That is the entries of the labels probed before the dialog was left, passed through the except handler when a step raised. |
| Extraction.ReadLabels | linkdine_scrapper/scraper.py:107-113 | The label loop in the open dialog returns the entries of the labels probed before it stopped, and reports a raised exception exactly when a label step raised. |
| Extraction.ContactLinkAbsent | linkdine_scrapper/scraper.py:93-95 | With no visible "Contact info" link, the result is an empty dict, not an error. |
| Extraction.ContactResultFacts | linkdine_scrapper/scraper.py:107-122 | Any returned dict holds only the six labels, distinct and in label order. Each probed label carries its captured value. The dict is a prefix of the fault-free result. |
| Extraction.ContactPartial | linkdine_scrapper/scraper.py:108-122 | A fault at label `k`, with a handler that completes, returns exactly the entries of the labels before `k`. |
| Scraper.Profile | linkdine_scrapper/scraper.py:124-160 | Definition of the nested record of one profile. Its content is stated by `Scraper.ProfileRecordFacts`, `Scraper.ProfileContactKeys` and `Scraper.IdleTimeoutIgnored`. |
| Scraper.ProcessSingleProfile | linkdine_scrapper/scraper.py:124-160 | The step-by-step record equals `Scraper.Profile`. |
| Scraper.ProfileRecordFacts | linkdine_scrapper/scraper.py:129-158 | The record keeps its URL. It has an "error" exactly when navigation or the contact step let an exception out, holding that exception's text. The defaults stay when navigation fails, and the About text stays when the contact step fails. |
| Scraper.ProfileContactKeys | linkdine_scrapper/scraper.py:154 | The nested contact details hold only the six labels, each at most once. |
| Scraper.IdleTimeoutIgnored | linkdine_scrapper/scraper.py:137-140 | A network-idle timeout gives the same record as a page that settles. |
| Scraper.ProfilesOf | linkdine_scrapper/scraper.py:179-180 | Gives one record per URL. |
| Scraper.ProfilesOfAt | linkdine_scrapper/scraper.py:179-180 | Record `k` is the record of URL `k` and names it. |
| Scraper.Batch | linkdine_scrapper/scraper.py:172-180 | The batch has at most one record per raw URL. Which records it holds is stated by `Scraper.BatchRecords`. |
| Scraper.PausesAfter | linkdine_scrapper/scraper.py:177-185 | Definition: a pause follows raw position `i` exactly when that URL is not blank and `i` is not the last position. `Scraper.RunBatchScraper` and `Scraper.BlankUrlSkipped` state it of the loop. |
| Scraper.CleanSnoc | linkdine_scrapper/scraper.py:176-177 | One more raw URL adds its stripped form to the cleaned list unless it is blank. |
| Scraper.BatchSnoc | linkdine_scrapper/scraper.py:172-180 | One more raw URL adds its record unless it is blank. |
| Scraper.RunBatchScraper | linkdine_scrapper/scraper.py:163-188 | The loop gives the records of the stripped, non-blank URLs in input order. It asks for a pause after raw position `i` exactly when that URL is not blank and `i` is not the last position. |
| Scraper.BlankUrlSkipped | linkdine_scrapper/scraper.py:176-177 | A blank URL changes no result, and no pause follows it. |
| Scraper.BatchRecords | linkdine_scrapper/scraper.py:172-180 | There is one record per non-blank URL, in order. Each is the record of the stripped URL and names it. |
| Scraper.ParseUrlFile | linkdine_scrapper/scraper.py:218 | Every URL read from the file is stripped, non-empty and free of commas. |
| Scraper.ParseUrlFileRoundTrip | linkdine_scrapper/scraper.py:218 | Stripped, non-empty, comma-free URLs written comma-separated are read back as the same list. |
| Scraper.BatchOfParsedFile | linkdine_scrapper/scraper.py:218-226 | On the list read from the file nothing is skipped, and a pause follows every position but the last. |
| App.Row | linkdine_scrapper/app.py:158-195 | Definition of the flat row of one profile. Its content is stated by `App.RowFacts` and `App.MergeFacts`. |
| App.ProcessSingleProfile | linkdine_scrapper/app.py:158-195 | The step-by-step row equals `App.Row`. |
| App.LabelsAreHeaders | linkdine_scrapper/app.py:22-25 | Every contact label is a CSV header, and neither fixed key is a contact label. |
| App.ContactKeysAreLabels | linkdine_scrapper/app.py:139-146 | A returned contact dict has distinct keys, all contact labels and CSV headers, and never "Profile URL" or "About". |
| App.WithAboutFacts | linkdine_scrapper/app.py:161-183 | Setting "About" keeps the two keys in order, with the URL and the new text. |
| App.MergeFacts | linkdine_scrapper/app.py:190 | Merging the contact dict keeps "Profile URL" and "About" first with their values, and keeps keys distinct. It adds only headers. Each label then holds the contact dict's value. After the two fixed keys come exactly the contact entries, in the order they were found. |
| App.RowFacts | linkdine_scrapper/app.py:158-195 | The row starts with "Profile URL" set to the URL and "About" ("N/A" when navigation failed). Its keys are distinct CSV headers. When the contact step returns a dict, the rest of the row is exactly that dict, in label order. An exception leaves just the two keys, with no error entry. |
| App.CsvRecord | linkdine_scrapper/app.py:208 | The projection has one field per header. |
| App.CsvRecordOfRow | linkdine_scrapper/app.py:208-221 | The projection drops no key of the row. The URL and About come first, and a missing header gives an empty field. |
| App.CsvLines | linkdine_scrapper/app.py:215-221 | Gives one CSV line per URL. |
| App.CsvLinesAt | linkdine_scrapper/app.py:215-221 | Line `k` is the projection of URL `k`'s row and starts with that URL. |
| App.RunBatchScraper | linkdine_scrapper/app.py:199-229 | Writes the header line, then one line per URL in input order, with none skipped. A pause follows every position but the last. |
| App.UserRecords | linkdine_scrapper/app.py:265-275 | Gives one user record per URL. |
| App.UserRecordsAt | linkdine_scrapper/app.py:265-275 | Record `k` names URL `k`, and so does its row's "Profile URL". |
| App.ScrapeProfiles | linkdine_scrapper/app.py:239-285 | A missing state file gives a 400 with its message, before any browser launch. A launch that raises escapes with its message, and nothing is scraped. Otherwise a pause follows every position but the last. When closing the browser raises, that exception escapes. When it completes, the answer holds the count and one user record per URL, in order. |
| App.ScrapedResponseFacts | linkdine_scrapper/app.py:263-285 | The count equals the number of profiles, which equals the number of URLs. Profile `i` names URL `i` both itself and in its row. |
| PagesController.Present | autodialer/app/controllers/pages_controller.rb:10 | A missing or empty parameter is never present. |
| PagesController.ParseList | autodialer/app/controllers/pages_controller.rb:12 | Every parsed entry is non-empty, stripped and free of commas. |
| PagesController.ParseListIgnoresTrailingEmpty | autodialer/app/controllers/pages_controller.rb:42 | Ruby's dropping of trailing empty fields does not change the parsed list. |
| PagesController.ParseListRoundTrip | autodialer/app/controllers/pages_controller.rb:12 | Stripped, non-empty, comma-free entries joined with "," parse back to themselves, in order. |
| PagesController.OnlyCommasParseEmpty | autodialer/app/controllers/pages_controller.rb:10-12 | Input made only of commas is present but parses to no entry. |
| PagesController.MakeCall | autodialer/app/controllers/pages_controller.rb:6-31 | Present input places one call per parsed number, in order, keeps one result per call and reports the count. Blank input places no call and alerts. Both render home with 422. |
| PagesController.MakeCallOnlyCommas | autodialer/app/controllers/pages_controller.rb:10-19 | Input like ",," places no call and reports "Processed 0 numbers.". |
| PagesController.ScrapeUrls | autodialer/app/controllers/pages_controller.rb:37-56 | Present input sends the whole parsed list once and reports completion. Blank input sends nothing and alerts. Both render the scraper page with 422. |
| PagesController.GenerateBlog | autodialer/app/controllers/pages_controller.rb:63-101 | A blank title calls nothing and alerts "Title is required!". A present title calls the service once; an "error" gives an alert with the result's message, and otherwise a success notice. Both render with the static entries and 422. |

## Left out

- **Playwright.** The browser, its locators, waits, clicks, mouse wheel and key presses are not modelled as a browser. Each page is a value of `PageModel.ProfilePage`. Every browser call made while extracting one profile is either a field of it or a fault position.
- **Browser launch and close.** In `/scrape`, launching Chromium, creating the context from the state file and opening the page are one `launch` step that completes or raises. Closing the browser is one `close` step. Both are parameters of `App.ScrapeProfiles`. In the batch scripts `setup_browser`, the browser close, and failures to open or write files are not modelled.
- **Document structure.** The dialog is a flat list of label paragraphs in document order. The XPath `//p[normalize-space()='X']/following-sibling::*` with `.first` is taken to pick the next sibling of the first such paragraph that has one. Paragraphs nested inside other paragraphs are not represented.
- **normalize-space() and the page's text.** The text XPath's `normalize-space()` gives a paragraph, and what `text_content()` returns, are taken as given by the page. They are not computed from markup.
- **Page state.** A page does not carry state from one profile to the next. `Site` is a function from URL to page, so a dialog left open by a failed profile does not affect the next one.
- **Timing.** `time.sleep`, `random.uniform` and the timeouts are left out. Only whether a pause is requested is modelled, not its length. A contact section that does not appear within 5 seconds only costs a pause and changes nothing else.
- **Login and I/O.** These are not modelled:
  - `save_state`, `setup_browser`, proxies and stealth;
  - `.env` loading and `print` logging;
  - the JSON dump, CSV file writing and CSV quoting, and reading `profile_url.txt`;
  - the `__main__` flows and their state-file check and login;
  - uvicorn, FastAPI wiring and the health check.

  Only the list-parsing expression at `scraper.py:218` and the row projection of `csv.DictWriter` are modelled.
- **Rails services and wiring.** `VonageService`, `ScraperService` and `BlogService` are HTTP or SDK wrappers, and they are function parameters here. The routes and the controller test are not modelled. For `generate_blog`, the result hash is reduced to whether "error" is truthy and the value under "message".
- Text.Lower: only the ASCII letters are lower-cased. Python's `str.lower()` also folds other scripts, and can lengthen the text ("İ" becomes "i" followed by a combining dot). The few non-ASCII characters that fold into ASCII letters, such as the Kelvin sign becoming "k", give none of the letters of "see more". So the model finds "see more" exactly where Python does, but `Lower` is not Python's lower-casing on other text.
- Text.IsSpace: whitespace is a fixed character table per language, not the full Unicode database of the running interpreter.
- Extraction.ExtractAbout: the "N/A" and "Error" sentinels can collide with real section text. A section that reads "N/A" is indistinguishable from a missing heading; `Extraction.SentinelAmbiguity` exhibits this.
- Scraper.ProfileContactKeys: states the keys. The shape of each stored value (stripped and collapsed) is stated once, on `Extraction.ContactValue`, rather than per dict entry.
