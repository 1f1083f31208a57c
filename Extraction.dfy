/**
 * The field extractor shared by the batch script and the API server: the About
 * section with its two sentinels and its text cleanup, and the contact dialog
 * read label by label. Both programs hold the same code for these two steps.
 */
module Extraction {
  import opened Base
  import opened Text
  import opened PyDict
  import opened PageModel

  /** The About text when the heading is not visible. */
  const NotFound := "N/A"
  /** The About text when any step of its extraction raised. */
  const ExtractionError := "Error"

  // ---------------------------------------------------------------------------
  // Navigation

  /**
   * The steps before extraction in process_single_profile: page.goto, the wait
   * for network idle, whose timeout is swallowed while any other exception
   * escapes, then the scrolls and the Home key press.
   */
  function NavigateAndSettle(p: ProfilePage): Step {
    match p.navigation
    case Raises(_) => p.navigation
    case Completes =>
      match p.idle
      case IdleRaises(message) => Raises(message)
      case _ => p.settle
  }

  // ---------------------------------------------------------------------------
  // About

  /** The section text stripped, and a leading "About" (five characters) dropped with what whitespace follows it. */
  function DropLabel(text: string): (r: string)
    ensures IsStripped(PySpace, r) && |r| <= |text|
  {
    var full := Strip(PySpace, text);
    if StartsWith(full, "About") then Strip(PySpace, full[5..]) else full
  }

  /** When the lower-cased text mentions "see more", the exact-case "...see more" and then "see more" are deleted. */
  function DropSeeMore(u: string): (r: string)
    ensures |r| <= |u|
  {
    if Contains(Lower(u), "see more")
    then Strip(PySpace, RemoveAll(RemoveAll(u, "...see more"), "see more"))
    else u
  }

  /** The whole cleanup of the section text. */
  function CleanAbout(text: string): (r: string)
    ensures IsStripped(PySpace, r) && |r| <= |text|
  {
    Strip(PySpace, DropSeeMore(DropLabel(text)))
  }

  /**
   * extract_about_section: never raises; "N/A" when the heading is not
   * visible, "Error" when any step raises, otherwise the cleanup of the text
   * read after the "see more" click (or as rendered when there was no button
   * to click), which is stripped and no longer than that text.
   */
  function ExtractAbout(v: AboutView): (r: string)
    ensures v.fault == FaultAtHeading ==> r == ExtractionError
    ensures v.fault != FaultAtHeading && !v.headingVisible ==> r == NotFound
    ensures v.headingVisible && v.fault != NoAboutFault ==> r == ExtractionError
    ensures v.headingVisible && v.fault == NoAboutFault ==>
      r == CleanAbout(if v.seeMoreShown then v.expandedText else v.collapsedText)
    ensures v.headingVisible && v.fault == NoAboutFault ==>
      IsStripped(PySpace, r) && |r| <= |ShownText(v)|
  {
    if v.fault == FaultAtHeading then ExtractionError
    else if !v.headingVisible then NotFound
    else if v.fault != NoAboutFault then ExtractionError
    else CleanAbout(ShownText(v))
  }

  /** Lower-casing keeps every occurrence of a pattern without upper-case letters. */
  lemma {:induction false} LowerKeepsLowerPattern(s: string, p: string)
    requires forall k :: 0 <= k < |p| ==> !('A' <= p[k] <= 'Z')
    requires Contains(s, p)
    ensures Contains(Lower(s), p)
    decreases |s|
  {
    if StartsWith(s, p) {
      assert Lower(s)[..|p|] == p;
    } else {
      LowerKeepsLowerPattern(s[1..], p);
      assert Lower(s)[1..] == Lower(s[1..]);
    }
  }

  /** Lower-casing turns every occurrence of a pattern into an occurrence of the lower-cased pattern. */
  lemma {:induction false} LowerKeepsPattern(s: string, p: string)
    requires Contains(s, p)
    ensures Contains(Lower(s), Lower(p))
    decreases |s|
  {
    if StartsWith(s, p) {
      assert Lower(s)[..|p|] == Lower(p);
      assert StartsWith(Lower(s), Lower(p));
    } else {
      LowerKeepsPattern(s[1..], p);
      assert Lower(s)[1..] == Lower(s[1..]);
    }
  }

  /** The `in` test on the lower-cased text finds "See More" in any case mix of its letters. */
  lemma SeeMoreAnyCaseFound(u: string, variant: string)
    requires Lower(variant) == "see more" && Contains(u, variant)
    ensures Contains(Lower(u), "see more")
  {
    LowerKeepsPattern(u, variant);
  }

  /** "See More" is lower-cased to "see more". */
  lemma TitleCaseLowered(variant: string)
    requires variant == "See More"
    ensures Lower(variant) == "see more"
  {
    var r := Lower(variant);
    assert r[0] == 's' && r[4] == 'm';
    forall i | 0 <= i < |r| ensures r[i] == "see more"[i] {
      if i != 0 && i != 4 {
        assert variant[i] == "see more"[i];
      }
    }
  }

  /**
   * Text holding "See More" but not the exact-case "see more" passes the `in`
   * test, yet neither replace deletes anything: it is only stripped.
   */
  lemma SeeMoreTitleCaseKept(u: string)
    requires Contains(u, "See More") && !Contains(u, "see more")
    ensures DropSeeMore(u) == Strip(PySpace, u)
  {
    TitleCaseLowered("See More");
    SeeMoreAnyCaseFound(u, "See More");
    if Contains(u, "...see more") {
      assert "...see more" == "..." + "see more";
      ContainsSuffixOfPattern(u, "...", "see more");
    }
  }

  /**
   * Only the exact-case artefact is deleted: text without "see more" in that
   * exact case, such as "See More", comes through unchanged.
   */
  lemma SeeMoreExactCaseOnly(u: string)
    requires !Contains(u, "see more")
    ensures DropSeeMore(u) == u || DropSeeMore(u) == Strip(PySpace, u)
  {
    if Contains(u, "...see more") {
      assert "...see more" == "..." + "see more";
      ContainsSuffixOfPattern(u, "...", "see more");
    }
  }

  /** Exact-case "see more" makes the cleanup delete at least one artefact. */
  lemma SeeMoreRemoved(u: string)
    requires Contains(u, "see more")
    ensures |DropSeeMore(u)| <= |u| - |"see more"|
  {
    LowerKeepsLowerPattern(u, "see more");
    var v := RemoveAll(u, "...see more");
    if Contains(u, "...see more") {
      assert |v| <= |u| - 11;
    } else {
      assert v == u;
    }
    if !Contains(v, "see more") {
      assert |v| <= |u| - 8;
    }
  }

  /** The artefact as the page renders it after the text has been cut short. */
  const Trailer := "...see more"

  /**
   * Every "...see more" artefact is deleted, not just the first: two of them,
   * each after text in which no artefact starts, leave the text around them,
   * stripped.
   */
  lemma SeeMoreArtefactsDropped(a: string, b: string)
    requires !Contains(a + Trailer[..|Trailer| - 1], Trailer)
    requires !Contains(b + Trailer[..|Trailer| - 1], Trailer)
    requires !Contains(a + b, "see more")
    ensures DropSeeMore(a + Trailer + b + Trailer) == Strip(PySpace, a + b)
  {
    assert a + Trailer + b + Trailer == a + Trailer + (b + Trailer);
    TrailerMentionsSeeMore(a, b + Trailer);
    RemoveAllTwo(a, Trailer, b);
  }

  /** Text holding the artefact mentions "see more" once lower-cased. */
  lemma TrailerMentionsSeeMore(a: string, b: string)
    ensures Contains(Lower(a + Trailer + b), "see more")
  {
    var u := a + Trailer + b;
    assert u[|a| + 3..|a| + 11] == "see more";
    ContainsAt(u, "see more", |a| + 3);
    LowerKeepsLowerPattern(u, "see more");
  }

  /** A trailing artefact after text in which none starts is deleted, and the text stripped. */
  lemma TrailerDropped(a: string)
    requires !Contains(a + Trailer[..|Trailer| - 1], Trailer)
    requires !Contains(a, "see more")
    ensures DropSeeMore(a + Trailer) == Strip(PySpace, a)
  {
    var u := a + Trailer;
    assert u == a + Trailer + [];
    TrailerMentionsSeeMore(a, []);
    RemoveAllAfter(a, Trailer, []);
    assert RemoveAll(u, Trailer) == a;
    assert RemoveAll(a, "see more") == a;
  }

  /** "About", a space and stripped text lose the label and the space. */
  lemma LabelDropped(y: string)
    requires y != [] && IsStripped(PySpace, y)
    ensures DropLabel("About " + y) == y
  {
    var text := "About " + y;
    assert IsStripped(PySpace, text);
    assert text[..5] == "About";
    assert text[5..] == [' '] + y;
    StripLeadingSpace(PySpace, y);
  }

  /**
   * A section that reads "About", then its text, then the artefact comes out
   * as the text alone: the label, the whitespace after it and the artefact
   * all go.
   */
  lemma AboutLabelAndTrailerDropped(a: string)
    requires a != [] && IsStripped(PySpace, a)
    requires !Contains(a + Trailer[..|Trailer| - 1], Trailer)
    requires !Contains(a, "see more")
    ensures CleanAbout("About " + a + Trailer) == a
  {
    var y := a + Trailer;
    assert "About " + a + Trailer == "About " + y;
    assert IsStripped(PySpace, y);
    LabelDropped(y);
    TrailerDropped(a);
  }

  /**
   * Text without the label and without the exact-case artefact is only
   * stripped; a leading "About" is dropped with the whitespace after it.
   */
  lemma AboutCleanupPlainText(text: string)
    requires !Contains(DropLabel(text), "see more")
    ensures CleanAbout(text) == DropLabel(text)
    ensures !StartsWith(Strip(PySpace, text), "About") ==> CleanAbout(text) == Strip(PySpace, text)
    ensures StartsWith(Strip(PySpace, text), "About") ==>
      CleanAbout(text) == Strip(PySpace, Strip(PySpace, text)[5..])
  {
    SeeMoreExactCaseOnly(DropLabel(text));
  }

  /** The sentinels differ from each other, but a section whose text is "N/A" reads as not found. */
  lemma SentinelAmbiguity()
    ensures NotFound != ExtractionError
    ensures ExtractAbout(AboutView(true, false, NotFound, "", NoAboutFault)) == NotFound
  {
    var t := NotFound;
    assert IsStripped(PySpace, t);
    assert Strip(PySpace, t) == t;
    assert !StartsWith(t, "About");
    assert DropLabel(t) == t;
    if Contains(Lower(t), "see more") {
      ContainsShorter(Lower(t), "see more");
    }
    assert DropSeeMore(t) == t;
  }

  // ---------------------------------------------------------------------------
  // Contact info

  /** The labels read from the dialog, in the order they are tried. */
  const ContactLabels: seq<string> := ["Website", "Phone", "Email", "Birthday", "Address", "Twitter"]

  /** The row is a <p> whose normalize-space() is exactly `name` and which has a following sibling. */
  predicate LabelsRow(row: LabelRow, name: string) {
    row.labelText == name && row.next.Some?
  }

  /** The position of the first row that labels `name`, or the number of rows if none does. */
  function FirstMatch(rows: seq<LabelRow>, name: string): (i: nat)
    ensures i <= |rows|
    ensures i < |rows| ==> LabelsRow(rows[i], name)
    ensures forall j :: 0 <= j < i ==> !LabelsRow(rows[j], name)
  {
    if rows == [] then 0
    else if LabelsRow(rows[0], name) then 0
    else 1 + FirstMatch(rows[1..], name)
  }

  /** The element that xpath=//p[normalize-space()='name']/following-sibling::* finds first. */
  function Locate(rows: seq<LabelRow>, name: string): (r: Option<Sibling>)
    ensures r.Some? <==> exists i :: 0 <= i < |rows| && LabelsRow(rows[i], name)
  {
    var i := FirstMatch(rows, name);
    if i < |rows| then rows[i].next else None
  }

  /** A sibling's text as stored: stripped, then " ".join(value.split()). */
  function ContactValue(text: string): (r: string)
    ensures IsCollapsed(PySpace, r) && IsStripped(PySpace, r)
  {
    Collapse(PySpace, Strip(PySpace, text))
  }

  /** Normalising a stored value again changes nothing. */
  lemma ContactValueIdempotent(text: string)
    ensures ContactValue(ContactValue(text)) == ContactValue(text)
  {
    var c := Collapse(PySpace, Strip(PySpace, text));
    assert Strip(PySpace, c) == c;
    CollapseIdempotent(PySpace, Strip(PySpace, text));
  }

  /**
   * The stored value is the sibling's words joined by single spaces: text
   * made of words and whitespace runs, with a run between each two words,
   * is stored as " ".join of exactly those words.
   */
  lemma ContactValueOfWords(gs: seq<string>, ws: seq<string>)
    requires |gs| == |ws| + 1
    requires forall i :: 0 <= i < |gs| ==> AllSpace(PySpace, gs[i])
    requires forall i :: 0 < i < |ws| ==> gs[i] != []
    requires forall i :: 0 <= i < |ws| ==> IsWord(PySpace, ws[i])
    ensures ContactValue(Weave(gs, ws)) == JoinWords(ws)
  {
    WordsOfStrip(PySpace, Weave(gs, ws));
    WordsOfWeave(PySpace, gs, ws);
  }

  /**
   * Two words with padding and a line break between them, as in
   * "  New\n York  ", are stored as the two words with one space between.
   */
  lemma ContactValueTwoWords(g0: string, w1: string, g1: string, w2: string, g2: string)
    requires AllSpace(PySpace, g0) && AllSpace(PySpace, g1) && AllSpace(PySpace, g2) && g1 != []
    requires IsWord(PySpace, w1) && IsWord(PySpace, w2)
    ensures ContactValue(g0 + w1 + g1 + w2 + g2) == w1 + " " + w2
  {
    var gs, ws := [g0, g1, g2], [w1, w2];
    assert gs[1..] == [g1, g2] && ws[1..] == [w2];
    assert [g1, g2][1..] == [g2] && [w2][1..] == [];
    assert Weave([g2], []) == g2;
    assert Weave([g1, g2], [w2]) == g1 + w2 + g2;
    assert Weave(gs, ws) == g0 + w1 + (g1 + w2 + g2);
    assert g0 + w1 + (g1 + w2 + g2) == g0 + w1 + g1 + w2 + g2;
    ContactValueOfWords(gs, ws);
    assert JoinWords(ws) == w1 + " " + JoinWords([w2]);
  }

  /** A value spread over lines, with padding, is stored on one line. */
  lemma ContactValueExample(text: string)
    requires text == "  New\n York  "
    ensures ContactValue(text) == "New York"
  {
    ExamplePieces();
    assert text == "  " + "New" + "\n " + "York" + "  ";
    ContactValueTwoWords("  ", "New", "\n ", "York", "  ");
  }

  /** The pieces of the example value: whitespace gaps around two words. */
  lemma ExamplePieces()
    ensures AllSpace(PySpace, "  ") && AllSpace(PySpace, "\n ")
    ensures IsWord(PySpace, "New") && IsWord(PySpace, "York")
    ensures "New" + " " + "York" == "New York"
  {
  }

  /** What probing one label stores: the located sibling's value if that sibling is visible. */
  function Captured(rows: seq<LabelRow>, name: string): Option<string> {
    match Locate(rows, name)
    case Some(s) => if s.visible then Some(ContactValue(s.text)) else None
    case None => None
  }

  /**
   * A label is captured exactly when some row labels it and the first such
   * row's sibling is visible; the value is that sibling's collapsed text.
   */
  lemma CapturedRule(rows: seq<LabelRow>, name: string)
    ensures Captured(rows, name).Some? <==>
      exists i :: 0 <= i < |rows| && LabelsRow(rows[i], name) && rows[i].next.value.visible &&
        forall j :: 0 <= j < i ==> !LabelsRow(rows[j], name)
    ensures Captured(rows, name).Some? ==>
      var i := FirstMatch(rows, name);
      Captured(rows, name).value == ContactValue(rows[i].next.value.text)
  {
    var i := FirstMatch(rows, name);
    if Captured(rows, name).None? {
      forall k | 0 <= k < |rows| && LabelsRow(rows[k], name) && rows[k].next.value.visible
        ensures exists j :: 0 <= j < k && LabelsRow(rows[j], name)
      {
        assert k != i;
        if k < i {
        } else {
          assert LabelsRow(rows[i], name);
        }
      }
    }
  }

  /** What probing each of the six labels would store, in label order. */
  function CapturedValues(rows: seq<LabelRow>): seq<Option<string>> {
    seq(|ContactLabels|, j requires 0 <= j < |ContactLabels| => Captured(rows, ContactLabels[j]))
  }

  /**
   * The dict after storing the first `n` of the values `caps` (one per label,
   * in label order): contact_data in the loop.
   */
  function Collect(caps: seq<Option<string>>, n: nat): Dict
    requires |caps| == |ContactLabels| && n <= |ContactLabels|
  {
    if n == 0 then []
    else
      var d := Collect(caps, n - 1);
      match caps[n - 1]
      case Some(value) => Set(d, ContactLabels[n - 1], value)
      case None => d
  }

  /** The dict after probing the first `n` labels of the dialog without a fault. */
  function CollectUpTo(rows: seq<LabelRow>, n: nat): Dict
    requires n <= |ContactLabels|
  {
    Collect(CapturedValues(rows), n)
  }

  /** The labels among the first `n` whose value is stored, in label order. */
  function CapturedLabels(caps: seq<Option<string>>, n: nat): seq<string>
    requires |caps| == |ContactLabels| && n <= |ContactLabels|
  {
    if n == 0 then []
    else CapturedLabels(caps, n - 1) + if caps[n - 1].Some? then [ContactLabels[n - 1]] else []
  }

  /** The six labels are distinct, so a label's place among them is unique. */
  lemma LabelsDistinct()
    ensures forall i, j :: 0 <= i < j < |ContactLabels| ==> ContactLabels[i] != ContactLabels[j]
  {
  }

  /** The first `n` labels are exactly the labels at positions below `n`. */
  lemma LabelPrefix(n: nat)
    requires n <= |ContactLabels|
    ensures forall j :: 0 <= j < |ContactLabels| ==> (ContactLabels[j] in ContactLabels[..n] <==> j < n)
  {
    LabelsDistinct();
    forall j | 0 <= j < |ContactLabels| && ContactLabels[j] in ContactLabels[..n]
      ensures j < n
    {
      var i :| 0 <= i < n && ContactLabels[..n][i] == ContactLabels[j];
      assert ContactLabels[i] == ContactLabels[j];
    }
  }

  /**
   * After `n` labels, no key outside the first `n` labels is present, and each
   * of the first `n` labels maps to its value if it has one.
   */
  lemma {:induction false} CollectGet(caps: seq<Option<string>>, n: nat)
    requires |caps| == |ContactLabels| && n <= |ContactLabels|
    ensures forall k :: k !in ContactLabels[..n] ==> Get(Collect(caps, n), k) == None
    ensures forall j :: 0 <= j < n ==> Get(Collect(caps, n), ContactLabels[j]) == caps[j]
  {
    if n > 0 {
      CollectGet(caps, n - 1);
      var l := ContactLabels[n - 1];
      forall k | k !in ContactLabels[..n] ensures Get(Collect(caps, n), k) == None {
        assert ContactLabels[..n] == ContactLabels[..n - 1] + [l];
        CollectLast(caps, n, k);
      }
      forall j | 0 <= j < n ensures Get(Collect(caps, n), ContactLabels[j]) == caps[j] {
        CollectLast(caps, n, ContactLabels[j]);
        if j < n - 1 {
          LabelsDistinct();
          assert ContactLabels[j] != l;
        } else if caps[j].None? {
          LabelPrefix(n - 1);
          assert l !in ContactLabels[..n - 1];
        }
      }
    }
  }

  /** A lookup after `n` labels sees label `n - 1`'s value if it has one, or else the dict before it. */
  lemma CollectLast(caps: seq<Option<string>>, n: nat, k: string)
    requires |caps| == |ContactLabels| && 0 < n <= |ContactLabels|
    ensures Get(Collect(caps, n), k) ==
      if k == ContactLabels[n - 1] && caps[n - 1].Some? then caps[n - 1] else Get(Collect(caps, n - 1), k)
  {
    if caps[n - 1].Some? {
      SetGet(Collect(caps, n - 1), ContactLabels[n - 1], caps[n - 1].value, k);
    }
  }

  /** Probing label `n - 1`, which is not stored yet, appends its entry if it has a value. */
  lemma CollectStep(caps: seq<Option<string>>, n: nat)
    requires |caps| == |ContactLabels| && 0 < n <= |ContactLabels|
    ensures var l := ContactLabels[n - 1];
      Collect(caps, n) == Collect(caps, n - 1) +
        match caps[n - 1] case Some(value) => [Entry(l, value)] case None => []
  {
    CollectGet(caps, n - 1);
    LabelPrefix(n - 1);
    var l := ContactLabels[n - 1];
    assert l !in Keys(Collect(caps, n - 1)) by {
      assert Get(Collect(caps, n - 1), l) == None;
    }
    if caps[n - 1].Some? {
      SetFacts(Collect(caps, n - 1), l, caps[n - 1].value);
    }
  }

  /** After `n` labels, the dict's keys are the stored labels in label order. */
  lemma {:induction false} CollectKeys(caps: seq<Option<string>>, n: nat)
    requires |caps| == |ContactLabels| && n <= |ContactLabels|
    ensures Keys(Collect(caps, n)) == CapturedLabels(caps, n)
  {
    if n > 0 {
      CollectKeys(caps, n - 1);
      CollectStep(caps, n);
      var d := Collect(caps, n - 1);
      match caps[n - 1]
      case Some(value) =>
        assert Keys(d + [Entry(ContactLabels[n - 1], value)]) == Keys(d) + [ContactLabels[n - 1]];
      case None =>
    }
  }

  /** After `n` labels, the keys are distinct. */
  lemma {:induction false} CollectDistinct(caps: seq<Option<string>>, n: nat)
    requires |caps| == |ContactLabels| && n <= |ContactLabels|
    ensures DistinctKeys(Collect(caps, n))
  {
    if n > 0 {
      CollectDistinct(caps, n - 1);
      if caps[n - 1].Some? {
        SetDistinct(Collect(caps, n - 1), ContactLabels[n - 1], caps[n - 1].value);
      }
    }
  }

  /** The dict after fewer labels is a prefix of the dict after more. */
  lemma {:induction false} CollectPrefix(caps: seq<Option<string>>, m: nat, n: nat)
    requires |caps| == |ContactLabels| && m <= n <= |ContactLabels|
    ensures Collect(caps, m) <= Collect(caps, n)
    decreases n
  {
    if m < n {
      CollectPrefix(caps, m, n - 1);
      CollectStep(caps, n);
    }
  }

  /**
   * After probing `n` labels of the dialog, the dict's keys are the captured
   * labels in label order, distinct, each mapping to its captured value; no
   * other key appears. (Each captured value is a ContactValue, stripped and
   * collapsed.)
   */
  lemma CollectFacts(rows: seq<LabelRow>, n: nat)
    requires n <= |ContactLabels|
    ensures Keys(CollectUpTo(rows, n)) == CapturedLabels(CapturedValues(rows), n)
    ensures DistinctKeys(CollectUpTo(rows, n))
    ensures forall j :: 0 <= j < |ContactLabels| ==>
      Get(CollectUpTo(rows, n), ContactLabels[j]) == if j < n then Captured(rows, ContactLabels[j]) else None
    ensures forall k :: k !in ContactLabels ==> Get(CollectUpTo(rows, n), k) == None
  {
    var caps := CapturedValues(rows);
    CollectKeys(caps, n);
    CollectDistinct(caps, n);
    CollectGet(caps, n);
    LabelPrefix(n);
  }

  /** The outcome of extract_contact_info: the dict it returns, or the exception its handler lets out. */
  datatype ContactOutcome = Collected(data: Dict) | Propagated(message: string)

  /** An exception is raised inside the try block of extract_contact_info. */
  predicate ContactFaults(v: ContactView) {
    || v.fault == FaultAtLink
    || (v.linkVisible && (
          || v.fault == FaultAtClick
          || !v.modalOpens
          || (v.fault.FaultAtLabel? && v.fault.index < |ContactLabels|)
          || v.fault == FaultAtDismiss
          || !v.modalCloses))
  }

  /** How many labels were probed before the dialog was left. */
  function LabelsProbed(v: ContactView): (n: nat)
    ensures n <= |ContactLabels|
  {
    if v.fault == FaultAtLink || !v.linkVisible || v.fault == FaultAtClick || !v.modalOpens then 0
    else if v.fault.FaultAtLabel? && v.fault.index < |ContactLabels| then v.fault.index
    else |ContactLabels|
  }

  /**
   * The except handler of extract_contact_info: it presses Escape once more and
   * returns the dict filled so far, unless that press raises too.
   */
  function Handler(escape: Step, contactData: Dict): (r: ContactOutcome)
    ensures r.Collected? <==> escape.Completes?
    ensures r.Collected? ==> r.data == contactData
    ensures r.Propagated? ==> r.message == escape.message
  {
    match escape
    case Completes => Collected(contactData)
    case Raises(message) => Propagated(message)
  }

  /**
   * The contact outcome in one line: the entries collected from the labels
   * probed before the dialog was left, passed through the except handler when
   * an exception was raised on the way.
   */
  function ContactSpec(v: ContactView): ContactOutcome {
    var contactData := CollectUpTo(v.rows, LabelsProbed(v));
    if ContactFaults(v) then Handler(v.handlerEscape, contactData) else Collected(contactData)
  }

  /**
   * One pass of the label loop: locate the sibling of label `i` and, if it is
   * visible, store its collapsed text under the label.
   */
  method ProbeLabel(rows: seq<LabelRow>, i: nat, contactData: Dict) returns (updated: Dict)
    requires i < |ContactLabels| && contactData == CollectUpTo(rows, i)
    ensures updated == CollectUpTo(rows, i + 1)
  {
    updated := contactData;
    var name := ContactLabels[i];
    var located := Locate(rows, name);
    if located.Some? && located.value.visible {
      updated := Set(contactData, name, ContactValue(located.value.text));
    }
  }

  /**
   * extract_contact_info, step by step: the link, the dialog, then each label
   * in turn filling contact_data, then closing the dialog; an exception at any
   * of these points goes to the except handler with contact_data as it is.
   */
  method ExtractContactInfo(v: ContactView) returns (outcome: ContactOutcome)
    ensures outcome == ContactSpec(v)
  {
    if v.fault == FaultAtLink {
      return Handler(v.handlerEscape, []);
    }
    if !v.linkVisible {
      return Collected([]);
    }
    if v.fault == FaultAtClick || !v.modalOpens {
      return Handler(v.handlerEscape, []);
    }
    // A dialog whose contact sections do not appear within 5 seconds only costs a fixed pause.
    var contactData, raised := ReadLabels(v);
    if raised || v.fault == FaultAtDismiss || !v.modalCloses {
      return Handler(v.handlerEscape, contactData);
    }
    return Collected(contactData);
  }

  /**
   * The label loop of extract_contact_info inside the open dialog: the dict
   * after the labels probed before an exception, if one is raised at a label.
   */
  method ReadLabels(v: ContactView) returns (contactData: Dict, raised: bool)
    requires v.linkVisible && v.modalOpens && v.fault != FaultAtLink && v.fault != FaultAtClick
    ensures contactData == CollectUpTo(v.rows, LabelsProbed(v))
    ensures raised <==> v.fault.FaultAtLabel? && v.fault.index < |ContactLabels|
  {
    contactData := [];
    var i := 0;
    while i < |ContactLabels|
      invariant 0 <= i <= |ContactLabels|
      invariant contactData == CollectUpTo(v.rows, i)
      invariant !(v.fault.FaultAtLabel? && v.fault.index < i)
    {
      if v.fault == FaultAtLabel(i) {
        return contactData, true;
      }
      contactData := ProbeLabel(v.rows, i, contactData);
      i := i + 1;
    }
    return contactData, false;
  }

  /** A page without a visible "Contact info" link gives an empty dict, not an error. */
  lemma ContactLinkAbsent(v: ContactView)
    requires !v.linkVisible && v.fault != FaultAtLink
    ensures ContactSpec(v) == Collected([])
  {
  }

  /**
   * Whatever dict comes back holds only the six labels, distinct, in label
   * order, each probed label with its captured value, and is a prefix of the dict that the
   * same dialog gives when nothing goes wrong.
   */
  lemma ContactResultFacts(v: ContactView)
    requires ContactSpec(v).Collected?
    ensures var d := ContactSpec(v).data;
      && Keys(d) == CapturedLabels(CapturedValues(v.rows), LabelsProbed(v))
      && DistinctKeys(d)
      && (forall k :: k !in ContactLabels ==> Get(d, k) == None)
      && (forall j :: 0 <= j < |ContactLabels| ==>
            Get(d, ContactLabels[j]) == if j < LabelsProbed(v) then Captured(v.rows, ContactLabels[j]) else None)
      && d <= CollectUpTo(v.rows, |ContactLabels|)
  {
    CollectFacts(v.rows, LabelsProbed(v));
    CollectPrefix(CapturedValues(v.rows), LabelsProbed(v), |ContactLabels|);
  }

  /**
   * A fault while probing label `k`, with a handler that completes, returns
   * exactly the entries for the labels before `k`.
   */
  lemma ContactPartial(v: ContactView, k: nat)
    requires v.linkVisible && v.modalOpens && v.fault == FaultAtLabel(k) && k < |ContactLabels|
    requires v.handlerEscape.Completes?
    ensures ContactSpec(v) == Collected(CollectUpTo(v.rows, k))
    ensures forall j :: 0 <= j < |ContactLabels| ==>
      Get(ContactSpec(v).data, ContactLabels[j]) == if j < k then Captured(v.rows, ContactLabels[j]) else None
  {
    CollectFacts(v.rows, k);
  }
}
