/**
 * The browser, reduced to a description of what one profile page shows and of
 * the points where a browser call raises. The extraction code is deterministic
 * against such a description.
 */
module PageModel {
  import opened Base

  /** A browser call that completes, or raises an exception whose str() is `message`. */
  datatype Step = Completes | Raises(message: string)

  /** page.wait_for_load_state("networkidle", timeout=8000): settles, times out, or raises something else. */
  datatype IdleWait = Idle | IdleTimeout | IdleRaises(message: string)

  /** Where, if anywhere, extract_about_section meets an exception. */
  datatype AboutFault =
    | NoAboutFault
    | FaultAtHeading   // locating the "About" heading or checking its visibility
    | FaultAtExpand    // counting, checking or clicking the "see more" button
    | FaultAtRead      // reading the section's text content

  /** The About section of a profile page. */
  datatype AboutView = AboutView(
    headingVisible: bool,   // the first h2 whose text contains "about", in any case, is visible
    seeMoreShown: bool,     // the inline "see more" button exists and is visible
    collapsedText: string,  // the section's text content as rendered
    expandedText: string,   // its text content after the button is clicked
    fault: AboutFault)

  /** The text the section holds when it is read: expanded when the button was there to click. */
  function ShownText(v: AboutView): string {
    if v.seeMoreShown then v.expandedText else v.collapsedText
  }

  /** The element that follows a label paragraph in the contact dialog. */
  datatype Sibling = Sibling(visible: bool, text: string)

  /**
   * A <p> of the contact dialog, in document order: its text as XPath's
   * normalize-space() gives it, and its first following sibling element if it has one.
   */
  datatype LabelRow = LabelRow(labelText: string, next: Option<Sibling>)

  /** Where, if anywhere, extract_contact_info meets an exception inside its try block. */
  datatype ContactFault =
    | NoContactFault
    | FaultAtLink            // checking the visibility of the "Contact info" link
    | FaultAtClick           // clicking that link
    | FaultAtLabel(index: nat) // probing the label at this position of the label list (none if past its end)
    | FaultAtDismiss         // pressing Escape to close the dialog

  /** The "Contact info" link and the dialog it opens. */
  datatype ContactView = ContactView(
    linkVisible: bool,     // the first link whose text contains "contact info", in any case, is visible
    modalOpens: bool,      // the dialog becomes visible within 8 seconds
    contentLoads: bool,    // its contact sections become visible within 5 seconds
    rows: seq<LabelRow>,   // the dialog's label paragraphs
    modalCloses: bool,     // the dialog is hidden within 5 seconds of Escape
    fault: ContactFault,
    handlerEscape: Step)   // the Escape press inside the except handler

  /** One profile page as the scraper meets it, from navigation to the contact dialog. */
  datatype ProfilePage = ProfilePage(
    navigation: Step,  // page.goto(url)
    idle: IdleWait,
    settle: Step,      // the two mouse-wheel scrolls and the Home key press
    about: AboutView,
    contact: ContactView)

  /** The page that navigating to each URL shows. */
  type Site = string -> ProfilePage
}
