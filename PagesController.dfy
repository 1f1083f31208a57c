/**
 * The Rails dashboard's controller actions that take form input: parse a
 * comma-separated list, pick a branch on whether the input is present, call
 * one service per entry or once for the list, and render with status 422.
 * The services themselves are parameters.
 */
module PagesController {
  import opened Base
  import opened Text

  /** The status every action renders with (:unprocessable_entity). */
  const UnprocessableEntity: nat := 422

  datatype Template = Home | Scrapper | Blogs

  /** flash.now[:notice] or flash.now[:alert]; an alert taken from a result hash may be nil. */
  datatype Flash = Notice(text: string) | Alert(message: Option<string>)

  /** ActiveSupport's present? on a parameter: given, and not made only of [[:space:]]. */
  predicate Present(param: Option<string>)
    ensures Present(param) ==> param.Some? && param.value != []
  {
    param.Some? && !AllSpace(RubyBlank, param.value)
  }

  /** raw.split(",").map(&:strip).reject(&:empty?) */
  function ParseList(raw: string): (entries: seq<string>)
    ensures forall i :: 0 <= i < |entries| ==>
      entries[i] != [] && IsStripped(RubyStrip, entries[i]) && ',' !in entries[i]
  {
    var split := RubySplit(raw, ',');
    assert forall i :: 0 <= i < |split| ==> split[i] == SplitOn(raw, ',')[i];
    CleanKeepsOut(RubyStrip, split, ',');
    Clean(RubyStrip, split)
  }

  /**
   * Ruby's split drops trailing empty fields and Python's does not, but the
   * empty fields are dropped anyway: the list is that of the plain split.
   */
  lemma ParseListIgnoresTrailingEmpty(raw: string)
    ensures ParseList(raw) == Clean(RubyStrip, SplitOn(raw, ','))
  {
    CleanDropTrailingEmpty(RubyStrip, SplitOn(raw, ','));
  }

  /** Stripped, non-empty, comma-free entries joined with "," parse back to themselves, in order. */
  lemma ParseListRoundTrip(entries: seq<string>)
    requires forall i :: 0 <= i < |entries| ==> entries[i] != [] && IsStripped(RubyStrip, entries[i]) && ',' !in entries[i]
    ensures ParseList(JoinWith(entries, ',')) == entries
  {
    ParseListIgnoresTrailingEmpty(JoinWith(entries, ','));
    if entries == [] {
      assert SplitOn([], ',') == [[]];
      CleanOne(RubyStrip, []);
    } else {
      SplitOfJoin(entries, ',');
      CleanOfClean(RubyStrip, entries);
    }
  }

  /** Input made of commas only is present but holds no entry. */
  lemma OnlyCommasParseEmpty(raw: string)
    requires raw != [] && forall i :: 0 <= i < |raw| ==> raw[i] == ','
    ensures Present(Some(raw))
    ensures ParseList(raw) == []
  {
    assert !IsSpace(RubyBlank, raw[0]);
    SplitOfSeparators(raw, ',');
    ParseListIgnoresTrailingEmpty(raw);
    CleanOfEmpties(RubyStrip, SplitOn(raw, ','));
  }

  // ---------------------------------------------------------------------------
  // make_call

  /** What make_call renders: the calls it placed, their results, the flash and the template. */
  datatype CallView<R> = CallView(
    calls: seq<string>,      // the numbers passed to VonageService.make_call, in order
    results: Option<seq<R>>, // @results
    flash: Flash,
    title: string,
    template: Template,
    status: nat)

  /**
   * make_call with `call` standing for VonageService.make_call. Present input
   * places one call per parsed number, in order, keeps one result per call and
   * reports the count; blank input places none and alerts. Either way the home
   * page renders with 422.
   */
  function MakeCall<R>(raw: Option<string>, call: string -> R): (v: CallView<R>)
    ensures v.title == "Home Dashboard" && v.template == Home && v.status == UnprocessableEntity
    ensures Present(raw) ==>
      && v.calls == ParseList(raw.value)
      && v.results.Some? && |v.results.value| == |v.calls|
      && (forall i :: 0 <= i < |v.calls| ==> v.results.value[i] == call(v.calls[i]))
      && v.flash == Notice("Processed " + Decimal(|v.calls|) + " numbers.")
    ensures !Present(raw) ==>
      v.calls == [] && v.results.None? && v.flash == Alert(Some("Please enter at least one number."))
  {
    if Present(raw) then
      var numbers := ParseList(raw.value);
      var results := seq(|numbers|, i requires 0 <= i < |numbers| => call(numbers[i]));
      CallView(numbers, Some(results), Notice("Processed " + Decimal(|numbers|) + " numbers."),
        "Home Dashboard", Home, UnprocessableEntity)
    else
      CallView([], None, Alert(Some("Please enter at least one number.")), "Home Dashboard", Home, UnprocessableEntity)
  }

  /** Input such as ",," is present, places no call and reports zero numbers. */
  lemma MakeCallOnlyCommas<R>(raw: string, call: string -> R)
    requires raw != [] && forall i :: 0 <= i < |raw| ==> raw[i] == ','
    ensures MakeCall(Some(raw), call).calls == []
    ensures MakeCall(Some(raw), call).flash == Notice("Processed 0 numbers.")
  {
    OnlyCommasParseEmpty(raw);
    ProcessedZero();
  }

  lemma ProcessedZero()
    ensures "Processed " + Decimal(0) + " numbers." == "Processed 0 numbers."
  {
    assert Decimal(0) == "0";
  }

  // ---------------------------------------------------------------------------
  // scrape_urls

  /** What scrape_urls renders: the lists it sent, the API response, the flash and the template. */
  datatype ScrapeView<R> = ScrapeView(
    requests: seq<seq<string>>, // the lists passed to ScraperService.process
    apiResponse: Option<R>,     // @api_response
    flash: Flash,
    template: Template,
    status: nat)

  /**
   * scrape_urls with `process` standing for ScraperService.process. Present
   * input sends the whole parsed list to the service once, even when it is
   * empty; blank input sends nothing and alerts. Either way the scraper page
   * renders with 422.
   */
  function ScrapeUrls<R>(raw: Option<string>, process: seq<string> -> R): (v: ScrapeView<R>)
    ensures v.template == Scrapper && v.status == UnprocessableEntity
    ensures Present(raw) ==>
      && v.requests == [ParseList(raw.value)] && v.apiResponse == Some(process(ParseList(raw.value)))
      && v.flash == Notice("Scraping finished.")
    ensures !Present(raw) ==>
      v.requests == [] && v.apiResponse.None? && v.flash == Alert(Some("Please enter at least one URL."))
  {
    if Present(raw) then
      var urls := ParseList(raw.value);
      ScrapeView([urls], Some(process(urls)), Notice("Scraping finished."), Scrapper, UnprocessableEntity)
    else
      ScrapeView([], None, Alert(Some("Please enter at least one URL.")), Scrapper, UnprocessableEntity)
  }

  // ---------------------------------------------------------------------------
  // generate_blog

  /** The two entries of the result hash the controller reads: whether "error" is truthy, and "message". */
  datatype BlogResult = BlogResult(errorTruthy: bool, message: Option<string>)

  /** One of the sidebar's fixed blog entries. */
  datatype StaticBlog = StaticBlog(title: string, data: string)

  /** load_static_blogs: the two fixed entries of the sidebar. */
  const StaticBlogs: seq<StaticBlog> := [
    StaticBlog("Understanding Rails MVC",
      "Model-View-Controller (MVC) is an architectural pattern that separates an application into three main logical components: the model, the view, and the controller..."),
    StaticBlog("Why Linux is Better for Devs",
      "Linux offers superior package management, native support for most server-side languages, and a powerful terminal environment that Windows is still catching up to...")]

  /** What generate_blog renders. */
  datatype BlogView = BlogView(
    requests: seq<(string, Option<string>)>, // the (title, details) pairs passed to BlogService.generate
    generated: Option<BlogResult>,           // @generated_result
    staticBlogs: seq<StaticBlog>,
    flash: Flash,
    title: string,
    template: Template,
    status: nat)

  /**
   * generate_blog with `generate` standing for BlogService.generate. A blank
   * title calls no service and alerts "Title is required!"; a present one
   * calls the service once with the title and details as given, and alerts
   * with the result's message exactly when its "error" is truthy. Either way
   * the blog page renders with the static entries and 422.
   */
  function GenerateBlog(titleInput: Option<string>, details: Option<string>,
                        generate: (string, Option<string>) -> BlogResult): (v: BlogView)
    ensures v.title == "Blog Showcase" && v.staticBlogs == StaticBlogs
    ensures v.template == Blogs && v.status == UnprocessableEntity
    ensures !Present(titleInput) ==>
      v.requests == [] && v.generated.None? && v.flash == Alert(Some("Title is required!"))
    ensures Present(titleInput) ==>
      && v.requests == [(titleInput.value, details)]
      && v.generated == Some(generate(titleInput.value, details))
      && (v.flash.Alert? <==> v.generated.value.errorTruthy)
      && (v.flash.Alert? ==> v.flash.message == v.generated.value.message)
      && (v.flash.Notice? ==> v.flash.text == "Content generated successfully!")
  {
    if Present(titleInput) then
      var result := generate(titleInput.value, details);
      var flash := if result.errorTruthy then Alert(result.message) else Notice("Content generated successfully!");
      BlogView([(titleInput.value, details)], Some(result), StaticBlogs, flash, "Blog Showcase", Blogs, UnprocessableEntity)
    else
      BlogView([], None, StaticBlogs, Alert(Some("Title is required!")), "Blog Showcase", Blogs, UnprocessableEntity)
  }
}
