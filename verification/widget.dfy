/** The Elementor widget: the server-side filters, the choice of application
    link, the data attributes the browser filters read, and what render()
    decides to show.

    sanitize_text_field and current_user_can('edit_posts') are WordPress
    behaviour and come in through `Wp`; the clock comes in as the current
    time and the `-N days` cut-off. */
module Widget {
  import opened Common
  import opened Strings
  import Feed
  import Cache
  import Client

  datatype Wp = Wp(sanitizeText: string -> string, canEditPosts: bool)

  /** The widget settings render() reads. Numeric controls left blank are 0;
      `customUrl` is the `url` part of the link control; `frontendFilters`
      is the `enable_frontend_filters` switch. */
  datatype Settings = Settings(
    cid: string,
    layout: string,
    limit: int,
    cacheDuration: int,
    filterLocation: string,
    filterCategory: string,
    filterMinPositions: int,
    filterDays: int,
    customUrl: string,
    noJobsMessage: string,
    frontendFilters: bool)

  const CidMissingMessage := "CID Kombo nao configurado."
  const DefaultNoJobsMessage := "No momento nao ha vagas disponiveis."
  const SignupPage := "https://www.kombo.com.br/curriculo/cadastro-curriculo-gratis"

  /** A field as the widget reads it: "" when PHP's empty() holds. */
  function OrEmpty(s: string): string {
    if PhpEmpty(s) then "" else s
  }

  // ---------------------------------------------------------------------
  // apply_filters
  // ---------------------------------------------------------------------

  /** The location filter, when set, must occur in the job's location,
      ignoring case. */
  predicate LocationOk(wp: Wp, s: Settings, job: Feed.Job) {
    PhpEmpty(s.filterLocation) || ContainsIgnoreCase(OrEmpty(job.localizacao), wp.sanitizeText(s.filterLocation))
  }

  /** The category filter, when set, must occur in the job's branch, ignoring case. */
  predicate CategoryOk(wp: Wp, s: Settings, job: Feed.Job) {
    PhpEmpty(s.filterCategory) || ContainsIgnoreCase(OrEmpty(job.ramoAtividade), wp.sanitizeText(s.filterCategory))
  }

  /** A positive minimum number of positions must be reached. */
  predicate PositionsOk(s: Settings, job: Feed.Job) {
    s.filterMinPositions <= 0 || Cache.AbsInt(job.numVagas) >= s.filterMinPositions
  }

  /** With a positive day window, a job whose opening date reads as a
      non-zero time before the cut-off is too old; a missing or unreadable
      date never excludes it. */
  predicate RecentOk(s: Settings, parseDate: string -> Option<int>, cutoff: int, job: Feed.Job) {
    s.filterDays <= 0 || PhpEmpty(job.dataAbertura) ||
    match parseDate(job.dataAbertura)
    case None => true
    case Some(t) => t == 0 || t >= cutoff
  }

  predicate Keeps(wp: Wp, s: Settings, parseDate: string -> Option<int>, cutoff: int, job: Feed.Job) {
    LocationOk(wp, s, job) && CategoryOk(wp, s, job) && PositionsOk(s, job) && RecentOk(s, parseDate, cutoff, job)
  }

  function Keeper(wp: Wp, s: Settings, parseDate: string -> Option<int>, cutoff: int): Feed.Job -> bool {
    (job: Feed.Job) => Keeps(wp, s, parseDate, cutoff, job)
  }

  /** No server-side filter is configured. */
  predicate NoFilters(s: Settings) {
    PhpEmpty(s.filterLocation) && PhpEmpty(s.filterCategory) && s.filterMinPositions <= 0 && s.filterDays <= 0
  }

  /** apply_filters: one pass over the jobs, keeping those that pass all four
      filters. */
  method ApplyFilters(wp: Wp, jobs: seq<Feed.Job>, s: Settings, parseDate: string -> Option<int>, cutoff: int)
    returns (r: seq<Feed.Job>)
    ensures r == Filter(jobs, Keeper(wp, s, parseDate, cutoff))
    ensures IsSubsequence(r, jobs)
    ensures forall job :: job in r <==> job in jobs && Keeps(wp, s, parseDate, cutoff, job)
    ensures NoFilters(s) ==> r == jobs
  {
    var keep := Keeper(wp, s, parseDate, cutoff);
    if jobs == [] {
      return jobs;
    }
    r := [];
    var i := 0;
    while i < |jobs|
      invariant i <= |jobs|
      invariant r == Filter(jobs[..i], keep)
    {
      FilterSnoc(jobs[..i], jobs[i], keep);
      assert jobs[..i + 1] == jobs[..i] + [jobs[i]];
      if Keeps(wp, s, parseDate, cutoff, jobs[i]) {
        r := r + [jobs[i]];
      }
      i := i + 1;
    }
    assert jobs[..i] == jobs;
    FilterIsSubsequence(jobs, keep);
    forall job ensures job in r <==> job in jobs && Keeps(wp, s, parseDate, cutoff, job) {
      FilterMembership(jobs, keep, job);
    }
    if NoFilters(s) {
      FilterKeepsAll(jobs, keep);
    }
  }

  // ---------------------------------------------------------------------
  // get_application_url
  // ---------------------------------------------------------------------

  /** A link as add_query_arg builds it: a base address and the query
      arguments added to it, in order. */
  datatype Link = Link(base: string, query: seq<(string, string)>)

  predicate HasArg(l: Link, name: string) {
    exists k :: 0 <= k < |l.query| && l.query[k].0 == name
  }

  /** Kombo_API::get_application_url: the sign-up page with the CID and,
      when there is one, the job code. */
  function SignupLink(wp: Wp, cid: string, code: string): (l: Link)
    ensures l.base == SignupPage
    ensures |l.query| >= 1 && l.query[0] == ("cid", wp.sanitizeText(cid))
    ensures HasArg(l, "vaga") <==> !PhpEmpty(code)
    ensures HasArg(l, "vaga") ==> l.query == [("cid", wp.sanitizeText(cid)), ("vaga", wp.sanitizeText(code))]
  {
    var withCid := [("cid", wp.sanitizeText(cid))];
    var l := Link(SignupPage, if PhpEmpty(code) then withCid else withCid + [("vaga", wp.sanitizeText(code))]);
    assert !PhpEmpty(code) ==> l.query[1].0 == "vaga";
    l
  }

  /** The widget's get_application_url: a custom URL wins, then the job's
      own link, then the Kombo sign-up page. */
  function ApplicationUrl(wp: Wp, s: Settings, cid: string, job: Feed.Job): (l: Link)
    ensures !PhpEmpty(s.customUrl) ==> l.base == s.customUrl
    ensures PhpEmpty(s.customUrl) && !PhpEmpty(job.link) ==> l == Link(job.link, [])
    ensures PhpEmpty(s.customUrl) && PhpEmpty(job.link) ==> l == SignupLink(wp, cid, job.codigo)
  {
    if !PhpEmpty(s.customUrl) then
      Link(s.customUrl, if PhpEmpty(job.codigo) then [] else [("vaga", job.codigo)])
    else if !PhpEmpty(job.link) then
      Link(job.link, [])
    else
      SignupLink(wp, cid, job.codigo)
  }

  /** Unless the job's own link is used, the link names the job exactly when
      the job has a code, and it carries nothing else on a custom URL. */
  lemma VagaArgumentMarksCode(wp: Wp, s: Settings, cid: string, job: Feed.Job)
    requires !PhpEmpty(s.customUrl) || PhpEmpty(job.link)
    ensures HasArg(ApplicationUrl(wp, s, cid, job), "vaga") <==> !PhpEmpty(job.codigo)
    ensures !PhpEmpty(s.customUrl) ==>
      (ApplicationUrl(wp, s, cid, job).query == if PhpEmpty(job.codigo) then [] else [("vaga", job.codigo)])
  {
    var l := ApplicationUrl(wp, s, cid, job);
    if !PhpEmpty(s.customUrl) && !PhpEmpty(job.codigo) {
      assert l.query[0].0 == "vaga";
    }
  }

  // ---------------------------------------------------------------------
  // build_filter_data_attributes
  // ---------------------------------------------------------------------

  /** The lower-cased field, or "" when it is empty. */
  function DataValue(field: string): (v: string)
    ensures v == [] <==> PhpEmpty(field)
    ensures Lower(v) == v
    ensures v != [] ==> |v| == |field| && Lower(field) == v
  {
    if PhpEmpty(field) then "" else Lower(field)
  }

  /** What build_filter_data_attributes writes for a job, as the browser
      reads it back: location, city, state and branch. */
  function FilterData(job: Feed.Job): (d: Client.Item)
    ensures d.location == [] <==> PhpEmpty(job.localizacao)
    ensures d.city == [] <==> PhpEmpty(job.cidade)
    ensures d.state == [] <==> PhpEmpty(job.estado)
    ensures d.area == [] <==> PhpEmpty(job.ramoAtividade)
  {
    Client.Item(DataValue(job.localizacao), DataValue(job.cidade), DataValue(job.estado), DataValue(job.ramoAtividade))
  }

  /** The attribute text itself, names and values in a fixed order. */
  function AttributeText(d: Client.Item): (t: string)
    ensures |LocationAttr| < |t| && t[..|LocationAttr|] == LocationAttr && t[|t| - 1] == '"'
  {
    LocationAttr + d.location + CityAttr + d.city + StateAttr + d.state + AreaAttr + d.area + "\""
  }

  predicate NotQuote(c: char) {
    c != '"'
  }

  /** Reads `lit` at `i` and the value up to the next double quote. */
  function ReadValue(s: string, i: nat, lit: string): (r: Option<(string, nat)>)
    ensures r.Some? ==> i + |lit| <= r.value.1 <= |s|
  {
    if i + |lit| <= |s| && s[i..i + |lit|] == lit then
      var j := SkipWhile(s, i + |lit|, NotQuote);
      Some((s[i + |lit|..j], j))
    else None
  }

  /** Reads the four data attributes back from their text. */
  function ReadAttributes(s: string): (r: Option<Client.Item>)
  {
    match ReadValue(s, 0, LocationAttr)
    case None => None
    case Some((location, i1)) =>
      match ReadValue(s, i1, CityAttr)
      case None => None
      case Some((city, i2)) =>
        match ReadValue(s, i2, StateAttr)
        case None => None
        case Some((state, i3)) =>
          match ReadValue(s, i3, AreaAttr)
          case None => None
          case Some((area, i4)) =>
            if s[i4..] == "\"" then Some(Client.Item(location, city, state, area)) else None
  }

  /** One step of reading: a value free of quotes is read back whole. */
  lemma ReadValueStep(pre: string, lit: string, v: string, rest: string, s: string)
    requires All(v, NotQuote) && rest != [] && rest[0] == '"'
    requires s == pre + lit + v + rest
    ensures ReadValue(s, |pre|, lit) == Some((v, |pre| + |lit| + |v|))
  {
    var a := |pre| + |lit|;
    assert s[|pre|..a] == lit by {
      MiddleSlice(pre, lit, v + rest);
      assert s == pre + lit + (v + rest);
    }
    assert s[a + |v|] == '"';
    forall k | a <= k < a + |v| ensures NotQuote(s[k]) {
      assert s[k] == v[k - a];
    }
    SkipWhileUnique(s, a, a + |v|, NotQuote);
    MiddleSlice(pre + lit, v, rest);
  }

  const LocationAttr := "data-location=\""
  const CityAttr := "\" data-city=\""
  const StateAttr := "\" data-state=\""
  const AreaAttr := "\" data-area=\""

  /** No value of the item contains a double quote. */
  predicate Unquoted(d: Client.Item) {
    All(d.location, NotQuote) && All(d.city, NotQuote) && All(d.state, NotQuote) && All(d.area, NotQuote)
  }

  /** The browser reads back exactly the values the widget wrote, provided
      no value contains a double quote (escaping is not modelled). */
  lemma AttributesRoundTrip(d: Client.Item)
    requires Unquoted(d)
    ensures ReadAttributes(AttributeText(d)) == Some(d)
  {
    var s := AttributeText(d);
    var i1 := |LocationAttr| + |d.location|;
    var i2 := i1 + |CityAttr| + |d.city|;
    var i3 := i2 + |StateAttr| + |d.state|;
    var i4 := i3 + |AreaAttr| + |d.area|;
    ReadsLocation(d, s, i1);
    ReadsCity(d, s, i1, i2);
    ReadsState(d, s, i2, i3);
    ReadsArea(d, s, i3, i4);
    ReadsAll(s, d, i1, i2, i3, i4);
  }

  /** The four values read in turn, and the closing quote, make the item. */
  lemma ReadsAll(s: string, d: Client.Item, i1: nat, i2: nat, i3: nat, i4: nat)
    requires ReadValue(s, 0, LocationAttr) == Some((d.location, i1))
    requires ReadValue(s, i1, CityAttr) == Some((d.city, i2))
    requires ReadValue(s, i2, StateAttr) == Some((d.state, i3))
    requires ReadValue(s, i3, AreaAttr) == Some((d.area, i4))
    requires i4 <= |s| && s[i4..] == "\""
    ensures ReadAttributes(s) == Some(d)
  {
  }

  lemma ReadsLocation(d: Client.Item, s: string, i1: nat)
    requires Unquoted(d) && s == AttributeText(d)
    requires i1 == |LocationAttr| + |d.location|
    ensures ReadValue(s, 0, LocationAttr) == Some((d.location, i1))
  {
    var e: string := [];
    var rest := CityAttr + d.city + StateAttr + d.state + AreaAttr + d.area + "\"";
    assert s == e + LocationAttr + d.location + rest by {
      assert e + LocationAttr == LocationAttr;
    }
    ReadValueStep(e, LocationAttr, d.location, rest, s);
  }

  lemma ReadsCity(d: Client.Item, s: string, i1: nat, i2: nat)
    requires Unquoted(d) && s == AttributeText(d)
    requires i1 == |LocationAttr| + |d.location| && i2 == i1 + |CityAttr| + |d.city|
    ensures ReadValue(s, i1, CityAttr) == Some((d.city, i2))
  {
    ReadValueStep(LocationAttr + d.location, CityAttr, d.city, StateAttr + d.state + AreaAttr + d.area + "\"", s);
  }

  lemma ReadsState(d: Client.Item, s: string, i2: nat, i3: nat)
    requires Unquoted(d) && s == AttributeText(d)
    requires i2 == |LocationAttr| + |d.location| + |CityAttr| + |d.city| && i3 == i2 + |StateAttr| + |d.state|
    ensures ReadValue(s, i2, StateAttr) == Some((d.state, i3))
  {
    ReadValueStep(LocationAttr + d.location + CityAttr + d.city, StateAttr, d.state, AreaAttr + d.area + "\"", s);
  }

  lemma ReadsArea(d: Client.Item, s: string, i3: nat, i4: nat)
    requires Unquoted(d) && s == AttributeText(d)
    requires i3 == |LocationAttr| + |d.location| + |CityAttr| + |d.city| + |StateAttr| + |d.state|
    requires i4 == i3 + |AreaAttr| + |d.area|
    ensures ReadValue(s, i3, AreaAttr) == Some((d.area, i4))
    ensures i4 + 1 == |s| && s[i4..] == "\""
  {
    ReadValueStep(LocationAttr + d.location + CityAttr + d.city + StateAttr + d.state, AreaAttr, d.area, "\"", s);
  }

  // ---------------------------------------------------------------------
  // Server and browser filters
  // ---------------------------------------------------------------------

  /** The text a visitor would type to ask the browser what a server filter
      asks: the sanitized setting, or nothing when the setting is empty. */
  function ServerQuery(wp: Wp, setting: string): (q: string)
    ensures PhpEmpty(setting) ==> q == ""
  {
    if PhpEmpty(setting) then "" else wp.sanitizeText(setting)
  }

  /** A job the server-side location and category filters keep stays visible
      when a visitor types the same (already trimmed) texts into the browser
      filters: the server looks at the location only, the browser also at
      city and state. */
  lemma ServerFiltersAgreeWithBrowser(wp: Wp, s: Settings, job: Feed.Job)
    requires LocationOk(wp, s, job) && CategoryOk(wp, s, job)
    requires JsTrim(Lower(wp.sanitizeText(s.filterLocation))) == Lower(wp.sanitizeText(s.filterLocation))
    requires JsTrim(Lower(wp.sanitizeText(s.filterCategory))) == Lower(wp.sanitizeText(s.filterCategory))
    ensures Client.Matches(FilterData(job),
      Client.Query(Some(ServerQuery(wp, s.filterLocation))),
      Client.Query(Some(ServerQuery(wp, s.filterCategory))))
  {
    Client.JsTrimEmpty();
    if !PhpEmpty(s.filterLocation) {
      FieldAgrees(job.localizacao, wp.sanitizeText(s.filterLocation));
    }
    if !PhpEmpty(s.filterCategory) {
      FieldAgrees(job.ramoAtividade, wp.sanitizeText(s.filterCategory));
    }
  }

  /** stripos on the field finds the filter exactly when the browser's
      indexOf on the data attribute finds the typed query. */
  lemma FieldAgrees(field: string, f: string)
    requires JsTrim(Lower(f)) == Lower(f)
    ensures ContainsIgnoreCase(OrEmpty(field), f) <==> Contains(Lower(DataValue(field)), Client.Query(Some(f)))
  {
    assert Lower("") == "";
    LowerIdempotent(OrEmpty(field));
    assert DataValue(field) == Lower(OrEmpty(field));
  }

  // ---------------------------------------------------------------------
  // render
  // ---------------------------------------------------------------------

  datatype Layout = Grid | Lista | Accordion

  predicate IsKeyChar(c: char) {
    'a' <= c <= 'z' || '0' <= c <= '9' || c == '_' || c == '-'
  }

  /** sanitize_key: lower-case, then keep only `a-z`, `0-9`, `_` and `-`. */
  function SanitizeKey(raw: string): (k: string)
    ensures |k| <= |raw|
    ensures All(k, IsKeyChar)
  {
    Filter(Lower(raw), IsKeyChar)
  }

  /** Sanitizing a key twice is sanitizing it once. */
  lemma SanitizeKeyIdempotent(raw: string)
    ensures SanitizeKey(SanitizeKey(raw)) == SanitizeKey(raw)
  {
    var k := SanitizeKey(raw);
    assert Lower(k) == k;
    FilterKeepsAll(k, IsKeyChar);
  }

  /** The layout switch: "lista" and "accordion" by name, anything else grid. */
  function LayoutOf(raw: string): (l: Layout)
    ensures l == Lista <==> SanitizeKey(raw) == "lista"
    ensures l == Accordion <==> SanitizeKey(raw) == "accordion"
  {
    match SanitizeKey(raw)
    case "lista" => Lista
    case "accordion" => Accordion
    case _ => Grid
  }

  /** An unknown layout, including an empty one, falls back to the grid. */
  lemma UnknownLayoutIsGrid(raw: string)
    requires SanitizeKey(raw) != "lista" && SanitizeKey(raw) != "accordion"
    ensures LayoutOf(raw) == Grid
  {
  }

  /** One job card: the job, its application link and its data attributes. */
  datatype Card = Card(job: Feed.Job, url: Link, data: Client.Item)

  /** What render() outputs: an error box (only editors see it, others get
      nothing), the no-jobs notice, or the jobs in a layout, with or without
      the browser filters. */
  datatype View =
    | ErrorBox(message: string)
    | Blank
    | NoJobs(message: string)
    | Listing(layout: Layout, filters: bool, cards: seq<Card>)

  /** The view, the transient store after the call, and whether the feed
      was requested. */
  datatype Page = Page(view: View, store: Cache.Store, fetched: bool)

  function ErrorView(wp: Wp, message: string): (v: View)
    ensures v.ErrorBox? <==> wp.canEditPosts
    ensures wp.canEditPosts ==> v.message == message
    ensures !wp.canEditPosts ==> v == Blank
  {
    if wp.canEditPosts then ErrorBox(message) else Blank
  }

  function NoJobsMessage(s: Settings): (m: string)
    ensures m != []
    ensures !PhpEmpty(s.noJobsMessage) ==> m == s.noJobsMessage
    ensures PhpEmpty(s.noJobsMessage) ==> m == DefaultNoJobsMessage
  {
    if PhpEmpty(s.noJobsMessage) then DefaultNoJobsMessage else s.noJobsMessage
  }

  function Cards(wp: Wp, s: Settings, cid: string, jobs: seq<Feed.Job>): (cs: seq<Card>)
    ensures |cs| == |jobs|
    ensures forall k :: 0 <= k < |jobs| ==> cs[k] == Card(jobs[k], ApplicationUrl(wp, s, cid, jobs[k]), FilterData(jobs[k]))
  {
    seq(|jobs|, k requires 0 <= k < |jobs| => Card(jobs[k], ApplicationUrl(wp, s, cid, jobs[k]), FilterData(jobs[k])))
  }

  function CardJobs(cs: seq<Card>): (jobs: seq<Feed.Job>)
    ensures |jobs| == |cs|
    ensures forall k :: 0 <= k < |cs| ==> jobs[k] == cs[k].job
  {
    seq(|cs|, k requires 0 <= k < |cs| => cs[k].job)
  }

  /** render(): an empty CID stops before any request; otherwise the jobs
      come through the cache (fetching on a miss), an error is shown as such,
      the filters run, and what is left is shown in the chosen layout. */
  function Render(wp: Wp, host: Feed.Host, s: Settings, store: Cache.Store, digest: (string, nat) -> string,
                  now: int, cutoff: int, response: Feed.Response): (p: Page)
    ensures PhpEmpty(wp.sanitizeText(s.cid)) ==> p == Page(ErrorView(wp, CidMissingMessage), store, false)
    ensures p.fetched ==> !Cache.HasValidCache(store, digest, wp.sanitizeText(s.cid), Cache.AbsInt(s.limit), now)
    ensures p.view.Listing? ==> p.view.layout == LayoutOf(s.layout) && p.view.filters == s.frontendFilters
    ensures p.view.Listing? ==> p.view.cards != []
    ensures p.view.Listing? ==> forall k :: 0 <= k < |p.view.cards| ==>
      Keeps(wp, s, host.parseDate, cutoff, p.view.cards[k].job)
  {
    var cid := wp.sanitizeText(s.cid);
    if PhpEmpty(cid) then Page(ErrorView(wp, CidMissingMessage), store, false)
    else
      var limit := Cache.AbsInt(s.limit);
      var o := Cache.GetOrFetch(store, digest, cid, limit, Cache.AbsInt(s.cacheDuration), now,
                                Feed.GetVagas(host, cid, limit, response));
      match o.result
      case Err(e) => Page(ErrorView(wp, Feed.ErrorMessage(e)), o.store, o.fetched)
      case Ok(jobs) =>
        var shown := Filter(jobs, Keeper(wp, s, host.parseDate, cutoff));
        if shown == [] then Page(NoJobs(NoJobsMessage(s)), o.store, o.fetched)
        else Page(Listing(LayoutOf(s.layout), s.frontendFilters, Cards(wp, s, cid, shown)), o.store, o.fetched)
  }

  // ---------------------------------------------------------------------
  // Properties of render
  // ---------------------------------------------------------------------

  /** While the list for this CID and limit is cached, the page does not
      depend on what the feed would answer. */
  lemma CachedPageIgnoresFeed(wp: Wp, host: Feed.Host, s: Settings, store: Cache.Store,
                              digest: (string, nat) -> string, now: int, cutoff: int,
                              r1: Feed.Response, r2: Feed.Response)
    requires Cache.HasValidCache(store, digest, wp.sanitizeText(s.cid), Cache.AbsInt(s.limit), now)
    ensures Render(wp, host, s, store, digest, now, cutoff, r1) == Render(wp, host, s, store, digest, now, cutoff, r2)
    ensures !Render(wp, host, s, store, digest, now, cutoff, r1).fetched
  {
    var cid := wp.sanitizeText(s.cid);
    var limit := Cache.AbsInt(s.limit);
    Cache.HitIgnoresProducer(store, digest, cid, limit, Cache.AbsInt(s.cacheDuration), now,
      Feed.GetVagas(host, cid, limit, r1), Feed.GetVagas(host, cid, limit, r2));
  }

  /** On a hit, the page lists exactly the cached jobs that pass the filters,
      in their stored order, or shows the no-jobs notice when none do; the
      store is left as it was. */
  lemma CachedPageListsFilteredCache(wp: Wp, host: Feed.Host, s: Settings, store: Cache.Store,
                                     digest: (string, nat) -> string, now: int, cutoff: int, response: Feed.Response)
    requires !PhpEmpty(wp.sanitizeText(s.cid))
    requires Cache.HasValidCache(store, digest, wp.sanitizeText(s.cid), Cache.AbsInt(s.limit), now)
    ensures var p := Render(wp, host, s, store, digest, now, cutoff, response);
      var cached := store[Cache.KeyFor(digest, wp.sanitizeText(s.cid), Cache.AbsInt(s.limit))].jobs;
      var shown := Filter(cached, Keeper(wp, s, host.parseDate, cutoff));
      && !p.fetched
      && p.store == store
      && (shown == [] ==> p.view == NoJobs(NoJobsMessage(s)))
      && (shown != [] ==> p.view.Listing? && CardJobs(p.view.cards) == shown)
  {
    var cid := wp.sanitizeText(s.cid);
    var limit := Cache.AbsInt(s.limit);
    var cached := store[Cache.KeyFor(digest, cid, limit)].jobs;
    var shown := Filter(cached, Keeper(wp, s, host.parseDate, cutoff));
    var p := Render(wp, host, s, store, digest, now, cutoff, response);
    if shown != [] {
      assert CardJobs(p.view.cards) == shown;
    }
  }

  /** On a miss with a good reply, the page lists exactly the feed's jobs
      (truncated to the limit) that pass the filters, in feed order; with
      none left it shows the no-jobs notice. The list is cached either way. */
  lemma FreshPageListsFilteredFeed(wp: Wp, host: Feed.Host, s: Settings, store: Cache.Store,
                                   digest: (string, nat) -> string, now: int, cutoff: int, response: Feed.Response)
    requires !PhpEmpty(wp.sanitizeText(s.cid))
    requires !Cache.HasValidCache(store, digest, wp.sanitizeText(s.cid), Cache.AbsInt(s.limit), now)
    requires Feed.GetVagas(host, wp.sanitizeText(s.cid), Cache.AbsInt(s.limit), response).Ok?
    ensures var p := Render(wp, host, s, store, digest, now, cutoff, response);
      var jobs := Feed.GetVagas(host, wp.sanitizeText(s.cid), Cache.AbsInt(s.limit), response).jobs;
      var shown := Filter(jobs, Keeper(wp, s, host.parseDate, cutoff));
      && p.fetched
      && Cache.HasValidCache(p.store, digest, wp.sanitizeText(s.cid), Cache.AbsInt(s.limit), now)
      && (shown == [] ==> p.view == NoJobs(NoJobsMessage(s)))
      && (shown != [] ==> p.view.Listing? && CardJobs(p.view.cards) == shown)
  {
    var cid := wp.sanitizeText(s.cid);
    var limit := Cache.AbsInt(s.limit);
    var jobs := Feed.GetVagas(host, cid, limit, response).jobs;
    var shown := Filter(jobs, Keeper(wp, s, host.parseDate, cutoff));
    var p := Render(wp, host, s, store, digest, now, cutoff, response);
    if shown != [] {
      assert CardJobs(p.view.cards) == shown;
    }
  }

  /** A failed fetch shows its message to editors only, and caches nothing. */
  lemma FailedFetchShowsError(wp: Wp, host: Feed.Host, s: Settings, store: Cache.Store,
                              digest: (string, nat) -> string, now: int, cutoff: int, response: Feed.Response)
    requires !PhpEmpty(wp.sanitizeText(s.cid))
    requires !Cache.HasValidCache(store, digest, wp.sanitizeText(s.cid), Cache.AbsInt(s.limit), now)
    requires Feed.GetVagas(host, wp.sanitizeText(s.cid), Cache.AbsInt(s.limit), response).Err?
    ensures var p := Render(wp, host, s, store, digest, now, cutoff, response);
      var e := Feed.GetVagas(host, wp.sanitizeText(s.cid), Cache.AbsInt(s.limit), response).error;
      && p.store == store
      && p.view == ErrorView(wp, Feed.ErrorMessage(e))
      && (p.view.ErrorBox? ==> Feed.ErrorOfMessage(p.view.message) == Some(e))
  {
    var e := Feed.GetVagas(host, wp.sanitizeText(s.cid), Cache.AbsInt(s.limit), response).error;
    Feed.ErrorMessageRoundTrip(e);
  }
}
