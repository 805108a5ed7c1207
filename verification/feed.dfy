/** Kombo_API: turning the XML feed into job records.

    An XML element is modelled by what the plugin asks of it: for each child
    tag name, the text of the first child with that name (`Item`). Parsing the
    document, repairing its encoding, turning HTML into text and reading or
    printing dates are library behaviour and come in through `Host`. */
module Feed {
  import opened Common
  import opened Strings
  import CleanText
  import Description

  /** Child tag name to the text of the first child with that name. */
  type Item = map<string, string>

  /** The three places where a feed may keep its items: `channel/item`,
      `item` directly under the root, and `vagas/vaga`. An empty sequence
      means the path is not present in the document. */
  datatype Document = Document(channelItems: seq<Item>, rootItems: seq<Item>, vagaItems: seq<Item>)

  /** The library calls: fix_encoding followed by simplexml_load_string (None
      when the text is not XML), strip_tags with entity decoding (after `<br>`
      became a newline), strtotime (None for false) and date_i18n('d/m/Y'). */
  datatype Host = Host(
    loadXml: string -> Option<Document>,
    toText: string -> string,
    parseDate: string -> Option<int>,
    formatDate: int -> string)

  /** One job record, as the plugin builds it for the widget. */
  datatype Job = Job(
    codigo: string,
    titulo: string,
    cidade: string,
    estado: string,
    ramoAtividade: string,
    numVagas: int,
    dataAbertura: string,
    link: string,
    descricao: string,
    localizacao: string,
    dataFormatada: string)

  /** What came back from wp_remote_get: a transport failure or an HTTP reply. */
  datatype Response = TransportError(message: string) | Reply(status: int, body: string)

  /** The WP_Error codes of get_vagas. */
  datatype FetchError =
    | InvalidCid
    | RequestFailed(detail: string)
    | HttpError(status: int)
    | EmptyResponse
    | XmlParseError

  datatype Fetched = Ok(jobs: seq<Job>) | Err(error: FetchError)

  const FeedBaseUrl := "https://www.kombo.com.br/feed.php"
  const DefaultTimeout := 15

  // The tag names tried for each field, in order.
  const TitleTags := ["title", "titulo", "vaga", "cargo"]
  const DescriptionTags := ["description", "descricao"]
  const CodeTags := ["codigo", "code", "id", "guid"]
  const CityTags := ["cidade", "city", "location"]
  const StateTags := ["estado", "uf", "state"]
  const BranchTags := ["ramo", "ramo_atividade", "area", "setor"]
  const CountTags := ["num_vagas", "vagas", "quantidade", "qty"]
  const DateTags := ["pubDate", "data_abertura", "data", "date"]
  const LinkTags := ["link", "url"]

  // ---------------------------------------------------------------------
  // get_xml_value
  // ---------------------------------------------------------------------

  /** `tags[k]` is the first of `tags` that the item has. */
  predicate FirstPresent(item: Item, tags: seq<string>, k: int) {
    0 <= k < |tags| && tags[k] in item && forall j :: 0 <= j < k ==> tags[j] !in item
  }

  /** The trimmed text of the first listed tag the item has, even when that
      text is empty; "" when it has none of them. */
  function XmlValue(item: Item, tags: seq<string>): (r: string)
    ensures (forall k :: 0 <= k < |tags| ==> tags[k] !in item) ==> r == ""
    ensures forall k :: FirstPresent(item, tags, k) ==> r == Trim(item[tags[k]])
  {
    if tags == [] then ""
    else if tags[0] in item then Trim(item[tags[0]])
    else
      var r := XmlValue(item, tags[1..]);
      assert forall k :: 1 <= k < |tags| ==> tags[k] == tags[1..][k - 1];
      r
  }

  /** A present but empty first tag hides a later tag that has text. */
  lemma EmptyTagWins()
    ensures XmlValue(map["title" := "", "titulo" := "Analista"], TitleTags) == ""
  {
    var item := map["title" := "", "titulo" := "Analista"];
    assert TitleTags[0] in item;
  }

  // ---------------------------------------------------------------------
  // parse_vaga_item
  // ---------------------------------------------------------------------

  /** "cidade/estado" when both are set, the city alone when only it is set,
      otherwise "" (emptiness in PHP's sense, so "0" counts as unset). */
  function Location(cidade: string, estado: string): (r: string)
    ensures PhpEmpty(cidade) ==> r == ""
    ensures !PhpEmpty(cidade) && PhpEmpty(estado) ==> r == cidade
    ensures !PhpEmpty(cidade) && !PhpEmpty(estado) ==> r == cidade + "/" + estado
  {
    if !PhpEmpty(cidade) && !PhpEmpty(estado) then cidade + "/" + estado
    else if !PhpEmpty(cidade) then cidade
    else ""
  }

  /** The opening date as d/m/Y; "" when it is empty or strtotime rejects it.
      A date that strtotime reads as the timestamp 0 is falsy in PHP and also
      gives "". */
  function FormattedDate(host: Host, data: string): (r: string)
    ensures PhpEmpty(data) ==> r == ""
    ensures host.parseDate(data).None? ==> r == ""
    ensures !PhpEmpty(data) && host.parseDate(data).Some? && host.parseDate(data).value != 0
      ==> r == host.formatDate(host.parseDate(data).value)
  {
    if PhpEmpty(data) then ""
    else match host.parseDate(data)
      case Some(t) => if t != 0 then host.formatDate(t) else ""
      case None => ""
  }

  /** The description's value when it is non-empty, else the tag lookup. */
  function Prefer(parsed: string, item: Item, tags: seq<string>): string {
    if !PhpEmpty(parsed) then parsed else XmlValue(item, tags)
  }

  /** The position count: the description's when non-zero, else the tag's
      text cast to int; anything below 1 becomes 1. */
  function Positions(parsed: nat, item: Item): (n: int)
    ensures n >= 1
    ensures parsed != 0 ==> n == parsed
    ensures parsed == 0 ==> n == Max(1, PhpIntval(XmlValue(item, CountTags)))
  {
    var n := if parsed != 0 then parsed as int else PhpIntval(XmlValue(item, CountTags));
    if n < 1 then 1 else n
  }

  /** One record from one feed item; None when the cleaned title is empty. */
  function ParseItem(host: Host, item: Item): (r: Option<Job>)
    ensures r.None? <==> PhpEmpty(CleanText.CleanHtml(host.toText, XmlValue(item, TitleTags)))
    ensures r.Some? ==> WellFormed(r.value) && Precedence(host, item, r.value)
    ensures r.Some? ==> CopiedFrom(item, CleanText.CleanHtml(host.toText, XmlValue(item, TitleTags)),
                                   CleanText.CleanHtml(host.toText, XmlValue(item, DescriptionTags)),
                                   FormattedDate(host, XmlValue(item, DateTags)), r.value)
  {
    var titulo := CleanText.CleanHtml(host.toText, XmlValue(item, TitleTags));
    if PhpEmpty(titulo) then None
    else
      var descricaoRaw := XmlValue(item, DescriptionTags);
      var data := XmlValue(item, DateTags);
      Some(BuildJob(item, titulo, Description.ParseDescription(host.toText, descricaoRaw),
                    CleanText.CleanHtml(host.toText, descricaoRaw), FormattedDate(host, data)))
  }

  /** The record of an item, given its cleaned title, what its description
      says, its cleaned description and its formatted date. */
  function BuildJob(item: Item, titulo: string, info: Description.Info, descricao: string, dataFormatada: string): (job: Job)
    requires !PhpEmpty(titulo)
    ensures WellFormed(job) && PrecedenceOver(info, item, job)
    ensures CopiedFrom(item, titulo, descricao, dataFormatada, job)
  {
    var cidade := Prefer(info.cidade, item, CityTags);
    var estado := Prefer(info.estado, item, StateTags);
    Job(
      codigo := XmlValue(item, CodeTags),
      titulo := titulo,
      cidade := cidade,
      estado := estado,
      ramoAtividade := Prefer(info.ramo, item, BranchTags),
      numVagas := Positions(info.numVagas, item),
      dataAbertura := XmlValue(item, DateTags),
      link := XmlValue(item, LinkTags),
      descricao := descricao,
      localizacao := Location(cidade, estado),
      dataFormatada := dataFormatada)
  }

  /** City, state, branch and position count come from the description when
      it supplies them (non-empty, or non-zero for the count) and from the
      item's own tags otherwise. */
  predicate Precedence(host: Host, item: Item, job: Job) {
    PrecedenceOver(Description.ParseDescription(host.toText, XmlValue(item, DescriptionTags)), item, job)
  }

  predicate PrecedenceOver(info: Description.Info, item: Item, job: Job) {
    && job.cidade == (if !PhpEmpty(info.cidade) then info.cidade else XmlValue(item, CityTags))
    && job.estado == (if !PhpEmpty(info.estado) then info.estado else XmlValue(item, StateTags))
    && job.ramoAtividade == (if !PhpEmpty(info.ramo) then info.ramo else XmlValue(item, BranchTags))
    && (info.numVagas != 0 ==> job.numVagas == info.numVagas)
    && (info.numVagas == 0 ==> job.numVagas == Max(1, PhpIntval(XmlValue(item, CountTags))))
  }

  /** The fields taken as they are: the cleaned title and description, the
      formatted date, and the code, link and opening date from their tags. */
  predicate CopiedFrom(item: Item, titulo: string, descricao: string, dataFormatada: string, job: Job) {
    && job.titulo == titulo
    && job.descricao == descricao
    && job.dataFormatada == dataFormatada
    && job.codigo == XmlValue(item, CodeTags)
    && job.link == XmlValue(item, LinkTags)
    && job.dataAbertura == XmlValue(item, DateTags)
  }

  function Max(a: int, b: int): int {
    if a < b then b else a
  }

  /** What every record the feed produces satisfies. */
  predicate WellFormed(job: Job) {
    && !PhpEmpty(job.titulo)
    && job.numVagas >= 1
    && job.localizacao == Location(job.cidade, job.estado)
  }

  // ---------------------------------------------------------------------
  // parse_xml_feed
  // ---------------------------------------------------------------------

  /** The items of the first container path the document has; none at all
      when it has none of the three. */
  function Container(doc: Document): (r: seq<Item>)
    ensures r == [] <==> doc.channelItems == [] && doc.rootItems == [] && doc.vagaItems == []
    ensures r == doc.channelItems || r == doc.rootItems || r == doc.vagaItems
    ensures doc.channelItems != [] ==> r == doc.channelItems
    ensures doc.channelItems == [] && doc.rootItems != [] ==> r == doc.rootItems
    ensures doc.channelItems == [] && doc.rootItems == [] ==> r == doc.vagaItems
  {
    if doc.channelItems != [] then doc.channelItems
    else if doc.rootItems != [] then doc.rootItems
    else doc.vagaItems
  }

  /** The record of every item that has a title, in feed order. */
  function ParseItems(host: Host, items: seq<Item>): (r: seq<Job>)
    ensures |r| <= |items|
    ensures forall k :: 0 <= k < |r| ==> WellFormed(r[k])
  {
    FilterMapAll(items, Parser(host), WellFormed);
    FilterMap(items, Parser(host))
  }

  function Parser(host: Host): Item -> Option<Job> {
    (item: Item) => ParseItem(host, item)
  }

  /** parse_xml_feed: a parse failure is an error; otherwise the items of the
      first container become records. */
  function ParseXmlFeed(host: Host, body: string): (r: Fetched)
    ensures r.Err? <==> host.loadXml(body).None?
    ensures r.Err? ==> r.error == XmlParseError
    ensures r.Ok? ==> |r.jobs| <= |Container(host.loadXml(body).value)|
    ensures r.Ok? ==> forall k :: 0 <= k < |r.jobs| ==> WellFormed(r.jobs[k])
    ensures r.Ok? ==> r.jobs == ParseItems(host, Container(host.loadXml(body).value))
  {
    match host.loadXml(body)
    case None => Err(XmlParseError)
    case Some(doc) =>
      Ok(ParseItems(host, Container(doc)))
  }

  // ---------------------------------------------------------------------
  // get_vagas
  // ---------------------------------------------------------------------

  /** array_slice to `limit` records when `limit` is positive and smaller than
      the count; otherwise the list unchanged. */
  function Truncate(jobs: seq<Job>, limit: int): (r: seq<Job>)
    ensures limit > 0 ==> |r| == (if |jobs| < limit then |jobs| else limit)
    ensures limit <= 0 ==> r == jobs
    ensures r == jobs[..|r|]
  {
    if limit > 0 && |jobs| > limit then jobs[..limit] else jobs
  }

  /** get_vagas, with the reply of the single request as an argument. */
  function GetVagas(host: Host, cid: string, limit: int, response: Response): (r: Fetched)
    ensures PhpEmpty(cid) ==> r == Err(InvalidCid)
    ensures r.Ok? <==> && !PhpEmpty(cid) && response.Reply? && response.status == 200
                       && !PhpEmpty(response.body) && host.loadXml(response.body).Some?
    ensures r.Ok? ==> r.jobs == Truncate(ParseXmlFeed(host, response.body).jobs, limit)
  {
    if PhpEmpty(cid) then Err(InvalidCid)
    else match response
      case TransportError(message) => Err(RequestFailed(message))
      case Reply(status, body) =>
        if status != 200 then Err(HttpError(status))
        else if PhpEmpty(body) then Err(EmptyResponse)
        else match ParseXmlFeed(host, body)
          case Err(e) => Err(e)
          case Ok(jobs) => Ok(Truncate(jobs, limit))
  }

  /** Error codes, as WP_Error names them. */
  function ErrorCode(e: FetchError): string {
    match e
    case InvalidCid => "invalid_cid"
    case RequestFailed(_) => "request_failed"
    case HttpError(_) => "http_error"
    case EmptyResponse => "empty_response"
    case XmlParseError => "xml_parse_error"
  }

  const InvalidCidMessage := "CID Kombo invalido ou nao informado."
  const RequestFailedPrefix := "Erro ao conectar com Kombo: "
  const HttpErrorPrefix := "Kombo retornou codigo HTTP "
  const EmptyResponseMessage := "Resposta vazia do servidor Kombo."
  const XmlParseErrorMessage := "Erro ao processar XML do feed Kombo."

  /** The message each error carries (untranslated). */
  function ErrorMessage(e: FetchError): (m: string)
    ensures m != []
  {
    match e
    case InvalidCid => InvalidCidMessage
    case RequestFailed(detail) => RequestFailedPrefix + detail
    case HttpError(status) => HttpErrorPrefix + IntToString(status)
    case EmptyResponse => EmptyResponseMessage
    case XmlParseError => XmlParseErrorMessage
  }

  /** Reads the error back from its message; None for any other text. */
  function ErrorOfMessage(m: string): (r: Option<FetchError>)
    ensures r.Some? && r.value.RequestFailed? ==> m == RequestFailedPrefix + r.value.detail
  {
    if |RequestFailedPrefix| <= |m| && m[..|RequestFailedPrefix|] == RequestFailedPrefix then
      Some(RequestFailed(m[|RequestFailedPrefix|..]))
    else if |HttpErrorPrefix| <= |m| && m[..|HttpErrorPrefix|] == HttpErrorPrefix then
      Some(HttpError(PhpIntval(m[|HttpErrorPrefix|..])))
    else if m == InvalidCidMessage then Some(InvalidCid)
    else if m == EmptyResponseMessage then Some(EmptyResponse)
    else if m == XmlParseErrorMessage then Some(XmlParseError)
    else None
  }

  /** Every error can be told from its message alone, so two different
      failures never show the same text. */
  lemma ErrorMessageRoundTrip(e: FetchError)
    ensures ErrorOfMessage(ErrorMessage(e)) == Some(e)
  {
    match e
    case RequestFailed(detail) => RequestFailedMessageRoundTrip(detail);
    case HttpError(status) => HttpErrorMessageRoundTrip(status);
    case InvalidCid => InvalidCidMessageRoundTrip();
    case EmptyResponse => EmptyResponseMessageRoundTrip();
    case XmlParseError => XmlParseErrorMessageRoundTrip();
  }

  lemma RequestFailedMessageRoundTrip(detail: string)
    ensures ErrorOfMessage(ErrorMessage(RequestFailed(detail))) == Some(RequestFailed(detail))
  {
    var m := RequestFailedPrefix + detail;
    assert m[..|RequestFailedPrefix|] == RequestFailedPrefix;
    assert m[|RequestFailedPrefix|..] == detail;
  }

  lemma HttpErrorMessageRoundTrip(status: int)
    ensures ErrorOfMessage(ErrorMessage(HttpError(status))) == Some(HttpError(status))
  {
    HttpErrorMessageRead(IntToString(status));
  }

  /** A message with the HTTP prefix reads back as the status its tail spells. */
  lemma HttpErrorMessageRead(t: string)
    ensures ErrorOfMessage(HttpErrorPrefix + t) == Some(HttpError(PhpIntval(t)))
  {
    var m := HttpErrorPrefix + t;
    if |RequestFailedPrefix| <= |m| {
      assert m[..|RequestFailedPrefix|][0] == 'K';
    }
    assert m[..|HttpErrorPrefix|] == HttpErrorPrefix;
    assert m[|HttpErrorPrefix|..] == t;
  }

  lemma InvalidCidMessageRoundTrip()
    ensures ErrorOfMessage(ErrorMessage(InvalidCid)) == Some(InvalidCid)
  {
    var m := InvalidCidMessage;
    assert m[0] == 'C';
    if |RequestFailedPrefix| <= |m| {
      assert m[..|RequestFailedPrefix|][0] != RequestFailedPrefix[0];
    }
    if |HttpErrorPrefix| <= |m| {
      assert m[..|HttpErrorPrefix|][0] != HttpErrorPrefix[0];
    }
  }

  lemma EmptyResponseMessageRoundTrip()
    ensures ErrorOfMessage(ErrorMessage(EmptyResponse)) == Some(EmptyResponse)
  {
    assert EmptyResponseMessage[0] == 'R';
  }

  lemma XmlParseErrorMessageRoundTrip()
    ensures ErrorOfMessage(ErrorMessage(XmlParseError)) == Some(XmlParseError)
  {
    var m := XmlParseErrorMessage;
    assert m[..|RequestFailedPrefix|] != RequestFailedPrefix by {
      assert m[8] == 'p';
    }
    assert m[..|HttpErrorPrefix|] != HttpErrorPrefix by {
      assert m[0] == 'E';
    }
  }

  // ---------------------------------------------------------------------
  // Properties
  // ---------------------------------------------------------------------

  /** Feeds can be parsed piecewise: the records of two runs of items are the
      records of each, in the same order. */
  lemma ParseItemsAppend(host: Host, a: seq<Item>, b: seq<Item>)
    ensures ParseItems(host, a + b) == ParseItems(host, a) + ParseItems(host, b)
  {
    FilterMapAppend(a, b, Parser(host));
  }

  /** A record is produced exactly when some item parses to it, and there are
      as many records as items with a non-empty title. */
  lemma ParseItemsExactly(host: Host, items: seq<Item>, job: Job)
    ensures job in ParseItems(host, items) <==> exists k :: 0 <= k < |items| && ParseItem(host, items[k]) == Some(job)
    ensures |ParseItems(host, items)| == CountWhere(items, Titled(host))
  {
    FilterMapMembership(items, Parser(host), job);
    FilterMapLength(items, Parser(host), Titled(host));
  }

  /** The items that yield a record: those whose cleaned title is not empty. */
  function Titled(host: Host): Item -> bool {
    (item: Item) => !PhpEmpty(CleanText.CleanHtml(host.toText, XmlValue(item, TitleTags)))
  }

  /** A document with none of the three containers is an empty list, not an error. */
  lemma NoContainerNoJobs(host: Host, cid: string, limit: int, body: string)
    requires !PhpEmpty(cid) && !PhpEmpty(body)
    requires host.loadXml(body) == Some(Document([], [], []))
    ensures GetVagas(host, cid, limit, Reply(200, body)) == Ok([])
  {
  }

  /** An empty CID fails before the request: neither the reply nor the
      library calls can change the outcome. */
  lemma CidCheckedFirst(h1: Host, h2: Host, cid: string, limit: int, r1: Response, r2: Response)
    requires PhpEmpty(cid)
    ensures GetVagas(h1, cid, limit, r1) == GetVagas(h2, cid, limit, r2) == Err(InvalidCid)
  {
  }

  /** A transport failure is reported with its message, whatever the parser would do. */
  lemma TransportFailureStops(h1: Host, h2: Host, cid: string, limit: int, message: string)
    requires !PhpEmpty(cid)
    ensures GetVagas(h1, cid, limit, TransportError(message))
         == GetVagas(h2, cid, limit, TransportError(message))
         == Err(RequestFailed(message))
  {
  }

  /** A status other than 200 is reported before the body is looked at. */
  lemma StatusBeforeBody(h1: Host, h2: Host, cid: string, limit: int, status: int, b1: string, b2: string)
    requires !PhpEmpty(cid) && status != 200
    ensures GetVagas(h1, cid, limit, Reply(status, b1))
         == GetVagas(h2, cid, limit, Reply(status, b2))
         == Err(HttpError(status))
  {
  }

  /** An empty body is reported before any parsing. */
  lemma EmptyBodyBeforeParse(h1: Host, h2: Host, cid: string, limit: int, body: string)
    requires !PhpEmpty(cid) && PhpEmpty(body)
    ensures GetVagas(h1, cid, limit, Reply(200, body))
         == GetVagas(h2, cid, limit, Reply(200, body))
         == Err(EmptyResponse)
  {
  }

  /** A non-empty body that does not load as XML is a parse error, whatever
      the limit. */
  lemma UnreadableFeedFails(host: Host, cid: string, limit: int, body: string)
    requires !PhpEmpty(cid) && !PhpEmpty(body) && host.loadXml(body).None?
    ensures GetVagas(host, cid, limit, Reply(200, body)) == Err(XmlParseError)
  {
  }

  /** A successful fetch is the first `limit` records of the feed, in feed order. */
  lemma LimitKeepsFeedOrder(host: Host, cid: string, limit: int, body: string)
    requires GetVagas(host, cid, limit, Reply(200, body)).Ok?
    ensures var all := ParseXmlFeed(host, body).jobs;
      var got := GetVagas(host, cid, limit, Reply(200, body)).jobs;
      && (limit > 0 ==> |got| == (if |all| < limit then |all| else limit))
      && (limit <= 0 ==> got == all)
      && got == all[..|got|]
  {
  }

  /** The location of a record splits back into its city and state. */
  lemma LocationSplitsBack(job: Job)
    requires WellFormed(job)
    requires !PhpEmpty(job.cidade) && '\n' !in job.cidade && Trim(job.cidade) == job.cidade
    requires |job.estado| == 2 && IsAsciiLetter(job.estado[0]) && IsAsciiLetter(job.estado[1])
    ensures Description.SplitLocation(job.localizacao) == (job.cidade, job.estado)
  {
    Description.SplitLocationJoin(job.cidade, job.estado);
  }

  /** A city and state the description supplies (see
      Description.DescribedCityAndState) are the record's, whatever the item's
      own tags say, and so is the location "city/UF". */
  lemma RecordTakesDescribedPlace(host: Host, item: Item, city: string, uf: string)
    requires ParseItem(host, item).Some?
    requires Description.ParseDescription(host.toText, XmlValue(item, DescriptionTags)).cidade == city
    requires Description.ParseDescription(host.toText, XmlValue(item, DescriptionTags)).estado == uf
    requires !PhpEmpty(city) && !PhpEmpty(uf)
    ensures var job := ParseItem(host, item).value;
      job.cidade == city && job.estado == uf && job.localizacao == city + "/" + uf
  {
    var job := ParseItem(host, item).value;
    assert Precedence(host, item, job);
    assert WellFormed(job);
  }
}
