/**
 * The response path of the news reader: from a request URL string, through
 * one HTTP exchange and the reading of its body, to the list of articles.
 *
 * Java `null` is `None`. The network is an `Exchange` value that says how the
 * exchange went; a thrown `IOException` is `Threw`.
 */
module QueryUtils {
  import opened Wrappers
  import opened Json
  import opened Articles

  // ---------------------------------------------------------------------------
  // Parsing the response document

  const RESPONSE_KEY := "response"
  const RESULTS_KEY := "results"
  const DATE_KEY := "webPublicationDate"
  const TITLE_KEY := "webTitle"
  const SECTION_KEY := "sectionName"
  const URL_KEY := "webUrl"

  /** True when an item carries all four keys the parser reads. */
  predicate HasArticleKeys(m: map<string, Json>) {
    DATE_KEY in m && TITLE_KEY in m && SECTION_KEY in m && URL_KEY in m
  }

  /**
   * The article one element of `results` becomes, or `None` when reading it
   * throws: the element is not an object, or one of the four keys is missing.
   * Fields are taken by key name; the contributor is not read from the item.
   */
  function ItemArticle(item: Json, lib: JsonLib, contributor: string): (r: Option<Article>)
    ensures r.Some? <==> item.JObject? && HasArticleKeys(item.members)
    ensures r.Some? ==>
      && Some(r.value.pubDate) == GetString(item.members, DATE_KEY, lib)
      && Some(r.value.title) == GetString(item.members, TITLE_KEY, lib)
      && Some(r.value.section) == GetString(item.members, SECTION_KEY, lib)
      && Some(r.value.webUrl) == GetString(item.members, URL_KEY, lib)
      && r.value.contributor == contributor
  {
    if !item.JObject? || !HasArticleKeys(item.members) then None
    else
      var m := item.members;
      Some(NewArticle(GetString(m, TITLE_KEY, lib).value, GetString(m, SECTION_KEY, lib).value,
                      GetString(m, DATE_KEY, lib).value, contributor, GetString(m, URL_KEY, lib).value))
  }

  /**
   * The articles for the longest run of convertible items at the start of
   * `items`: conversion stops at the first item that throws, keeping what was
   * built before it.
   */
  function ConvertPrefix(items: seq<Json>, lib: JsonLib, contributor: string): (r: seq<Article>)
    ensures |r| <= |items|
    ensures forall k :: 0 <= k < |r| ==> ItemArticle(items[k], lib, contributor) == Some(r[k])
    ensures |r| < |items| ==> ItemArticle(items[|r|], lib, contributor).None?
  {
    if items == [] then []
    else match ItemArticle(items[0], lib, contributor)
      case None => []
      case Some(a) => [a] + ConvertPrefix(items[1..], lib, contributor)
  }

  /** `response.results` of a document, or `None` when either lookup throws. */
  function ResultsOf(doc: Json): (r: Option<seq<Json>>)
    ensures r.Some? <==>
      doc.JObject? && GetObject(doc.members, RESPONSE_KEY).Some?
      && GetArray(GetObject(doc.members, RESPONSE_KEY).value, RESULTS_KEY).Some?
    ensures r.Some? ==> doc.members[RESPONSE_KEY].members[RESULTS_KEY] == JArray(r.value)
  {
    if !doc.JObject? then None
    else match GetObject(doc.members, RESPONSE_KEY)
      case None => None
      case Some(response) => GetArray(response, RESULTS_KEY)
  }

  /**
   * What `extractArticleFromJson` returns for `articleJson`: `null` for a null
   * or empty text; an empty list when the text does not parse to an object
   * holding `response.results`; otherwise the converted prefix of the results.
   */
  function ExtractArticles(articleJson: Option<string>, lib: JsonLib, contributor: string): (r: Option<seq<Article>>) {
    if articleJson.None? || articleJson.value == "" then None
    else match lib.parse(articleJson.value)
      case None => Some([])
      case Some(doc) =>
        match ResultsOf(doc)
        case None => Some([])
        case Some(items) => Some(ConvertPrefix(items, lib, contributor))
  }

  /** One step of the conversion: the item at `i` decides whether it goes on. */
  lemma ConvertPrefixStep(items: seq<Json>, i: nat, lib: JsonLib, contributor: string)
    requires i < |items|
    ensures ConvertPrefix(items[i..], lib, contributor)
            == match ItemArticle(items[i], lib, contributor)
               case None => []
               case Some(a) => [a] + ConvertPrefix(items[i + 1..], lib, contributor)
  {
  }

  /**
   * The body of the parsing loop for one element: `getJSONObject(i)` and the
   * four `getString` calls, `None` when one of them throws.
   */
  method ReadArticle(item: Json, lib: JsonLib, contributor: string) returns (article: Option<Article>)
    ensures article == ItemArticle(item, lib, contributor)
  {
    if !item.JObject? {
      return None;
    }
    var currentArticle := item.members;
    var webPublicationDate := GetString(currentArticle, DATE_KEY, lib);
    var webTitle := GetString(currentArticle, TITLE_KEY, lib);
    var sectionName := GetString(currentArticle, SECTION_KEY, lib);
    var webUrl := GetString(currentArticle, URL_KEY, lib);
    if webPublicationDate.None? || webTitle.None? || sectionName.None? || webUrl.None? {
      return None;
    }
    return Some(NewArticle(webTitle.value, sectionName.value, webPublicationDate.value,
                           contributor, webUrl.value));
  }

  /**
   * The loop of `extractArticleFromJson` over `results`: appends one article
   * per element and stops at the first element that throws, keeping what it
   * has built so far.
   */
  method ConvertItems(items: seq<Json>, lib: JsonLib, contributor: string)
    returns (articles: seq<Article>)
    ensures articles == ConvertPrefix(items, lib, contributor)
  {
    articles := [];
    var totalArticles := |items|;
    var i := 0;
    while i < totalArticles
      invariant 0 <= i <= totalArticles
      invariant ConvertPrefix(items, lib, contributor)
                == articles + ConvertPrefix(items[i..], lib, contributor)
    {
      ConvertPrefixStep(items, i, lib, contributor);
      var article := ReadArticle(items[i], lib, contributor);
      if article.None? {
        break;
      }
      articles := articles + [article.value];
      i := i + 1;
    }
    assert i == totalArticles ==> items[i..] == [];
  }

  /**
   * `extractArticleFromJson`: `null` for a null or empty text; otherwise the
   * list built from `response.results`, empty when a lookup throws.
   */
  method ExtractArticleFromJson(articleJson: Option<string>, lib: JsonLib, contributor: string)
    returns (result: Option<seq<Article>>)
    ensures result == ExtractArticles(articleJson, lib, contributor)
  {
    if articleJson.None? || articleJson.value == "" {
      return None;
    }
    var articles: seq<Article> := [];
    var baseJsonResponse := lib.parse(articleJson.value);
    if baseJsonResponse.Some? && baseJsonResponse.value.JObject? {
      var response := GetObject(baseJsonResponse.value.members, RESPONSE_KEY);
      if response.Some? {
        var articleArray := GetArray(response.value, RESULTS_KEY);
        if articleArray.Some? {
          articles := ConvertItems(articleArray.value, lib, contributor);
        }
      }
    }
    return Some(articles);
  }

  /** `extractArticleFromJson` returns `null` exactly for a null or empty text. */
  lemma ExtractNullIff(articleJson: Option<string>, lib: JsonLib, contributor: string)
    ensures ExtractArticles(articleJson, lib, contributor).None?
            <==> articleJson.None? || articleJson.value == ""
  {
  }

  /** A text that does not parse, or lacks `response`/`results`, gives an empty list, not `null`. */
  lemma ExtractMalformedIsEmpty(text: string, lib: JsonLib, contributor: string)
    requires text != ""
    requires lib.parse(text).None? || ResultsOf(lib.parse(text).value).None?
    ensures ExtractArticles(Some(text), lib, contributor) == Some([])
  {
  }

  /**
   * A well-formed document: one article per element of `results`, in array
   * order, each field taken from the item's member of the same meaning.
   */
  lemma {:induction false} ConvertAllWellFormed(items: seq<Json>, lib: JsonLib, contributor: string)
    requires forall k :: 0 <= k < |items| ==> items[k].JObject? && HasArticleKeys(items[k].members)
    ensures |ConvertPrefix(items, lib, contributor)| == |items|
    ensures forall k :: 0 <= k < |items| ==>
      var a := ConvertPrefix(items, lib, contributor)[k];
      var m := items[k].members;
      && Some(a.title) == GetString(m, TITLE_KEY, lib)
      && Some(a.section) == GetString(m, SECTION_KEY, lib)
      && Some(a.pubDate) == GetString(m, DATE_KEY, lib)
      && Some(a.webUrl) == GetString(m, URL_KEY, lib)
      && a.contributor == contributor
  {
  }

  /**
   * A non-empty text that parses to a document whose `response.results` holds
   * only well-formed items gives one article per element of that array, in
   * array order, each field taken from the item's member of the same meaning.
   */
  lemma DocumentArticles(text: string, doc: Json, items: seq<Json>, lib: JsonLib, contributor: string)
    requires text != "" && lib.parse(text) == Some(doc)
    requires doc.JObject? && RESPONSE_KEY in doc.members
    requires doc.members[RESPONSE_KEY].JObject? && RESULTS_KEY in doc.members[RESPONSE_KEY].members
    requires doc.members[RESPONSE_KEY].members[RESULTS_KEY] == JArray(items)
    requires forall k :: 0 <= k < |items| ==> items[k].JObject? && HasArticleKeys(items[k].members)
    ensures ExtractArticles(Some(text), lib, contributor).Some?
    ensures |ExtractArticles(Some(text), lib, contributor).value| == |items|
    ensures forall k :: 0 <= k < |items| ==>
      var a := ExtractArticles(Some(text), lib, contributor).value[k];
      var m := items[k].members;
      && Some(a.title) == GetString(m, TITLE_KEY, lib)
      && Some(a.section) == GetString(m, SECTION_KEY, lib)
      && Some(a.pubDate) == GetString(m, DATE_KEY, lib)
      && Some(a.webUrl) == GetString(m, URL_KEY, lib)
      && a.contributor == contributor
  {
    assert ResultsOf(doc) == Some(items);
    ConvertAllWellFormed(items, lib, contributor);
  }

  /**
   * An item that throws at index `k`, after `k` good ones: the result is
   * exactly the articles of items `0..k-1`, neither `null` nor all-or-nothing.
   */
  lemma {:induction false} BadItemGivesPrefix(items: seq<Json>, k: nat, lib: JsonLib, contributor: string)
    requires k < |items|
    requires forall j :: 0 <= j < k ==> ItemArticle(items[j], lib, contributor).Some?
    requires !items[k].JObject? || !HasArticleKeys(items[k].members)
    ensures ConvertPrefix(items, lib, contributor) == ConvertPrefix(items[..k], lib, contributor)
    ensures |ConvertPrefix(items, lib, contributor)| == k
  {
  }

  /** Members other than the four read keys (such as the contributor `tags`) never affect an item's article. */
  lemma OtherKeysIgnored(m: map<string, Json>, key: string, v: Json, lib: JsonLib, contributor: string)
    requires key != DATE_KEY && key != TITLE_KEY && key != SECTION_KEY && key != URL_KEY
    ensures ItemArticle(JObject(m[key := v]), lib, contributor) == ItemArticle(JObject(m), lib, contributor)
  {
  }

  // ---------------------------------------------------------------------------
  // Reading the body

  /** True for the two characters that end a line for `BufferedReader.readLine`. */
  predicate IsLineBreak(c: char) {
    c == '\n' || c == '\r'
  }

  /** The text with every carriage return and line feed deleted. */
  function WithoutLineBreaks(s: string): (r: string)
    ensures |r| <= |s|
  {
    if s == [] then []
    else (if IsLineBreak(s[0]) then [] else [s[0]]) + WithoutLineBreaks(s[1..])
  }

  /** The result of `WithoutLineBreaks` holds no line break. */
  lemma {:induction false} WithoutLineBreaksHasNone(s: string)
    ensures forall k :: 0 <= k < |WithoutLineBreaks(s)| ==> !IsLineBreak(WithoutLineBreaks(s)[k])
  {
    if s != [] {
      WithoutLineBreaksHasNone(s[1..]);
    }
  }

  /**
   * `readLine` on the unread text `s`: `None` at the end of the stream,
   * otherwise the line (without its terminator) and the text after the
   * terminator, where a terminator is `\n`, `\r` or `\r\n`.
   */
  function ReadLine(s: string): (r: Option<(string, string)>)
    ensures r.None? <==> s == []
    ensures r.Some? ==> |r.value.1| < |s|
    ensures r.Some? ==> WithoutLineBreaks(s) == r.value.0 + WithoutLineBreaks(r.value.1)
    ensures r.Some? ==> WithoutLineBreaks(r.value.0) == r.value.0
  {
    if s == [] then None
    else if s[0] == '\n' then Some(("", s[1..]))
    else if s[0] == '\r' then
      if |s| > 1 && s[1] == '\n' then
        assert s[1..][1..] == s[2..];
        Some(("", s[2..]))
      else Some(("", s[1..]))
    else
      var next := ReadLine(s[1..]);
      if next.None? then
        Some(([s[0]], []))
      else
        var line := [s[0]] + next.value.0;
        assert WithoutLineBreaks(s) == [s[0]] + WithoutLineBreaks(s[1..]);
        assert line[1..] == next.value.0;
        Some((line, next.value.1))
  }

  /**
   * The line `readLine` returns is the unread text up to its first line
   * break, or all of it when it holds none.
   */
  lemma {:induction false} ReadLineStopsAtFirstBreak(s: string)
    requires s != []
    ensures ReadLine(s).value.0 <= s
    ensures |ReadLine(s).value.0| == |s| || IsLineBreak(s[|ReadLine(s).value.0|])
  {
    if !IsLineBreak(s[0]) && s[1..] != [] {
      ReadLineStopsAtFirstBreak(s[1..]);
      var line := ReadLine(s[1..]).value.0;
      assert ReadLine(s).value.0 == [s[0]] + line;
      assert |line| == |s[1..]| || s[|line| + 1] == s[1..][|line|];
    }
  }

  /**
   * `readFromStream`: "" for a null stream, otherwise every line of the
   * stream appended with nothing between them.
   */
  method ReadFromStream(inputStream: Option<string>) returns (output: string)
    ensures output == if inputStream.None? then "" else WithoutLineBreaks(inputStream.value)
  {
    output := "";
    if inputStream.Some? {
      var unread := inputStream.value;
      var line := ReadLine(unread);
      while line.Some?
        invariant line == ReadLine(unread)
        invariant output + WithoutLineBreaks(unread) == WithoutLineBreaks(inputStream.value)
        decreases |unread|
      {
        output := output + line.value.0;
        unread := line.value.1;
        line := ReadLine(unread);
      }
    }
  }

  // ---------------------------------------------------------------------------
  // The HTTP exchange

  /** A parsed `java.net.URL`. */
  datatype Url = Url(spec: string)

  /**
   * `createUrl`: the URL for `stringUrl`, or `null` when the `URL`
   * constructor throws `MalformedURLException`; `isWellFormed` is that
   * constructor's judgement of a string.
   */
  function CreateUrl(stringUrl: Option<string>, isWellFormed: string -> bool): (r: Option<Url>)
    ensures r.Some? <==> stringUrl.Some? && isWellFormed(stringUrl.value)
    ensures r.Some? ==> r.value.spec == stringUrl.value
  {
    if stringUrl.Some? && isWellFormed(stringUrl.value) then Some(Url(stringUrl.value)) else None
  }

  /**
   * How one HTTP exchange goes, as far as the request code can observe it:
   * `openConnection` throws; `connect` or `getResponseCode` throws; or the
   * server answers with a status code and, possibly, a body stream.
   */
  datatype Exchange =
    | OpenFails
    | ConnectFails
    | Responded(code: int, body: Body)

  /**
   * The body of an answer: `getInputStream` throws (`NoStream`), or a stream
   * whose text is `content`, whose reading may throw part way (`readFails`)
   * and whose `close` may throw (`closeFails`).
   */
  datatype Body =
    | NoStream
    | Stream(content: string, readFails: bool, closeFails: bool)

  /** What a Java call gives back: a value, or a thrown `IOException`. */
  datatype Outcome<T> = Returned(value: T) | Threw

  /** The resources the request code acquires and releases, in the order it does so. */
  datatype ResourceEvent = OpenConnection | ObtainStream | Disconnect | CloseStream

  /** True for an exchange that reaches status 200 and obtains the body stream. */
  predicate ObtainsStream(exchange: Exchange) {
    exchange.Responded? && exchange.code == 200 && exchange.body.Stream?
  }

  /**
   * What `makeHttpRequest` gives back: the body text only for status 200 with
   * a body read to the end, "" on every other path, and a thrown
   * `IOException` only when closing an obtained stream throws.
   */
  function HttpResponse(url: Option<Url>, exchange: Exchange): (r: Outcome<string>) {
    if url.None? || !ObtainsStream(exchange) then Returned("")
    else if exchange.body.closeFails then Threw
    else if exchange.body.readFails then Returned("")
    else Returned(WithoutLineBreaks(exchange.body.content))
  }

  /**
   * `makeHttpRequest`: the response and the resource events on the way. No
   * connection is opened for a null URL; the `finally` block disconnects every
   * opened connection and then closes every obtained stream.
   */
  method MakeHttpRequest(url: Option<Url>, exchange: Exchange)
    returns (response: Outcome<string>, events: seq<ResourceEvent>)
    ensures response == HttpResponse(url, exchange)
    ensures url.None? ==> events == []
    ensures OpenConnection in events <==> url.Some? && !exchange.OpenFails?
    ensures ObtainStream in events <==> url.Some? && ObtainsStream(exchange)
    ensures events == [] || events == [OpenConnection, Disconnect]
            || events == [OpenConnection, ObtainStream, Disconnect, CloseStream]
  {
    var jsonResponse := "";
    events := [];
    if url.None? {
      return Returned(jsonResponse), events;
    }
    var hasConnection := false;
    var hasStream := false;
    // try
    if !exchange.OpenFails? {
      hasConnection := true;
      events := events + [OpenConnection];
      if exchange.Responded? && exchange.code == 200 && exchange.body.Stream? {
        hasStream := true;
        events := events + [ObtainStream];
        if !exchange.body.readFails {
          jsonResponse := ReadFromStream(Some(exchange.body.content));
        }
      }
    }
    // finally
    if hasConnection {
      events := events + [Disconnect];
    }
    if hasStream {
      events := events + [CloseStream];
      if exchange.body.closeFails {
        return Threw, events;
      }
    }
    return Returned(jsonResponse), events;
  }

  /** Only status 200 with a body read and closed without error yields a non-empty response. */
  lemma HttpResponseBodyOnlyOn200(url: Option<Url>, exchange: Exchange, text: string)
    requires HttpResponse(url, exchange) == Returned(text) && text != ""
    ensures url.Some? && exchange.Responded? && exchange.code == 200
    ensures exchange.body == Stream(exchange.body.content, false, false)
    ensures text == WithoutLineBreaks(exchange.body.content)
  {
  }

  // ---------------------------------------------------------------------------
  // The whole fetch

  /**
   * `fetchArticleData`: create the URL, run the exchange (a thrown
   * `IOException` leaves the text `null`) and parse what came back.
   * The result is `null` whenever the URL is malformed, the status is not
   * 200, the exchange or the read fails, or the body is empty.
   */
  method FetchArticleData(requestUrl: Option<string>, isWellFormed: string -> bool, exchange: Exchange,
                          lib: JsonLib, contributor: string)
    returns (articles: Option<seq<Article>>)
    ensures articles.Some? <==>
      && CreateUrl(requestUrl, isWellFormed).Some?
      && exchange.Responded? && exchange.code == 200
      && exchange.body.Stream? && !exchange.body.readFails && !exchange.body.closeFails
      && WithoutLineBreaks(exchange.body.content) != ""
    ensures articles.Some? ==>
      articles == ExtractArticles(Some(WithoutLineBreaks(exchange.body.content)), lib, contributor)
  {
    var url := CreateUrl(requestUrl, isWellFormed);
    var jsonResponse: Option<string> := None;
    var response, _ := MakeHttpRequest(url, exchange);
    if response.Returned? {
      jsonResponse := Some(response.value);
    }
    articles := ExtractArticleFromJson(jsonResponse, lib, contributor);
  }
}
