/**
 * The screen of the news reader: the request it builds for its loader, the
 * decision to load at start-up, and how the list and the empty-state message
 * change when a load finishes or is reset.
 */
module Activity {
  import opened Wrappers
  import opened Articles

  /** The search endpoint every request starts from. */
  const BASE_REQUEST_URL := "https://content.guardianapis.com/search?"

  /** The state of the active network: none at all (`null`), or one that is connected or not. */
  datatype NetworkInfo = NoActiveNetwork | ActiveNetwork(connected: bool)

  /** A missing network counts as not connected rather than failing. */
  function IsConnected(info: NetworkInfo): (r: bool)
    ensures r <==> info == ActiveNetwork(true)
  {
    match info
    case NoActiveNetwork => false
    case ActiveNetwork(connected) => connected
  }

  /** The text of the empty-state view: as the layout leaves it, or one of the two messages. */
  datatype EmptyStateText = Unset | NoNetwork | NoArticles

  /** A request: the base URL and its query parameters in the order they were appended. */
  datatype Request = Request(base: string, query: seq<(string, string)>)

  /**
   * `Uri.Builder`, as far as the screen uses it: a base and a growing list of
   * query parameters. Percent-encoding and the rendering to a string are not
   * modelled.
   */
  class UriBuilder {
    var base: string
    var query: seq<(string, string)>

    /** `Uri.parse(base).buildUpon()`: no query parameters yet. */
    constructor BuildUpon(base: string)
      ensures this.base == base && query == []
    {
      this.base := base;
      query := [];
    }

    /** `appendQueryParameter`: adds one pair at the end and keeps the rest. */
    method AppendQueryParameter(key: string, value: string)
      modifies this
      ensures base == old(base)
      ensures query == old(query) + [(key, value)]
    {
      query := query + [(key, value)];
    }

    /**
     * The request built so far: it stands for the `uriBuilder.toString()`
     * text handed to the loader.
     */
    function Build(): Request
      reads this
    {
      Request(base, query)
    }
  }

  /**
   * `onCreateLoader`: the request for the loader. The sort order and topic are
   * the stored settings or, when none is stored, their defaults; the dates and
   * the tag flag are fixed; the key is the build's API key.
   */
  method OnCreateLoader(storedOrderBy: Option<string>, orderByDefault: string,
                        storedTopic: Option<string>, topicDefault: string, apiKey: string)
    returns (request: Request)
    ensures request.base == BASE_REQUEST_URL
    ensures |request.query| == 6
    ensures request.query[0] == ("from-date", "2018-01-01")
    ensures request.query[1] == ("to-date", "2018-12-31")
    ensures request.query[2] == ("show-tags", "contributor")
    ensures request.query[3] == ("order-by", if storedOrderBy.Some? then storedOrderBy.value else orderByDefault)
    ensures request.query[4] == ("q", if storedTopic.Some? then storedTopic.value else topicDefault)
    ensures request.query[5] == ("api-key", apiKey)
  {
    var orderBy := storedOrderBy.GetOr(orderByDefault);
    var topic := storedTopic.GetOr(topicDefault);
    var uriBuilder := new UriBuilder.BuildUpon(BASE_REQUEST_URL);
    uriBuilder.AppendQueryParameter("from-date", "2018-01-01");
    uriBuilder.AppendQueryParameter("to-date", "2018-12-31");
    uriBuilder.AppendQueryParameter("show-tags", "contributor");
    uriBuilder.AppendQueryParameter("order-by", orderBy);
    uriBuilder.AppendQueryParameter("q", topic);
    uriBuilder.AppendQueryParameter("api-key", apiKey);
    request := uriBuilder.Build();
  }

  /**
   * The screen's state: the articles held by the list adapter and the text of
   * the view shown while that list is empty.
   */
  class MainActivity {
    var articles: seq<Article>
    var emptyStateText: EmptyStateText

    /** A screen before `onCreate`: nothing listed, no message set. */
    constructor ()
      ensures articles == [] && emptyStateText == Unset
    {
      articles := [];
      emptyStateText := Unset;
    }

    /**
     * `onCreate`: inflates a fresh layout, whose message is unset, installs an
     * empty adapter and starts the load only when the network is present and
     * connected; otherwise it shows the no-network message.
     */
    method OnCreate(networkInfo: NetworkInfo) returns (startLoad: bool)
      modifies this
      ensures startLoad <==> networkInfo == ActiveNetwork(true)
      ensures articles == []
      ensures emptyStateText == if startLoad then Unset else NoNetwork
    {
      articles := [];
      emptyStateText := Unset;
      if networkInfo.ActiveNetwork? && networkInfo.connected {
        startLoad := true;
      } else {
        startLoad := false;
        emptyStateText := NoNetwork;
      }
    }

    /**
     * `onLoadFinished`: the adapter is cleared and then holds exactly the
     * delivered articles (nothing for `null`); the message is no-network only
     * when nothing was delivered and the network, checked now, is not
     * connected.
     */
    method OnLoadFinished(delivered: Option<seq<Article>>, networkInfo: NetworkInfo)
      modifies this
      ensures articles == delivered.GetOr([])
      ensures emptyStateText == NoNetwork <==> articles == [] && !IsConnected(networkInfo)
      ensures emptyStateText != Unset
    {
      emptyStateText := NoArticles;
      articles := [];
      if delivered.Some? && delivered.value != [] {
        articles := articles + delivered.value;
      } else {
        var isConnected: bool;
        if networkInfo.NoActiveNetwork? {
          isConnected := false;
        } else {
          isConnected := networkInfo.connected;
        }
        if isConnected {
          emptyStateText := NoArticles;
        } else {
          emptyStateText := NoNetwork;
        }
      }
    }

    /** `onLoaderReset`: the adapter is emptied; the message stays as it was. */
    method OnLoaderReset()
      modifies this
      ensures articles == []
      ensures emptyStateText == old(emptyStateText)
    {
      articles := [];
    }
  }
}
