# News reader: from server response to list rows

This project models, in Dafny, the path an Android news reader takes from a
search request to the rows on its screen, and proves what that path does.

- `Article.dfy` (module `Articles`): the article record. It holds five strings
  and has no setters, so it is a datatype. Its constructor takes title,
  section, publication date, contributor and web URL, in that order.
- `Json.dfy` (module `Json`): an already-parsed JSON value and the three
  `org.json` lookups the parser uses. The library's parser and its way of
  turning a non-string value into text are passed in as a `JsonLib` value.
- `QueryUtils.dfy` (module `QueryUtils`): the response path.
  - `extractArticleFromJson` is a loop that builds the article list. It is
    proved equal to the function `ExtractArticles`.
  - `readFromStream` is a `readLine` loop. It is proved to return the body
    with every line break deleted.
  - `makeHttpRequest` decides on the status code and on each failure, and
    records the resources it opens and releases.
  - `fetchArticleData` composes the three.
- `ArticleAdapter.dfy` (module `ArticleAdapter`): what a list row shows,
  including Java's `String.split` as `rawDate.split("T")` uses it.
- `MainActivity.dfy` (module `Activity`):
  - the request `onCreateLoader` builds, through a small `UriBuilder` class;
  - a `MainActivity` class whose fields are the adapter's article list and
    the empty-state message;
  - `onCreate`, `onLoadFinished` and `onLoaderReset` as methods on that class.

Java `null` is `Option.None`. A thrown `IOException` is `Outcome.Threw`. The
network exchange is a value of type `Exchange`. It says whether opening or
connecting failed, or else which status code and body came back. The network
state is a `NetworkInfo` value. The stored settings are `Option<string>`
inputs. The API key is an opaque string.

The model keeps these behaviours of the code as they are:
- A null or empty response text gives `null`.
- An unparseable text, or one without `response.results`, gives an empty list.
- A bad item at index k gives the articles of items 0..k-1. Parsing is not
  all-or-nothing, and there are no typed parse failures.
- For an http(s) URL, a status other than 200 gives `""`, as does every
  other failure of the exchange except a failing `close()` of the body
  stream, which throws.
  `fetchArticleData` turns both `""` and the thrown exception into `null`.
  No failure is reported as its own kind.
- The query parameters are appended in one fixed order.

The call that builds each article (`QueryUtils.java:89`) passes four
arguments: `webTitle`, `sectionName`, `webPublicationDate`, `webUrl`. The only
`Article` constructor (`Article.java:41`) takes five, with the contributor
fourth. As written the call does not compile. The model maps the four fields
by name and makes the contributor a parameter of the extraction
(`contributor` in `ItemArticle`, `ExtractArticleFromJson` and
`FetchArticleData`). No item field is read for it.

`rawDate.split("T")[0]` throws when the date is a non-empty string made only
of `T`s. In that case `split` returns an empty array. `ShownDate` and
`GetView` return `None` there.

## Model

| member | source | states |
|---|---|---|
| `Articles.NewArticle` | app/src/main/java/com/example/android/news_reader/Article.java:41-48 | each of the five arguments is stored unchanged under its own getter, and contributor is the fourth argument even though the field is declared last; nothing is validated |
| `Articles.NewArticleInjective` | app/src/main/java/com/example/android/news_reader/Article.java:41-48 | two constructions give equal articles exactly when all five arguments are equal |
| `Articles.ArticleIsItsGetters` | app/src/main/java/com/example/android/news_reader/Article.java:50-68 | every article is the construction from its five getters' values, so getters return the 1st, 2nd, 3rd, 4th and 5th constructor argument |
| `Json.GetObject` | app/src/main/java/com/example/android/news_reader/QueryUtils.java:59 | `getJSONObject` succeeds exactly when the key is present and holds an object, and returns that object |
| `Json.GetArray` | app/src/main/java/com/example/android/news_reader/QueryUtils.java:63 | `getJSONArray` succeeds exactly when the key is present and holds an array, and returns that array |
| `Json.GetString` | app/src/main/java/com/example/android/news_reader/QueryUtils.java:76-85 | `getString` fails exactly when the key is absent, and returns a string member unchanged |
| `QueryUtils.ItemArticle` | app/src/main/java/com/example/android/news_reader/QueryUtils.java:73-89 | an item converts exactly when it is an object with all four keys; then title, section, pubDate and webUrl come from webTitle, sectionName, webPublicationDate and webUrl, and the contributor is the given one |
| `QueryUtils.ConvertPrefix` | app/src/main/java/com/example/android/news_reader/QueryUtils.java:67-93 | the result is never longer than the results array, element k is the article of item k, and when it is shorter the next item is one that fails to convert |
| `QueryUtils.ResultsOf` | app/src/main/java/com/example/android/news_reader/QueryUtils.java:55-63 | the results array is found exactly when the document is an object whose `response` is an object whose `results` is an array, and then it is that `response.results` array |
| `QueryUtils.ReadArticle` | app/src/main/java/com/example/android/news_reader/QueryUtils.java:73-89 | the `getJSONObject(i)` and four `getString` calls of one loop pass give exactly the item's article, or fail exactly when the item does not convert |
| `QueryUtils.ConvertItems` | app/src/main/java/com/example/android/news_reader/QueryUtils.java:65-93 | the loop that appends one article per element of `results` and stops at the first element that throws returns exactly the convertible prefix `ConvertPrefix` |
| `QueryUtils.ExtractArticleFromJson` | app/src/main/java/com/example/android/news_reader/QueryUtils.java:40-103 | null for a null or empty text, otherwise the list built from `response.results`: exactly `ExtractArticles` of its input |
| `QueryUtils.ExtractNullIff` | app/src/main/java/com/example/android/news_reader/QueryUtils.java:42-47 | the result is null exactly when the text is null or empty; every other text gives a list |
| `QueryUtils.ExtractMalformedIsEmpty` | app/src/main/java/com/example/android/news_reader/QueryUtils.java:52-63 | a non-empty text that does not parse, or lacks `response` or `results`, gives an empty list and not null |
| `QueryUtils.DocumentArticles` | app/src/main/java/com/example/android/news_reader/QueryUtils.java:52-93 | a non-empty text that parses to a document whose `response.results` holds only well-formed items gives one article per element of that array, in array order, each field taken from the key of the same meaning |
| `QueryUtils.ConvertAllWellFormed` | app/src/main/java/com/example/android/news_reader/QueryUtils.java:67-93 | when every item is an object with the four keys there is one article per item, in array order, each field taken from the key of the same meaning |
| `QueryUtils.BadItemGivesPrefix` | app/src/main/java/com/example/android/news_reader/QueryUtils.java:70-102 | when item k is the first to fail, the result is exactly the articles of items 0..k-1, of length k |
| `QueryUtils.OtherKeysIgnored` | app/src/main/java/com/example/android/news_reader/QueryUtils.java:73-89 | changing any member other than the four read keys, such as the contributor tags, never changes an item's article |
| `QueryUtils.WithoutLineBreaksHasNone` | app/src/main/java/com/example/android/news_reader/QueryUtils.java:189-201 | the text the reader returns holds no carriage return or line feed |
| `QueryUtils.ReadLine` | app/src/main/java/com/example/android/news_reader/QueryUtils.java:194-198 | `readLine` gives null exactly at the end of the stream, and otherwise a line without terminator; the line followed by the rest, breaks removed, is the unread text with breaks removed |
| `QueryUtils.ReadLineStopsAtFirstBreak` | app/src/main/java/com/example/android/news_reader/QueryUtils.java:194-198 | the line `readLine` returns is the unread text up to its first `\r` or `\n`, or all of it when there is none |
| `QueryUtils.ReadFromStream` | app/src/main/java/com/example/android/news_reader/QueryUtils.java:189-201 | a null stream gives ""; otherwise the lines are joined with no separator, which is the stream's text with every `\r` and `\n` deleted |
| `QueryUtils.CreateUrl` | app/src/main/java/com/example/android/news_reader/QueryUtils.java:133-141 | the URL is null exactly when the string is null or malformed, and otherwise keeps the string |
| `QueryUtils.MakeHttpRequest` | app/src/main/java/com/example/android/news_reader/QueryUtils.java:145-184 | the response is `HttpResponse`; a null URL opens nothing; every opened connection is disconnected and then every obtained stream is closed, and a stream is obtained exactly on status 200 with a body |
| `QueryUtils.HttpResponseBodyOnlyOn200` | app/src/main/java/com/example/android/news_reader/QueryUtils.java:162-171 | a non-empty response comes only from a non-null URL, status 200 and a body read and closed without error, and it is that body without line breaks |
| `QueryUtils.FetchArticleData` | app/src/main/java/com/example/android/news_reader/QueryUtils.java:107-129 | the result is non-null exactly when the URL is well formed, the status is 200, the body is read and closed without error and is non-empty; then it is the extraction of that body |
| `ArticleAdapter.Fields` | app/src/main/java/com/example/android/news_reader/ArticleAdapter.java:81 | cutting at every `T` gives at least one piece, and the first is the text before the first `T` |
| `ArticleAdapter.FieldsAllEmpty` | app/src/main/java/com/example/android/news_reader/ArticleAdapter.java:81 | every piece is empty exactly when the text is made only of separators |
| `ArticleAdapter.DropTrailingEmpty` | app/src/main/java/com/example/android/news_reader/ArticleAdapter.java:81 | removing trailing empty pieces keeps a prefix of the pieces that is empty or ends in a non-empty piece, every piece after it is empty, and it is empty exactly when every piece is empty |
| `ArticleAdapter.SplitFirst` | app/src/main/java/com/example/android/news_reader/ArticleAdapter.java:81 | `split("T")` is empty exactly for a non-empty text made only of `T`; otherwise its first element is the text before the first `T` |
| `ArticleAdapter.ShownDate` | app/src/main/java/com/example/android/news_reader/ArticleAdapter.java:80-82 | the shown date fails exactly for a non-empty all-`T` date; otherwise it is a prefix of the raw date, holds no `T`, and ends where the raw date ends or at a `T` |
| `ArticleAdapter.PrefixBeforeUnique` | app/src/main/java/com/example/android/news_reader/ArticleAdapter.java:81-82 | at most one text is the prefix before the first `T`, so the shown date is determined by that description |
| `ArticleAdapter.TimestampShowsDate` | app/src/main/java/com/example/android/news_reader/ArticleAdapter.java:79-82 | a non-empty date without `T`, followed by `T` and any time, shows as exactly that date |
| `ArticleAdapter.IsoTimestampShowsDate` | app/src/main/java/com/example/android/news_reader/ArticleAdapter.java:37-39 | "2018-05-01T10:00:00Z" shows as "2018-05-01" |
| `ArticleAdapter.EmptyOrLeadingSeparatorShowsEmpty` | app/src/main/java/com/example/android/news_reader/ArticleAdapter.java:81-82 | an empty date, or one that starts with `T` and is not all `T`, shows as "" |
| `ArticleAdapter.GetView` | app/src/main/java/com/example/android/news_reader/ArticleAdapter.java:75-82 | the row at a position shows that article's title and section verbatim and its date cut at the first `T`, and fails exactly when the date computation fails |
| `Activity.IsConnected` | app/src/main/java/com/example/android/news_reader/MainActivity.java:186-192 | connected exactly for an active network that reports connected; a null network counts as disconnected |
| `Activity.UriBuilder.BuildUpon` | app/src/main/java/com/example/android/news_reader/MainActivity.java:149-151 | a builder starts from the base URL with no query parameters |
| `Activity.UriBuilder.AppendQueryParameter` | app/src/main/java/com/example/android/news_reader/MainActivity.java:153-158 | appending adds exactly one pair at the end and keeps the base and the earlier pairs |
| `Activity.OnCreateLoader` | app/src/main/java/com/example/android/news_reader/MainActivity.java:137-161 | the request has the base URL and exactly six parameters in order: from-date=2018-01-01, to-date=2018-12-31, show-tags=contributor, order-by, q, api-key; order-by and q are the stored settings or their defaults |
| `Activity.MainActivity.constructor` | app/src/main/java/com/example/android/news_reader/MainActivity.java:55-58 | a new screen lists nothing and shows no message |
| `Activity.MainActivity.OnCreate` | app/src/main/java/com/example/android/news_reader/MainActivity.java:61-117 | the adapter starts empty and the freshly inflated message is unset; a load starts exactly when the network is non-null and connected; otherwise the message becomes no-network |
| `Activity.MainActivity.OnLoadFinished` | app/src/main/java/com/example/android/news_reader/MainActivity.java:166-202 | the list becomes exactly the delivered articles, or nothing for null, discarding earlier contents; the message is no-network exactly when the list is empty and the network is not connected, and otherwise no-articles |
| `Activity.MainActivity.OnLoaderReset` | app/src/main/java/com/example/android/news_reader/MainActivity.java:205-208 | the list becomes empty and the message is unchanged |

## Left out

- The loader: `LoaderManager.initLoader` and the `ArticleLoader` class are not part of this model. Starting, cancelling, resetting, caching and redelivering a load, and the background thread it runs on, are not modelled. `onCreate` returns whether it starts a load. `onLoadFinished` takes the delivered list as an input.
- The two-second `Thread.sleep` before each fetch, and the `InterruptedException` it may raise. They affect timing only.
- Logging (`Log.e`, `printStackTrace`), including the second `getResponseCode` call made only for the log message.
- The connection set-up: the 10 s read timeout, the 15 s connect timeout and the GET method. A timeout is one of the `IOException`s an `Exchange` can report.
- UTF-8 decoding of the body. The stream is modelled as the characters it decodes to.
- The `org.json` parser and its rendering of non-string values. Both are inputs (`JsonLib`).
- Percent-encoding and `Uri.Builder.toString`. A request is its base and its ordered key/value pairs, and is not rendered to the URL string that `fetchArticleData` receives. `new URL(...)` is represented only by its yes/no judgement (`isWellFormed`).
- `Articles.NewArticle`: arguments are non-null strings. A Java `null` argument, which the constructor would also store unchanged, is not modelled, because the response path never passes one.
- `QueryUtils.MakeHttpRequest`, `QueryUtils.FetchArticleData`: only http(s) URLs are modelled. A well-formed URL of another scheme (`file:`, `ftp:`, `jar:`) makes the cast of `openConnection()` to `HttpURLConnection` (`QueryUtils.java:156`) throw `ClassCastException`, which neither method catches; the screen only ever builds https URLs (`MainActivity.java:46`, `MainActivity.java:149-161`).
- `QueryUtils.MakeHttpRequest`: a read that throws part way is modelled as a read that yields nothing. Whatever was read before the failure is discarded in the source as well.
- `ArticleAdapter.GetView`: a position outside the list is excluded by its precondition. The list view asks only for positions below the adapter's count.
- View work: inflation and view-holder reuse, `setText`, hiding the progress indicator, menus, the settings screen, and the item-click intent that opens an article's web URL.
- Settings and resource lookups. Stored settings are optional strings with their defaults as inputs. The API key from the build configuration is an opaque string.
