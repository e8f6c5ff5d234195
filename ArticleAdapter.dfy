/**
 * What one row of the article list shows: the title and section as they are,
 * and the publication date cut at its first `T` with Java's `String.split`.
 */
module ArticleAdapter {
  import opened Wrappers
  import opened Articles

  /** The separator between the date and the time of a publication timestamp. */
  const LOCATION_SEPARATOR: char := 'T'

  /**
   * `d` is the part of `s` before its first `sep`, or all of `s` when it
   * holds no `sep`: a prefix of `s`, free of `sep`, that ends where `s` ends
   * or at a `sep`.
   */
  predicate IsPrefixBefore(d: string, s: string, sep: char) {
    d <= s && sep !in d && (|d| == |s| || s[|d|] == sep)
  }

  /** True when every character of `s` is `sep` (vacuously for the empty text). */
  predicate AllSeparators(s: string, sep: char) {
    forall i :: 0 <= i < |s| ==> s[i] == sep
  }

  /** At most one text is the part of `s` before its first `sep`. */
  lemma PrefixBeforeUnique(d: string, d': string, s: string, sep: char)
    requires IsPrefixBefore(d, s, sep) && IsPrefixBefore(d', s, sep)
    ensures d == d'
  {
  }

  /**
   * `s` cut at every `sep`, keeping every piece, empty ones included: the
   * first piece is the text before the first `sep`.
   */
  function Fields(s: string, sep: char): (r: seq<string>)
    ensures |r| >= 1
    ensures IsPrefixBefore(r[0], s, sep)
  {
    if s == [] then [""]
    else
      var rest := Fields(s[1..], sep);
      if s[0] == sep then [""] + rest
      else [[s[0]] + rest[0]] + rest[1..]
  }

  /** Every piece of `Fields(s, sep)` is empty exactly when `s` is made only of `sep`. */
  lemma {:induction false} FieldsAllEmpty(s: string, sep: char)
    ensures (forall k :: 0 <= k < |Fields(s, sep)| ==> Fields(s, sep)[k] == "") <==> AllSeparators(s, sep)
  {
    if s != [] {
      FieldsAllEmpty(s[1..], sep);
      var f, rest := Fields(s, sep), Fields(s[1..], sep);
      if s[0] == sep {
        assert f == [""] + rest;
        if forall k :: 0 <= k < |rest| ==> rest[k] == "" {
          forall k | 0 <= k < |f| ensures f[k] == "" {
            if k > 0 { assert f[k] == rest[k - 1]; }
          }
        } else {
          var k :| 0 <= k < |rest| && rest[k] != "";
          assert f[k + 1] == rest[k];
        }
        assert AllSeparators(s, sep) <==> AllSeparators(s[1..], sep) by {
          assert forall i :: 0 < i < |s| ==> s[i] == s[1..][i - 1];
        }
      } else {
        assert f[0] != "";
      }
    }
  }

  /** `parts` without its trailing empty strings. */
  function DropTrailingEmpty(parts: seq<string>): (r: seq<string>)
    ensures r <= parts
    ensures r == [] <==> forall k :: 0 <= k < |parts| ==> parts[k] == ""
    ensures r == [] || r[|r| - 1] != ""
    ensures forall k :: |r| <= k < |parts| ==> parts[k] == ""
  {
    if parts != [] && parts[|parts| - 1] == "" then DropTrailingEmpty(parts[..|parts| - 1])
    else parts
  }

  /**
   * Java's `s.split(sep)` for a one-character separator: the whole text when
   * `sep` does not occur; otherwise the pieces between separators, with the
   * trailing empty pieces removed.
   */
  function Split(s: string, sep: char): (r: seq<string>) {
    if sep !in s then [s] else DropTrailingEmpty(Fields(s, sep))
  }

  /**
   * `split` returns no piece at all exactly for a non-empty text made only of
   * separators; otherwise its first piece is the text before the first `sep`.
   */
  lemma {:induction false} SplitFirst(s: string, sep: char)
    ensures |Split(s, sep)| == 0 <==> s != "" && AllSeparators(s, sep)
    ensures |Split(s, sep)| > 0 ==> IsPrefixBefore(Split(s, sep)[0], s, sep)
  {
    if sep in s {
      FieldsAllEmpty(s, sep);
      var fields := Fields(s, sep);
      var pieces := DropTrailingEmpty(fields);
      assert pieces == [] <==> forall k :: 0 <= k < |fields| ==> fields[k] == "";
      assert (forall k :: 0 <= k < |Fields(s, sep)| ==> Fields(s, sep)[k] == "") <==> AllSeparators(s, sep);
      assert Split(s, sep) == pieces;
    } else if s != "" {
      assert s[0] != sep;
    }
  }

  /**
   * The date a row shows: `rawDate.split("T")[0]`, or `None` when indexing
   * the split result fails because it is empty.
   */
  function ShownDate(rawDate: string): (r: Option<string>)
    ensures r.None? <==> rawDate != "" && AllSeparators(rawDate, LOCATION_SEPARATOR)
    ensures r.Some? ==> IsPrefixBefore(r.value, rawDate, LOCATION_SEPARATOR)
  {
    SplitFirst(rawDate, LOCATION_SEPARATOR);
    var dateParts := Split(rawDate, LOCATION_SEPARATOR);
    if |dateParts| == 0 then None else Some(dateParts[0])
  }

  /** A timestamp `date` + "T" + `time` with a non-empty date shows as that date: the time is dropped. */
  lemma TimestampShowsDate(date: string, time: string)
    requires date != "" && LOCATION_SEPARATOR !in date
    ensures ShownDate(date + [LOCATION_SEPARATOR] + time) == Some(date)
  {
    var raw := date + [LOCATION_SEPARATOR] + time;
    assert raw[|date|] == LOCATION_SEPARATOR;
    assert raw[0] == date[0];
    assert IsPrefixBefore(date, raw, LOCATION_SEPARATOR);
    PrefixBeforeUnique(ShownDate(raw).value, date, raw, LOCATION_SEPARATOR);
  }

  /** The timestamp "2018-05-01T10:00:00Z" shows as "2018-05-01". */
  lemma IsoTimestampShowsDate()
    ensures ShownDate("2018-05-01T10:00:00Z") == Some("2018-05-01")
  {
    assert "2018-05-01T10:00:00Z" == "2018-05-01" + [LOCATION_SEPARATOR] + "10:00:00Z";
    TimestampShowsDate("2018-05-01", "10:00:00Z");
  }

  /** An empty date shows as empty, and so does a date that starts with `T` and has something else in it. */
  lemma EmptyOrLeadingSeparatorShowsEmpty(rawDate: string)
    requires rawDate == "" || (rawDate[0] == LOCATION_SEPARATOR && !AllSeparators(rawDate, LOCATION_SEPARATOR))
    ensures ShownDate(rawDate) == Some("")
  {
  }

  /** What a list row displays. */
  datatype Row = Row(date: string, title: string, section: string)

  /**
   * `getView` for `position`: the row shows the title and section of the
   * article at that position unchanged and its date cut at the first `T`;
   * `None` when computing the date throws.
   */
  function GetView(articles: seq<Article>, position: nat): (r: Option<Row>)
    requires position < |articles|
    ensures r.None? <==> ShownDate(articles[position].pubDate).None?
    ensures r.Some? ==> r.value.title == articles[position].title
    ensures r.Some? ==> r.value.section == articles[position].section
    ensures r.Some? ==> IsPrefixBefore(r.value.date, articles[position].pubDate, LOCATION_SEPARATOR)
  {
    var currentArticle := articles[position];
    match ShownDate(currentArticle.pubDate)
    case None => None
    case Some(date) => Some(Row(date, currentArticle.title, currentArticle.section))
  }
}
