/** The news tool `fetch_indian_market_rss`: visit each feed URL in order,
    turn at most six entries of each into a fixed-format text record, and
    join the records into the one string the agent sees. */
module FeedAggregator {
  import opened Text
  import opened Sanitizer

  /** A feed entry as the loop sees it: title, link and description (the
      description already reduced to plain text), or an entry on which
      processing raises (a missing title, a parser error). */
  datatype Entry = Item(title: string, link: string, desc: string) | Raises

  /** What parsing one feed URL yields: its entries in feed order, or a
      failure of the whole fetch. */
  datatype Feed = Parsed(entries: seq<Entry>) | FetchFailed

  /** The two feeds the tool reads, in the order it reads them. */
  const RssUrls: seq<string> := [
    "http://livemint.com/rss/markets",
    "https://economictimes.indiatimes.com/rssfeeds/1977021501.cms"
  ]

  const MaxEntries: nat := 6
  const MaxDesc: nat := 200
  const NoNewsSentinel: string := "No current news found."
  const RecordPrefix: string := "SOURCE: "

  /** The source tag written into each record of a feed. */
  function SourceTag(url: string): string {
    if Contains(url, "livemint") then "Livemint" else "ET"
  }

  /** `" ".join(raw_desc.split())[:200]`: the description with its
      whitespace collapsed, cut to at most 200 characters. */
  function NormaliseDesc(raw: string): (d: string)
    ensures |d| <= MaxDesc
    ensures |d| == if |Collapse(raw)| <= MaxDesc then |Collapse(raw)| else MaxDesc
    ensures d == Collapse(raw)[..|d|]
    ensures Normalised(d)
  {
    var c := Collapse(raw);
    CollapseIsCollapsed(raw);
    NormalisedPrefix(c, if |c| <= MaxDesc then |c| else MaxDesc);
    Take(c, MaxDesc)
  }

  /** The f-string that lays out one record. */
  function FormatRecord(source: string, title: string, link: string, desc: string): (r: string)
    ensures StartsWith(r, RecordPrefix)
  {
    RecordPrefix + source + "\nTITLE: " + title + "\nLINK: " + link + "\nCONTENT: " + desc + "\n---"
  }

  /** The record of one entry: title and normalised description escaped,
      link kept verbatim. */
  function EntryRecord(source: string, e: Entry): string
    requires e.Item?
  {
    var cleanDesc := NormaliseDesc(e.desc);
    var sTitle := Escape(e.title);
    var sDesc := Escape(cleanDesc);
    var sLink := e.link;
    FormatRecord(source, sTitle, sLink, sDesc)
  }

  /** The record of each entry of a source; entries that raise have none. */
  function Renderer(source: string): Entry -> string {
    (e: Entry) => if e.Item? then EntryRecord(source, e) else ""
  }

  /** The rendered records of a run of entries, up to the first entry that
      raises. */
  function EntryRecords(render: Entry -> string, es: seq<Entry>): seq<string>
    decreases |es|
  {
    if es == [] || es[0].Raises? then []
    else [render(es[0])] + EntryRecords(render, es[1..])
  }

  /** The position of the first entry that raises, or the length when none does. */
  function FirstRaise(es: seq<Entry>): (k: nat)
    ensures k <= |es|
    ensures forall i :: 0 <= i < k ==> es[i].Item?
    ensures k < |es| ==> es[k].Raises?
    decreases |es|
  {
    if es == [] || es[0].Raises? then 0 else 1 + FirstRaise(es[1..])
  }

  /** What one source contributes: nothing if its fetch failed, otherwise the
      records of its first six entries up to the first one that raises. */
  function SourceRecords(url: string, feed: Feed): seq<string> {
    match feed
    case FetchFailed => []
    case Parsed(entries) => EntryRecords(Renderer(SourceTag(url)), Take(entries, MaxEntries))
  }

  /** The concatenation of `f(x)` for the elements `x` of `xs`, in order. */
  function FlatMap<T, U>(xs: seq<T>, f: T -> seq<U>): seq<U>
    decreases |xs|
  {
    if xs == [] then [] else FlatMap(xs[..|xs| - 1], f) + f(xs[|xs| - 1])
  }

  /** The records that the source at `url` contributes. */
  function Contribution(parse: string -> Feed): string -> seq<string> {
    url => SourceRecords(url, parse(url))
  }

  /** The records of all sources, in the order of `urls`. */
  function AllRecords(urls: seq<string>, parse: string -> Feed): seq<string> {
    FlatMap(urls, Contribution(parse))
  }

  /** The tool's return value for a list of records. */
  function AggregateText(records: seq<string>): string {
    if records == [] then NoNewsSentinel else Join(records, "\n")
  }

  /** `fetch_indian_market_rss(query)`, with `feedparser.parse` passed in as
      `parse`. The query is ignored, as in the tool. */
  method FetchIndianMarketRss(query: string, parse: string -> Feed) returns (text: string)
    ensures text == AggregateText(AllRecords(RssUrls, parse))
  {
    text := Aggregate(RssUrls, parse);
  }

  /** The body of the tool: the loop over the feed URLs and, inside it, the
      loop over the first six entries of each feed. */
  method Aggregate(rssUrls: seq<string>, parse: string -> Feed) returns (text: string)
    ensures text == AggregateText(AllRecords(rssUrls, parse))
  {
    var newsItems: seq<string> := [];
    for i := 0 to |rssUrls|
      invariant newsItems == AllRecords(rssUrls[..i], parse)
    {
      var url := rssUrls[i];
      var feed := parse(url);
      AllRecordsSnoc(rssUrls, parse, i);
      if feed.Parsed? {
        newsItems := AppendSource(newsItems, Renderer(SourceTag(url)), feed.entries);
      }
    }
    assert rssUrls[..|rssUrls|] == rssUrls;
    text := if newsItems == [] then NoNewsSentinel else Join(newsItems, "\n");
  }

  /** The inner loop: append the records of the first six entries of one
      parsed feed, stopping at the first entry that raises. `render` is the
      loop body's record layout for that feed, `Renderer(SourceTag(url))`. */
  method AppendSource(newsItems: seq<string>, render: Entry -> string, entries: seq<Entry>) returns (items: seq<string>)
    ensures items == newsItems + EntryRecords(render, Take(entries, MaxEntries))
  {
    items := newsItems;
    var batch := Take(entries, MaxEntries);
    var j := 0;
    while j < |batch|
      invariant 0 <= j <= |batch|
      invariant forall k :: 0 <= k < j ==> batch[k].Item?
      invariant |items| == |newsItems| + j
      invariant items[..|newsItems|] == newsItems
      invariant forall k :: 0 <= k < j ==> items[|newsItems| + k] == render(batch[k])
    {
      var entry := batch[j];
      if entry.Raises? {
        break;
      }
      var record := render(entry);
      items := items + [record];
      j := j + 1;
    }
    AppendSourceDone(render, newsItems, items, batch, j);
  }

  /** What the inner loop has built when it stops at entry `j`. */
  lemma AppendSourceDone(render: Entry -> string, pre: seq<string>, items: seq<string>, es: seq<Entry>, j: nat)
    requires j <= |es|
    requires forall k :: 0 <= k < j ==> es[k].Item?
    requires j < |es| ==> es[j].Raises?
    requires |items| == |pre| + j && items[..|pre|] == pre
    requires forall k :: 0 <= k < j ==> items[|pre| + k] == render(es[k])
    ensures items == pre + EntryRecords(render, es)
  {
    FirstRaiseIs(es, j);
    EntryRecordsUpToRaise(render, es);
    var rs := EntryRecords(render, es);
    assert forall k :: 0 <= k < |items| ==> items[k] == (pre + rs)[k];
  }

  // ---------------------------------------------------------------------------
  // Properties of the records

  /** The records of a run of entries are those of its entries before the
      first one that raises, in entry order. */
  lemma {:induction false} EntryRecordsUpToRaise(render: Entry -> string, es: seq<Entry>)
    ensures |EntryRecords(render, es)| == FirstRaise(es)
    ensures forall i :: 0 <= i < FirstRaise(es) ==> EntryRecords(render, es)[i] == render(es[i])
    decreases |es|
  {
    if es != [] && es[0].Item? {
      EntryRecordsUpToRaise(render, es[1..]);
      var rs := EntryRecords(render, es);
      assert rs == [render(es[0])] + EntryRecords(render, es[1..]);
      forall i | 0 < i < FirstRaise(es)
        ensures rs[i] == render(es[i])
      {
        assert es[1..][i - 1] == es[i];
      }
    }
  }

  /** The first six entries, up to the first that raises, each rendered. */
  lemma BatchRecords(render: Entry -> string, entries: seq<Entry>)
    ensures var k := FirstRaise(Take(entries, MaxEntries));
      && |EntryRecords(render, Take(entries, MaxEntries))| == k <= MaxEntries
      && k <= |entries|
      && forall i :: 0 <= i < k ==>
           (entries[i].Item? && EntryRecords(render, Take(entries, MaxEntries))[i] == render(entries[i]))
  {
    var batch := Take(entries, MaxEntries);
    EntryRecordsUpToRaise(render, batch);
    assert forall i :: 0 <= i < |batch| ==> batch[i] == entries[i];
  }

  lemma RendererIsEntryRecord(source: string, e: Entry)
    requires e.Item?
    ensures Renderer(source)(e) == EntryRecord(source, e)
  {
  }

  /** A source contributes at most six records: the records of its entries
      0..k-1, in feed order, where k is the first of its first six entries
      that raises (or the number of those entries when none raises). */
  lemma SourceRecordsInFeedOrder(url: string, entries: seq<Entry>)
    ensures var k := FirstRaise(Take(entries, MaxEntries));
      && |SourceRecords(url, Parsed(entries))| == k <= MaxEntries
      && k <= |entries|
      && forall i :: 0 <= i < k ==>
           (entries[i].Item? && SourceRecords(url, Parsed(entries))[i] == EntryRecord(SourceTag(url), entries[i]))
  {
    var render := Renderer(SourceTag(url));
    BatchRecords(render, entries);
    forall i | 0 <= i < FirstRaise(Take(entries, MaxEntries))
      ensures render(entries[i]) == EntryRecord(SourceTag(url), entries[i])
    {
      RendererIsEntryRecord(SourceTag(url), entries[i]);
    }
  }

  /** If entry k (one of the first six) is the first that raises, the records
      of entries 0..k-1 stay and the later entries are dropped. */
  lemma RaiseKeepsEarlierRecords(url: string, entries: seq<Entry>, k: nat)
    requires k < |entries| && k < MaxEntries
    requires entries[k].Raises?
    requires forall i :: 0 <= i < k ==> entries[i].Item?
    ensures |SourceRecords(url, Parsed(entries))| == k
    ensures forall i :: 0 <= i < k ==>
      SourceRecords(url, Parsed(entries))[i] == EntryRecord(SourceTag(url), entries[i])
  {
    var batch := Take(entries, MaxEntries);
    assert forall i :: 0 <= i <= k ==> batch[i] == entries[i];
    FirstRaiseIs(batch, k);
    SourceRecordsInFeedOrder(url, entries);
  }

  /** `FirstRaise` is determined by its contract. */
  lemma {:induction false} FirstRaiseIs(es: seq<Entry>, k: nat)
    requires k <= |es|
    requires forall i :: 0 <= i < k ==> es[i].Item?
    requires k < |es| ==> es[k].Raises?
    ensures FirstRaise(es) == k
    decreases k
  {
    if k > 0 {
      FirstRaiseIs(es[1..], k - 1);
    }
  }

  /** At most six records come from any one source; a failed fetch gives none. */
  lemma AtMostSixPerSource(url: string, feed: Feed)
    ensures |SourceRecords(url, feed)| <= MaxEntries
    ensures feed.FetchFailed? ==> SourceRecords(url, feed) == []
  {
    if feed.Parsed? {
      SourceRecordsInFeedOrder(url, feed.entries);
    }
  }

  lemma {:induction false} FlatMapAppend<T, U>(a: seq<T>, b: seq<T>, f: T -> seq<U>)
    ensures FlatMap(a + b, f) == FlatMap(a, f) + FlatMap(b, f)
    decreases |b|
  {
    if b == [] {
      assert a + b == a;
    } else {
      var ab := a + b;
      var b' := b[..|b| - 1];
      assert ab[..|ab| - 1] == a + b';
      assert ab[|ab| - 1] == b[|b| - 1];
      FlatMapAppend(a, b', f);
    }
  }

  /** The records of the URLs up to and including one more source. */
  lemma AllRecordsSnoc(urls: seq<string>, parse: string -> Feed, i: nat)
    requires i < |urls|
    ensures AllRecords(urls[..i + 1], parse) == AllRecords(urls[..i], parse) + SourceRecords(urls[i], parse(urls[i]))
  {
    var p := urls[..i + 1];
    assert p[..|p| - 1] == urls[..i];
    assert p[|p| - 1] == urls[i];
    assert Contribution(parse)(urls[i]) == SourceRecords(urls[i], parse(urls[i]));
  }

  /** Sources are visited in list order: the records of two lists of URLs
      are the records of the first followed by those of the second. */
  lemma AllRecordsAppend(a: seq<string>, b: seq<string>, parse: string -> Feed)
    ensures AllRecords(a + b, parse) == AllRecords(a, parse) + AllRecords(b, parse)
  {
    FlatMapAppend(a, b, Contribution(parse));
  }

  /** What a source contributes depends on that source alone: a failure in
      one source leaves the records of the sources before and after it alone. */
  lemma SourceIsolation(urls: seq<string>, parse: string -> Feed, i: nat)
    requires i < |urls|
    ensures AllRecords(urls, parse) ==
      AllRecords(urls[..i], parse) + SourceRecords(urls[i], parse(urls[i])) + AllRecords(urls[i + 1..], parse)
  {
    assert urls == urls[..i] + [urls[i]] + urls[i + 1..];
    AllRecordsAppend(urls[..i] + [urls[i]], urls[i + 1..], parse);
    AllRecordsAppend(urls[..i], [urls[i]], parse);
    assert AllRecords([urls[i]], parse) == SourceRecords(urls[i], parse(urls[i])) by {
      assert [urls[i]][..0] == [];
    }
  }

  lemma AllRecordsLast(urls: seq<string>, parse: string -> Feed)
    requires urls != []
    ensures AllRecords(urls, parse) ==
      AllRecords(urls[..|urls| - 1], parse) + SourceRecords(urls[|urls| - 1], parse(urls[|urls| - 1]))
  {
    AllRecordsSnoc(urls, parse, |urls| - 1);
    assert urls[..|urls|] == urls;
  }

  /** No more than six records per source in all. */
  lemma {:induction false} AllRecordsBound(urls: seq<string>, parse: string -> Feed)
    ensures |AllRecords(urls, parse)| <= MaxEntries * |urls|
    decreases |urls|
  {
    if urls != [] {
      var last := urls[|urls| - 1];
      AllRecordsLast(urls, parse);
      AllRecordsBound(urls[..|urls| - 1], parse);
      AtMostSixPerSource(last, parse(last));
    }
  }

  /** Every record starts with `SOURCE: `. */
  lemma {:induction false} RecordsStartWithPrefix(urls: seq<string>, parse: string -> Feed)
    ensures forall r :: r in AllRecords(urls, parse) ==> StartsWith(r, RecordPrefix)
    decreases |urls|
  {
    if urls != [] {
      var last := urls[|urls| - 1];
      AllRecordsLast(urls, parse);
      RecordsStartWithPrefix(urls[..|urls| - 1], parse);
      var feed := parse(last);
      if feed.Parsed? {
        SourceRecordsInFeedOrder(last, feed.entries);
      }
    }
  }

  lemma JoinedRecordsAreNotSentinel(rs: seq<string>)
    requires rs != [] && StartsWith(rs[0], RecordPrefix)
    ensures Join(rs, "\n") != NoNewsSentinel
  {
    JoinStartsWithFirst(rs, "\n");
    var text := Join(rs, "\n");
    assert text[0] == rs[0][0] == RecordPrefix[0];
  }

  /** The tool returns the sentinel exactly when no record was produced. */
  lemma SentinelIffNoRecords(urls: seq<string>, parse: string -> Feed)
    ensures AggregateText(AllRecords(urls, parse)) == NoNewsSentinel <==> AllRecords(urls, parse) == []
  {
    var rs := AllRecords(urls, parse);
    if rs != [] {
      RecordsStartWithPrefix(urls, parse);
      assert rs[0] in rs;
      JoinedRecordsAreNotSentinel(rs);
    }
  }

  /** If every fetch fails, the tool returns the sentinel rather than an
      empty string or an error. */
  lemma {:induction false} AllFailedGivesSentinel(urls: seq<string>, parse: string -> Feed)
    requires forall i :: 0 <= i < |urls| ==> parse(urls[i]).FetchFailed?
    ensures AllRecords(urls, parse) == []
    ensures AggregateText(AllRecords(urls, parse)) == NoNewsSentinel
    decreases |urls|
  {
    if urls != [] {
      AllRecordsLast(urls, parse);
      AllFailedGivesSentinel(urls[..|urls| - 1], parse);
    }
  }

  /** Records lay out each field on its own line; title and description
      are HTML-safe and unescape to the entry's title and normalised
      description. */
  lemma RecordFieldsAreSafe(source: string, e: Entry)
    requires e.Item?
    ensures var title, desc := Escape(e.title), Escape(NormaliseDesc(e.desc));
      && EntryRecord(source, e) == FormatRecord(source, title, e.link, desc)
      && Safe(title) && Unescape(title) == e.title
      && Safe(desc) && Unescape(desc) == NormaliseDesc(e.desc)
  {
    EscapeIsSafe(e.title);
    UnescapeEscape(e.title);
    EscapeIsSafe(NormaliseDesc(e.desc));
    UnescapeEscape(NormaliseDesc(e.desc));
  }

  /** The cut at 200 characters can leave a trailing space: collapsing
      keeps the space between the 199th character and the next word, and
      the cut drops the word. */
  lemma TrailingSpaceAfterCut()
    ensures NormaliseDesc(seq(199, _ => 'a') + " b") == seq(199, _ => 'a') + " "
  {
    var a := seq(199, _ => 'a');
    var raw := a + " b";
    assert Collapsed(raw) by {
      assert forall k :: 0 <= k < 199 ==> raw[k] == 'a';
      assert raw[199] == ' ' && raw[200] == 'b';
    }
    CollapseIdempotent(raw);
    assert raw[..MaxDesc] == a + " ";
  }

  /** The livemint feed is tagged `Livemint`. */
  lemma LivemintTag()
    ensures SourceTag(RssUrls[0]) == "Livemint"
  {
    LivemintUrlParts();
    OccursBetween("http://", "livemint", ".com/rss/markets");
    ContainsAt(RssUrls[0], "livemint", 7);
  }

  lemma LivemintUrlParts()
    ensures RssUrls[0] == "http://" + "livemint" + ".com/rss/markets"
  {
  }

  /** Two feeds of three entries each that all parse give six records. */
  lemma ThreeAndThreeGiveSix(urls: seq<string>, parse: string -> Feed)
    requires |urls| == 2
    requires forall i :: 0 <= i < 2 ==> parse(urls[i]).Parsed? && |parse(urls[i]).entries| == 3
    requires forall i, k :: 0 <= i < 2 && 0 <= k < 3 ==> parse(urls[i]).entries[k].Item?
    ensures |AllRecords(urls, parse)| == 6
  {
    ThreeItemsGiveThree(urls[0], parse(urls[0]).entries);
    ThreeItemsGiveThree(urls[1], parse(urls[1]).entries);
    TwoSources(urls, parse);
  }

  /** With two URLs, as the tool has, the result is the first source's
      records followed by the second's. */
  lemma TwoSources(urls: seq<string>, parse: string -> Feed)
    requires |urls| == 2
    ensures AllRecords(urls, parse) ==
      SourceRecords(urls[0], parse(urls[0])) + SourceRecords(urls[1], parse(urls[1]))
  {
    var c := Contribution(parse);
    FlatMapTwo(urls, c);
    assert c(urls[0]) == SourceRecords(urls[0], parse(urls[0]));
    assert c(urls[1]) == SourceRecords(urls[1], parse(urls[1]));
  }

  lemma FlatMapTwo<T, U>(xs: seq<T>, f: T -> seq<U>)
    requires |xs| == 2
    ensures FlatMap(xs, f) == f(xs[0]) + f(xs[1])
  {
    var p := xs[..1];
    assert xs[..|xs| - 1] == p && p[..0] == [];
    assert FlatMap(p, f) == [] + f(xs[0]);
  }

  lemma ThreeItemsGiveThree(url: string, es: seq<Entry>)
    requires |es| == 3 && forall k :: 0 <= k < 3 ==> es[k].Item?
    ensures |SourceRecords(url, Parsed(es))| == 3
  {
    SourceRecordsInFeedOrder(url, es);
    assert Take(es, MaxEntries) == es;
    FirstRaiseIs(es, 3);
  }
}
