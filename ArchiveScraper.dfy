/** The archive scraper (scrape.py): it builds a capture URL into the web
    archive of www.rijksoverheid.nl, turns the `div.brick` elements of the
    archived news listing into article records, attaches each article's
    text, and partitions the records by publication day for saving.

    The HTML is abstracted: a brick is the three look-ups the parser makes
    in it, an article page the two containers it looks for. */
module ArchiveScraper {
  import opened Wrappers
  import opened Text
  import opened Dates
  import opened Seqs

  // ---------------------------------------------------------------------
  // The capture URL
  // ---------------------------------------------------------------------

  const ArchivePrefix := "https://archief28.sitearchief.nl/archives/sitearchief/"
  const SiteSuffix := "/https://www.rijksoverheid.nl"

  /** The largest number `random.randint(0, 999999)` can draw. */
  const MaxCapture := 999999

  /** `get_root_url(date)`, with the random capture number passed in. The
      URL is the archive prefix, the date, the capture number in plain
      decimal (one to six digits, not zero-padded, reading back as the
      number) and the site's own address. */
  function RootUrl(date: string, capture: nat): (r: string)
    requires capture <= MaxCapture
    ensures |ArchivePrefix| + |date| < |r| - |SiteSuffix|
    ensures r[..|ArchivePrefix|] == ArchivePrefix
    ensures r[|ArchivePrefix|..|ArchivePrefix| + |date|] == date
    ensures r[|r| - |SiteSuffix|..] == SiteSuffix
    ensures var lo, hi := |ArchivePrefix| + |date|, |r| - |SiteSuffix|;
            lo < hi <= lo + 6 && AllDigits(r[lo..hi]) && DecValue(r[lo..hi]) == capture
            && (r[lo] == '0' ==> capture == 0 && hi == lo + 1)
  {
    assert Pow10(6) == 1000000;
    DecimalLength(capture, 6);
    var r := ArchivePrefix + date + Decimal(capture) + SiteSuffix;
    assert r[|ArchivePrefix| + |date|..|r| - |SiteSuffix|] == Decimal(capture);
    r
  }

  // ---------------------------------------------------------------------
  // The listing: extract_news_articles
  // ---------------------------------------------------------------------

  /** The first `<a>` of a brick; `href` is its attribute when it has one. */
  datatype Anchor = Anchor(href: Option<string>)

  /** One `div.brick` of the listing page, as the parser sees it: its first
      anchor, the text of its first `h3` and the text of its first
      `span.publDate`, each absent when the brick has no such element. */
  datatype Brick = Brick(anchor: Option<Anchor>, heading: Option<string>, publDate: Option<string>)

  /** An article record: the stub read from the listing and, once fetched,
      the article's text (`full_content`). */
  datatype NewsArticle = NewsArticle(link: string, title: string, publDate: ValidDateTime,
                                     fullContent: Option<string>)

  /** What aborts the listing parse: an anchor without `href` (KeyError) or
      a publication date `strptime` rejects (ValueError). */
  datatype ListingError = MissingHref | BadPublDate(text: string)

  /** The test `a_tag and h3_tag and publ_date_tag`: a found element is
      always truthy, so the brick must have all three. */
  predicate Complete(b: Brick) {
    b.anchor.Some? && b.heading.Some? && b.publDate.Some?
  }

  /** The record a complete brick becomes, or the error it raises. The
      record carries exactly the brick's link, its stripped title and the
      date its stripped date text denotes, and no content yet. */
  function BrickArticle(b: Brick): (r: Result<NewsArticle, ListingError>)
    requires Complete(b)
    ensures r.Err? <==> b.anchor.value.href.None? || ParsePublDate(Strip(b.publDate.value)).None?
    ensures r.Err? ==> r.error == if b.anchor.value.href.None? then MissingHref
                                  else BadPublDate(Strip(b.publDate.value))
    ensures r.Ok? ==> r.value.link == b.anchor.value.href.value
                      && r.value.title == Strip(b.heading.value)
                      && ParsePublDate(Strip(b.publDate.value)) == Some(r.value.publDate)
                      && r.value.fullContent.None?
  {
    match b.anchor.value.href
    case None => Err(MissingHref)
    case Some(link) =>
      var text := Strip(b.publDate.value);
      match ParsePublDate(text)
      case None => Err(BadPublDate(text))
      case Some(t) =>
        Ok(NewsArticle(link, Strip(b.heading.value), t, None))
  }

  /** The positions of the complete bricks, in increasing order: every
      complete brick is listed, and nothing else. */
  function CompleteIndices(bricks: seq<Brick>): (ix: seq<nat>)
    ensures |ix| <= |bricks|
    ensures forall k :: 0 <= k < |ix| ==> ix[k] < |bricks| && Complete(bricks[ix[k]])
    ensures forall k, l :: 0 <= k < l < |ix| ==> ix[k] < ix[l]
    ensures forall i :: 0 <= i < |bricks| && Complete(bricks[i]) ==> i in ix
  {
    if bricks == [] then []
    else
      var init := bricks[..|bricks| - 1];
      var ix := CompleteIndices(init);
      assert forall k :: 0 <= k < |ix| ==> bricks[ix[k]] == init[ix[k]];
      if Complete(bricks[|bricks| - 1]) then ix + [|bricks| - 1] else ix
  }

  /** What parsing the bricks in order gives: the records of the complete
      bricks, or the first error a complete brick raises. */
  function Extracted(bricks: seq<Brick>): (r: Result<seq<NewsArticle>, ListingError>)
    ensures r.Ok? ==> |r.value| <= |bricks|
  {
    if bricks == [] then Ok([])
    else
      var init, b := bricks[..|bricks| - 1], bricks[|bricks| - 1];
      match Extracted(init)
      case Err(e) => Err(e)
      case Ok(news) =>
        if !Complete(b) then Ok(news)
        else
          match BrickArticle(b)
          case Err(e) => Err(e)
          case Ok(a) => Ok(news + [a])
  }

  /** Once a brick has raised, the bricks after it change nothing. */
  lemma {:induction false} ExtractedErrorPersists(bricks: seq<Brick>, i: nat)
    requires i <= |bricks| && Extracted(bricks[..i]).Err?
    ensures Extracted(bricks) == Extracted(bricks[..i])
  {
    if i < |bricks| {
      var init := bricks[..|bricks| - 1];
      assert init[..i] == bricks[..i];
      ExtractedErrorPersists(init, i);
    } else {
      assert bricks[..i] == bricks;
    }
  }

  /** The parse succeeds exactly when no complete brick raises; incomplete
      bricks never cause an error. */
  lemma {:induction false} ExtractedOkIff(bricks: seq<Brick>)
    ensures Extracted(bricks).Ok? <==>
            forall i :: 0 <= i < |bricks| && Complete(bricks[i]) ==> BrickArticle(bricks[i]).Ok?
  {
    if bricks != [] {
      var init := bricks[..|bricks| - 1];
      ExtractedOkIff(init);
      assert forall i :: 0 <= i < |init| ==> init[i] == bricks[i];
    }
  }

  /** One brick more: a complete brick adds its own record, any other
      brick nothing. */
  lemma ExtractedSnoc(bricks: seq<Brick>)
    requires bricks != [] && Extracted(bricks).Ok?
    ensures var init, b := bricks[..|bricks| - 1], bricks[|bricks| - 1];
      && Extracted(init).Ok?
      && Extracted(bricks).value == (if Complete(b) then Extracted(init).value + [BrickArticle(b).value]
                                     else Extracted(init).value)
      && CompleteIndices(bricks) == (if Complete(b) then CompleteIndices(init) + [|bricks| - 1]
                                     else CompleteIndices(init))
  {
  }

  /** On success there is one record per complete brick, in brick order,
      each the record of its own brick: at most as many records as bricks. */
  lemma {:induction false} ExtractedRecords(bricks: seq<Brick>)
    requires Extracted(bricks).Ok?
    ensures |Extracted(bricks).value| == |CompleteIndices(bricks)| <= |bricks|
    ensures forall k :: 0 <= k < |Extracted(bricks).value| ==>
              BrickArticle(bricks[CompleteIndices(bricks)[k]]) == Ok(Extracted(bricks).value[k])
  {
    if bricks != [] {
      var init, b := bricks[..|bricks| - 1], bricks[|bricks| - 1];
      ExtractedRecords(init);
      ExtractedSnoc(bricks);
      var rel := (x: Brick, a: NewsArticle) => Complete(x) && BrickArticle(x) == Ok(a);
      assert bricks == init + [b];
      if Complete(b) {
        IndexedSnoc(init, Extracted(init).value, CompleteIndices(init), b, BrickArticle(b).value, rel);
      } else {
        IndexedExtend(init, Extracted(init).value, CompleteIndices(init), b, rel);
      }
    }
  }

  /** On failure the error is that of a complete brick before which no
      complete brick raised. */
  lemma {:induction false} ExtractedFirstError(bricks: seq<Brick>)
    requires Extracted(bricks).Err?
    ensures exists i :: 0 <= i < |bricks| && Complete(bricks[i])
                        && BrickArticle(bricks[i]) == Err(Extracted(bricks).error)
                        && forall j :: 0 <= j < i && Complete(bricks[j]) ==> BrickArticle(bricks[j]).Ok?
  {
    var init := bricks[..|bricks| - 1];
    if Extracted(init).Err? {
      ExtractedFirstError(init);
      var i :| 0 <= i < |init| && Complete(init[i])
               && BrickArticle(init[i]) == Err(Extracted(init).error)
               && forall j :: 0 <= j < i && Complete(init[j]) ==> BrickArticle(init[j]).Ok?;
      assert bricks[i] == init[i];
      assert forall j :: 0 <= j < i ==> bricks[j] == init[j];
    } else {
      ExtractedOkIff(init);
      assert forall j :: 0 <= j < |init| ==> bricks[j] == init[j];
    }
  }

  /** `extract_news_articles`: walks the bricks in order, appending the
      record of each complete one; it stops at the first error. */
  method ExtractNewsArticles(bricks: seq<Brick>) returns (r: Result<seq<NewsArticle>, ListingError>)
    ensures r == Extracted(bricks)
  {
    var news: seq<NewsArticle> := [];
    for i := 0 to |bricks|
      invariant Extracted(bricks[..i]) == Ok(news)
    {
      assert bricks[..i + 1][..i] == bricks[..i];
      var b := bricks[i];
      if Complete(b) {
        var one := BrickArticle(b);
        if one.Err? {
          ExtractedErrorPersists(bricks, i + 1);
          return Err(one.error);
        }
        news := news + [one.value];
      }
    }
    assert bricks[..|bricks|] == bricks;
    r := Ok(news);
  }

  // ---------------------------------------------------------------------
  // The article text: extract_article_content
  // ---------------------------------------------------------------------

  /** An article page, as the content extractor sees it: the text of its
      `div` with class "article content" and of its `div#content.article`,
      each absent when the page has no such element. */
  datatype ArticlePage = ArticlePage(articleContent: Option<string>, contentArticle: Option<string>)

  /** `extract_article_content`: the stripped text of the first container
      found, the primary one first; the empty string when neither exists. */
  function ExtractArticleContent(page: ArticlePage): (r: string)
    ensures page.articleContent.Some? ==> r == Strip(page.articleContent.value)
    ensures page.articleContent.None? && page.contentArticle.Some? ==> r == Strip(page.contentArticle.value)
    ensures page.articleContent.None? && page.contentArticle.None? ==> r == ""
  {
    var container := if page.articleContent.Some? then page.articleContent else page.contentArticle;
    match container
    case Some(text) => Strip(text)
    case None => ""
  }

  /** The extracted text never starts or ends with whitespace. */
  lemma ArticleContentTrimmed(page: ArticlePage)
    ensures var r := ExtractArticleContent(page);
      r == [] || (!IsSpace(r[0]) && !IsSpace(r[|r| - 1]))
  {
    if page.articleContent.Some? {
      StripSpec(page.articleContent.value);
    } else if page.contentArticle.Some? {
      StripSpec(page.contentArticle.value);
    }
  }

  /** The record with `full_content` set from the page its link leads to. */
  function WithFullContent(a: NewsArticle, fetch: string -> ArticlePage): (r: NewsArticle)
    ensures r.link == a.link && r.title == a.title && r.publDate == a.publDate
    ensures r.fullContent.Some?
  {
    a.(fullContent := Some(ExtractArticleContent(fetch(a.link))))
  }

  /** The loop of `scrape_and_save_news_articles` that sets `full_content`
      on every record in place; `fetch` stands for fetching the page a link
      leads to. Nothing but `full_content` changes. */
  method AttachFullContent(news: array<NewsArticle>, fetch: string -> ArticlePage)
    modifies news
    ensures forall i :: 0 <= i < news.Length ==> news[i] == WithFullContent(old(news[i]), fetch)
  {
    ghost var before := news[..];
    for i := 0 to news.Length
      invariant forall j :: 0 <= j < i ==> news[j] == WithFullContent(before[j], fetch)
      invariant forall j :: i <= j < news.Length ==> news[j] == before[j]
    {
      var updated := WithFullContent(news[i], fetch);
      news[i] := updated;
    }
  }

  // ---------------------------------------------------------------------
  // Partitioning by day: save_to_json
  // ---------------------------------------------------------------------

  /** The key an article is filed under: its publication day, "%Y-%m-%d". */
  function Key(a: NewsArticle): string {
    DateKey(a.publDate)
  }

  /** Two articles are filed together exactly when they were published on
      the same day. */
  lemma KeySameDay(a: NewsArticle, b: NewsArticle)
    ensures Key(a) == Key(b) <==>
      a.publDate.year == b.publDate.year && a.publDate.month == b.publDate.month && a.publDate.day == b.publDate.day
  {
    DateKeySameDay(a.publDate, b.publDate);
  }

  // The partition is stated for any key function, so that its proofs do not
  // depend on how a day key is rendered.

  /** The elements of `xs` filed under `k`, in input order. */
  function Bucket<T>(xs: seq<T>, key: T -> string, k: string): seq<T> {
    if xs == [] then []
    else
      var init, last := xs[..|xs| - 1], xs[|xs| - 1];
      Bucket(init, key, k) + (if key(last) == k then [last] else [])
  }

  /** The distinct keys of `xs` in order of first appearance, the order in
      which a Python dictionary receives them. */
  function KeyOrder<T>(xs: seq<T>, key: T -> string): seq<string> {
    if xs == [] then []
    else
      var o := KeyOrder(xs[..|xs| - 1], key);
      var k := key(xs[|xs| - 1]);
      if k in o then o else o + [k]
  }

  /** A bucket holds exactly the elements of its key. */
  lemma {:induction false} BucketMembers<T>(xs: seq<T>, key: T -> string, k: string)
    ensures forall a :: a in Bucket(xs, key, k) <==> a in xs && key(a) == k
  {
    if xs != [] {
      var init, last := xs[..|xs| - 1], xs[|xs| - 1];
      BucketMembers(init, key, k);
      assert xs == init + [last];
    }
  }

  /** A key is listed exactly when its bucket is non-empty, i.e. when some
      element has that key; and no key is listed twice. */
  lemma {:induction false} KeyOrderKeys<T>(xs: seq<T>, key: T -> string)
    ensures Distinct(KeyOrder(xs, key))
    ensures forall k :: k in KeyOrder(xs, key) <==> Bucket(xs, key, k) != []
  {
    if xs != [] {
      KeyOrderKeys(xs[..|xs| - 1], key);
    }
  }

  /** The loop of `save_to_json`: a dictionary from day key to the articles
      of that day, and the order its keys were inserted in. Every bucket
      holds exactly its day's articles in input order, every article lands
      in the bucket of its own day, and there is no empty bucket. */
  method SaveToJson(news: seq<NewsArticle>) returns (buckets: map<string, seq<NewsArticle>>, order: seq<string>)
    ensures order == KeyOrder(news, Key)
    ensures forall k :: k in buckets <==> k in order
    ensures forall k :: k in buckets ==> buckets[k] == Bucket(news, Key, k) && buckets[k] != []
    ensures forall a :: a in news ==> Key(a) in buckets && a in buckets[Key(a)]
    ensures multiset(Collected(buckets, order)) == multiset(news)
  {
    buckets, order := map[], [];
    for i := 0 to |news|
      invariant order == KeyOrder(news[..i], Key)
      invariant forall k :: k in buckets <==> k in order
      invariant forall k :: k in buckets ==> buckets[k] == Bucket(news[..i], Key, k)
    {
      assert news[..i + 1][..i] == news[..i];
      var k := Key(news[i]);
      if k !in buckets {
        KeyOrderKeys(news[..i], Key);
        buckets := buckets[k := []];
        order := order + [k];
      }
      buckets := buckets[k := buckets[k] + [news[i]]];
    }
    assert news[..|news|] == news;
    KeyOrderKeys(news, Key);
    forall a | a in news
      ensures Key(a) in buckets && a in buckets[Key(a)]
    {
      BucketMembers(news, Key, Key(a));
    }
    CollectedBuckets(news, Key, buckets, order);
    BucketsPartition(news, Key);
  }

  /** The lists of `buckets` under `keys`, concatenated in key order: the
      articles in the order they are written out. */
  function Collected<T>(buckets: map<string, seq<T>>, keys: seq<string>): seq<T>
    requires forall k :: k in keys ==> k in buckets
  {
    if keys == [] then [] else buckets[keys[0]] + Collected(buckets, keys[1..])
  }

  /** All buckets of `xs` under `keys`, concatenated in key order. */
  function Flatten<T>(xs: seq<T>, key: T -> string, keys: seq<string>): seq<T> {
    if keys == [] then [] else Bucket(xs, key, keys[0]) + Flatten(xs, key, keys[1..])
  }

  lemma {:induction false} CollectedBuckets<T>(xs: seq<T>, key: T -> string, buckets: map<string, seq<T>>,
                                               keys: seq<string>)
    requires forall k :: k in keys ==> k in buckets && buckets[k] == Bucket(xs, key, k)
    ensures Collected(buckets, keys) == Flatten(xs, key, keys)
  {
    if keys != [] {
      CollectedBuckets(xs, key, buckets, keys[1..]);
    }
  }

  lemma {:induction false} FlattenAppend<T>(xs: seq<T>, key: T -> string, a: seq<string>, b: seq<string>)
    ensures Flatten(xs, key, a + b) == Flatten(xs, key, a) + Flatten(xs, key, b)
  {
    if a != [] {
      assert (a + b)[0] == a[0] && (a + b)[1..] == a[1..] + b;
      FlattenAppend(xs, key, a[1..], b);
    } else {
      assert a + b == b;
    }
  }

  /** One more element adds itself once to the buckets of distinct keys if
      its key is among them, and changes nothing otherwise. */
  lemma {:induction false} FlattenSnoc<T>(xs: seq<T>, key: T -> string, x: T, keys: seq<string>)
    requires Distinct(keys)
    ensures multiset(Flatten(xs + [x], key, keys))
            == multiset(Flatten(xs, key, keys)) + (if key(x) in keys then multiset{x} else multiset{})
  {
    if keys != [] {
      var k0, rest := keys[0], keys[1..];
      assert (xs + [x])[..|xs|] == xs;
      assert Bucket(xs + [x], key, k0) == Bucket(xs, key, k0) + (if key(x) == k0 then [x] else []);
      assert Distinct(rest);
      FlattenSnoc(xs, key, x, rest);
      assert key(x) == k0 ==> key(x) !in rest;
      assert key(x) in keys <==> key(x) == k0 || key(x) in rest;
    }
  }

  /** Partitioning loses and duplicates nothing: the buckets, taken in key
      order, hold exactly the input elements. */
  lemma {:induction false} BucketsPartition<T>(xs: seq<T>, key: T -> string)
    ensures multiset(Flatten(xs, key, KeyOrder(xs, key))) == multiset(xs)
  {
    if xs != [] {
      var init, x := xs[..|xs| - 1], xs[|xs| - 1];
      InitLast(xs);
      var o := KeyOrder(init, key);
      BucketsPartition(init, key);
      KeyOrderKeys(init, key);
      FlattenSnoc(init, key, x, o);
      if key(x) !in o {
        assert KeyOrder(xs, key) == o + [key(x)];
        FlattenAppend(xs, key, o, [key(x)]);
        assert Bucket(init, key, key(x)) == [];
        assert Flatten(xs, key, [key(x)]) == Bucket(xs, key, key(x)) == [x];
        calc {
          multiset(Flatten(xs, key, o + [key(x)]));
          multiset(Flatten(xs, key, o) + [x]);
          multiset(Flatten(init, key, o)) + multiset{x};
          multiset(init) + multiset{x};
        }
      } else {
        assert KeyOrder(xs, key) == o;
        calc {
          multiset(Flatten(xs, key, o));
          multiset(Flatten(init, key, o)) + multiset{x};
          multiset(init) + multiset{x};
        }
      }
    }
  }

  /** So the bucket sizes add up to the number of elements. */
  lemma BucketsPartitionSize<T>(xs: seq<T>, key: T -> string)
    ensures |Flatten(xs, key, KeyOrder(xs, key))| == |xs|
  {
    var flat := Flatten(xs, key, KeyOrder(xs, key));
    BucketsPartition(xs, key);
    assert |flat| == |multiset(flat)| == |multiset(xs)| == |xs|;
  }

  // ---------------------------------------------------------------------
  // The whole run: scrape_and_save_news_articles
  // ---------------------------------------------------------------------

  /** What a run leaves behind: the listing URL it read and the day-keyed
      dictionary it writes, with its key order. */
  datatype Saved = Saved(listingUrl: string, buckets: map<string, seq<NewsArticle>>, order: seq<string>)

  /** The records with `full_content` set, as the loop leaves them. */
  function WithFullContents(news: seq<NewsArticle>, fetch: string -> ArticlePage): (r: seq<NewsArticle>)
    ensures |r| == |news|
  {
    seq(|news|, i requires 0 <= i < |news| => WithFullContent(news[i], fetch))
  }

  /** The records handed to the loop that sets `full_content`, in place
      in an array, and read back. */
  method FillContents(stubs: seq<NewsArticle>, fetch: string -> ArticlePage) returns (records: seq<NewsArticle>)
    ensures records == WithFullContents(stubs, fetch)
  {
    var news := new NewsArticle[|stubs|](i requires 0 <= i < |stubs| => stubs[i]);
    AttachFullContent(news, fetch);
    records := news[..];
  }

  /** After that loop, whatever lands in a bucket has its text. */
  lemma BucketsHaveContent(stubs: seq<NewsArticle>, fetch: string -> ArticlePage, k: string)
    ensures forall a :: a in Bucket(WithFullContents(stubs, fetch), Key, k) ==> a.fullContent.Some? && Key(a) == k
  {
    BucketMembers(WithFullContents(stubs, fetch), Key, k);
  }

  /** `scrape_and_save_news_articles(date, ...)` for one capture number,
      with the listing page as `listing` and the article pages as `fetch`.
      It fails exactly when the listing parse fails. Otherwise it saves the
      records of the complete bricks, each with its text, partitioned by
      day: one saved record per complete brick, and every saved record has
      its `full_content`. */
  method ScrapeAndSave(date: string, capture: nat, listing: seq<Brick>, fetch: string -> ArticlePage)
    returns (r: Result<Saved, ListingError>)
    requires capture <= MaxCapture
    ensures r.Err? <==> Extracted(listing).Err?
    ensures r.Err? ==> r.error == Extracted(listing).error
    ensures r.Ok? ==> r.value.listingUrl == RootUrl(date, capture) + "/actueel"
    ensures r.Ok? ==> var records := WithFullContents(Extracted(listing).value, fetch);
                      r.value.order == KeyOrder(records, Key)
                      && (forall k :: k in r.value.buckets <==> k in r.value.order)
                      && (forall k :: k in r.value.buckets ==> r.value.buckets[k] == Bucket(records, Key, k))
                      && multiset(Collected(r.value.buckets, r.value.order)) == multiset(records)
    ensures r.Ok? ==> |Collected(r.value.buckets, r.value.order)| == |CompleteIndices(listing)|
    ensures r.Ok? ==> forall k :: k in r.value.buckets ==>
                        forall a: NewsArticle :: a in r.value.buckets[k] ==> a.fullContent.Some? && Key(a) == k
  {
    var url := RootUrl(date, capture) + "/actueel";
    var extracted := ExtractNewsArticles(listing);
    if extracted.Err? {
      return Err(extracted.error);
    }
    var records := FillContents(extracted.value, fetch);
    var buckets, order := SaveToJson(records);
    ExtractedRecords(listing);
    CollectedBuckets(records, Key, buckets, order);
    BucketsPartitionSize(records, Key);
    forall k | k in buckets
      ensures forall a: NewsArticle :: a in buckets[k] ==> a.fullContent.Some? && Key(a) == k
    {
      BucketsHaveContent(extracted.value, fetch, k);
    }
    r := Ok(Saved(url, buckets, order));
  }
}
