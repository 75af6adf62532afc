/** The open-data script (open-data.py): it lists the news of the Dutch
    government's open-data API page by page from a "last modified since"
    date, skips articles it already holds, enriches every new one with the
    fields of its detail record, and stops at a short page, at an end date
    or at a maximum number of articles. The HTTP requests are parameters:
    `listingSince(date)` is the whole listing the API serves for a date, a
    request at an offset being answered by the next `Rows` of it, and
    `detail(id)` is the JSON object served for article `id`. */
module OpenData {
  import opened Wrappers
  import opened Text
  import opened Seqs
  import Dates

  /** A value as `json.load` returns it. */
  datatype Value =
    | Null
    | Bool(b: bool)
    | Num(n: int)
    | Str(s: string)
    | Arr(items: seq<Value>)
    | Obj(members: map<string, Value>)

  /** A JSON object, i.e. a Python `dict` with string keys. */
  type Record = map<string, Value>

  /** An article of the listing: a JSON object whose `id` member the script
      matches on and whose string `lastmodified` member it compares and
      resumes from. Those two are held apart from the other members, which
      are kept as the objects merged into the article in turn, the
      listing's own first: a member of an earlier object wins. */
  datatype Article = Article(id: Value, lastModified: string, layers: seq<Record>)

  /** The members the objects of `layers` give together, an earlier
      object's member winning over a later one's. */
  function Members(layers: seq<Record>): Record {
    if layers == [] then map[] else layers[|layers| - 1] + Members(layers[..|layers| - 1])
  }

  /** The article as the JSON object it is. */
  function AsRecord(a: Article): (r: Record)
    ensures "id" in r && r["id"] == a.id
    ensures "lastmodified" in r && r["lastmodified"] == Str(a.lastModified)
  {
    Members(a.layers) + map["id" := a.id, "lastmodified" := Str(a.lastModified)]
  }

  /** `article["id"]`. */
  function Id(a: Article): Value {
    a.id
  }

  /** `article["lastmodified"]`. */
  function LastModified(a: Article): string {
    a.lastModified
  }

  /** The ids of a list of articles, in order. */
  function Ids(list: seq<Article>): (r: seq<Value>)
    ensures |r| == |list| && forall i :: 0 <= i < |list| ==> r[i] == Id(list[i])
  {
    if list == [] then [] else Ids(list[..|list| - 1]) + [Id(list[|list| - 1])]
  }

  lemma IdsAppend(a: seq<Article>, b: seq<Article>)
    ensures Ids(a + b) == Ids(a) + Ids(b)
  {
  }

  // ---------------------------------------------------------------------
  // get_url
  // ---------------------------------------------------------------------

  /** The number of articles the script asks for per listing page. */
  const Rows: nat := 200

  const ListingPrefix := "https://opendata.rijksoverheid.nl/v1/infotypes/news/lastmodifiedsince/"
  const OffsetTag := "/?output=json&offset="
  const RowsTag := "&rows="

  /** The query part of a listing URL: the page of `rows` articles from
      `offset` on. */
  function Query(offset: nat, rows: nat): string {
    OffsetTag + (Decimal(offset) + (RowsTag + Decimal(rows)))
  }

  /** The listing URL for the page of `rows` articles from `offset` on,
      among those modified since `lmsDate`. */
  function GetUrl(lmsDate: string, offset: nat, rows: nat): (url: string)
    ensures ListingPrefix + lmsDate < url
  {
    ListingPrefix + lmsDate + Query(offset, rows)
  }

  /** The listing URL is the endpoint, the date, "/?output=json&offset=",
      the offset, "&rows=" and the page size, in that order; `GetUrlNumbers`
      states how the two numbers are written. */
  lemma GetUrlShape(lmsDate: string, offset: nat, rows: nat)
    ensures var url := GetUrl(lmsDate, offset, rows);
      var a := |ListingPrefix| + |lmsDate| + |OffsetTag|;
      var b := a + |Decimal(offset)|;
      && b + |RowsTag| < |url|
      && url[..|ListingPrefix|] == ListingPrefix
      && url[|ListingPrefix|..|ListingPrefix| + |lmsDate|] == lmsDate
      && url[|ListingPrefix| + |lmsDate|..a] == OffsetTag
      && url[a..b] == Decimal(offset)
      && url[b..b + |RowsTag|] == RowsTag
      && url[b + |RowsTag|..] == Decimal(rows)
  {
    UrlPieces(ListingPrefix, lmsDate, OffsetTag, Decimal(offset), RowsTag, Decimal(rows));
  }

  /** The offset and the page size appear in the listing URL as decimal
      digits that read back as the numbers, without leading zeros. */
  lemma GetUrlNumbers(lmsDate: string, offset: nat, rows: nat)
    ensures var url := GetUrl(lmsDate, offset, rows);
      var a := |ListingPrefix| + |lmsDate| + |OffsetTag|;
      var b := a + |Decimal(offset)|;
      && a < b && b + |RowsTag| < |url|
      && AllDigits(url[a..b]) && DecValue(url[a..b]) == offset && (url[a] == '0' ==> b == a + 1)
      && AllDigits(url[b + |RowsTag|..]) && DecValue(url[b + |RowsTag|..]) == rows
      && (url[b + |RowsTag|] == '0' ==> |url| == b + |RowsTag| + 1)
  {
    GetUrlShape(lmsDate, offset, rows);
  }

  /** Where each of six concatenated pieces lies in the whole. */
  lemma UrlPieces(p: string, d: string, o: string, x: string, t: string, y: string)
    ensures var url := p + d + (o + (x + (t + y)));
      var a := |p| + |d| + |o|;
      var b := a + |x|;
      && |url| == b + |t| + |y|
      && url[..|p|] == p && url[|p|..|p| + |d|] == d && url[|p| + |d|..a] == o
      && url[a..b] == x && url[b..b + |t|] == t && url[b + |t|..] == y
  {
  }

  /** The query tells the offset and the page size apart. */
  lemma QueryInjective(offset1: nat, rows1: nat, offset2: nat, rows2: nat)
    requires Query(offset1, rows1) == Query(offset2, rows2)
    ensures offset1 == offset2 && rows1 == rows2
  {
    var t1 := Decimal(offset1) + (RowsTag + Decimal(rows1));
    var t2 := Decimal(offset2) + (RowsTag + Decimal(rows2));
    assert t1 == Query(offset1, rows1)[|OffsetTag|..];
    assert t2 == Query(offset2, rows2)[|OffsetTag|..];
    DigitRunSplit(Decimal(offset1), RowsTag + Decimal(rows1), Decimal(offset2), RowsTag + Decimal(rows2));
    assert Decimal(rows1) == (RowsTag + Decimal(rows1))[|RowsTag|..];
    assert Decimal(rows2) == (RowsTag + Decimal(rows2))[|RowsTag|..];
  }

  /** For one date, two requests that differ in the offset or in the page
      size never share a URL. */
  lemma GetUrlInjective(lmsDate: string, offset1: nat, rows1: nat, offset2: nat, rows2: nat)
    requires GetUrl(lmsDate, offset1, rows1) == GetUrl(lmsDate, offset2, rows2)
    ensures offset1 == offset2 && rows1 == rows2
  {
    var head := ListingPrefix + lmsDate;
    assert GetUrl(lmsDate, offset1, rows1) == head + Query(offset1, rows1);
    assert GetUrl(lmsDate, offset2, rows2) == head + Query(offset2, rows2);
    assert Query(offset1, rows1) == (head + Query(offset1, rows1))[|head|..];
    assert Query(offset2, rows2) == (head + Query(offset2, rows2))[|head|..];
    QueryInjective(offset1, rows1, offset2, rows2);
  }

  /** The URLs of the first `n` listing requests for `lmsDate`: the offset
      grows by `Rows` from 0. */
  function ListingUrls(lmsDate: string, n: nat): (urls: seq<string>)
    ensures |urls| == n
  {
    if n == 0 then [] else ListingUrls(lmsDate, n - 1) + [GetUrl(lmsDate, Rows * (n - 1), Rows)]
  }

  /** No page of the listing is requested twice. */
  lemma {:induction false} ListingUrlsDistinct(lmsDate: string, n: nat)
    ensures Distinct(ListingUrls(lmsDate, n))
  {
    if n > 0 {
      var urls, last := ListingUrls(lmsDate, n - 1), GetUrl(lmsDate, Rows * (n - 1), Rows);
      ListingUrlsDistinct(lmsDate, n - 1);
      forall k | 0 <= k < n - 1
        ensures urls[k] != last
      {
        ListingUrlAt(lmsDate, n - 1, k);
        var url := GetUrl(lmsDate, Rows * k, Rows);
        if url == last {
          GetUrlInjective(lmsDate, Rows * k, Rows, Rows * (n - 1), Rows);
        }
      }
      DistinctSnoc(urls, last);
    }
  }

  /** The `k`-th request asks for the page at offset `Rows * k`. */
  lemma {:induction false} ListingUrlAt(lmsDate: string, n: nat, k: nat)
    requires k < n
    ensures ListingUrls(lmsDate, n)[k] == GetUrl(lmsDate, Rows * k, Rows)
  {
    var urls, url := ListingUrls(lmsDate, n - 1), GetUrl(lmsDate, Rows * (n - 1), Rows);
    assert ListingUrls(lmsDate, n) == urls + [url];
    if k < n - 1 {
      ListingUrlAt(lmsDate, n - 1, k);
      assert (urls + [url])[k] == urls[k];
    }
  }

  // ---------------------------------------------------------------------
  // Resuming from the stored articles
  // ---------------------------------------------------------------------

  /** `max(article["lastmodified"] for article in articles)`: the greatest
      `lastmodified` under Python's string order, taken from the list. */
  function MaxLastModified(list: seq<Article>): (m: string)
    requires list != []
    ensures exists i :: 0 <= i < |list| && LastModified(list[i]) == m
    ensures forall i :: 0 <= i < |list| ==> LexLessEq(LastModified(list[i]), m)
  {
    var last := LastModified(list[|list| - 1]);
    if |list| == 1 then last
    else
      var init := list[..|list| - 1];
      var m := MaxLastModified(init);
      assert forall i :: 0 <= i < |init| ==> list[i] == init[i];
      if LexLess(m, last) then
        MaxStep(init, m, last);
        last
      else
        LexTrichotomy(m, last);
        m
  }

  /** When the running maximum is overtaken, the new value bounds everything
      before it too. */
  lemma MaxStep(init: seq<Article>, m: string, last: string)
    requires forall i :: 0 <= i < |init| ==> LexLessEq(LastModified(init[i]), m)
    requires LexLess(m, last)
    ensures forall i :: 0 <= i < |init| ==> LexLessEq(LastModified(init[i]), last)
  {
    forall i | 0 <= i < |init|
      ensures LexLessEq(LastModified(init[i]), last)
    {
      if LastModified(init[i]) != m {
        LexTransitive(LastModified(init[i]), m, last);
      }
    }
  }

  /** The date the listing starts from: the given `lmsDate` when nothing is
      stored, otherwise the day ("%Y%m%d") of the newest stored
      `lastmodified`. `Err` carries that timestamp when `strptime` rejects it. */
  function ResumeDate(stored: seq<Article>, lmsDate: string): (r: Result<string, string>)
    ensures stored == [] ==> r == Ok(lmsDate)
    ensures stored != [] ==>
      var newest := MaxLastModified(stored);
      && (r.Err? <==> Dates.ParseIsoTimestamp(newest).None?)
      && (r.Err? ==> r.error == newest)
      && (r.Ok? ==> |r.value| == 8 && r.value == newest[..4] + newest[5..7] + newest[8..10])
  {
    if stored == [] then Ok(lmsDate)
    else
      var newest := MaxLastModified(stored);
      match Dates.ParseIsoTimestamp(newest)
      case None => Err(newest)
      case Some(t) =>
        Dates.CompactDayOfIsoTimestamp(newest);
        Ok(Dates.CompactDay(t))
  }

  // ---------------------------------------------------------------------
  // Enriching an article with its detail record
  // ---------------------------------------------------------------------

  /** `article.update({k: v for k, v in full.items() if k not in article})`,
      on the members other than `id` and `lastmodified` (the article always
      has those two, so the detail record never supplies them). */
  function MergeDetail(article: Article, full: Record): (r: Article)
    ensures r.id == article.id && r.lastModified == article.lastModified
  {
    Article(article.id, article.lastModified, article.layers + [full])
  }

  /** The merged object has the members of both; the detail record only
      adds the members the article lacks, and nothing the article already
      carries is overwritten. */
  lemma MergeDetailKeeps(article: Article, full: Record)
    ensures var r := AsRecord(MergeDetail(article, full));
      && r.Keys == AsRecord(article).Keys + full.Keys
      && (forall k :: k in AsRecord(article) ==> r[k] == AsRecord(article)[k])
      && (forall k :: k in full && k !in AsRecord(article) ==> r[k] == full[k])
  {
    assert (article.layers + [full])[..|article.layers|] == article.layers;
  }

  /** An article completed with the detail record served for its id. */
  function Enrich(article: Article, detail: Value -> Record): (r: Article)
    ensures Id(r) == Id(article) && LastModified(r) == LastModified(article)
  {
    MergeDetail(article, detail(Id(article)))
  }

  function EnrichAll(list: seq<Article>, detail: Value -> Record): (r: seq<Article>)
    ensures |r| == |list| && forall i :: 0 <= i < |list| ==> r[i] == Enrich(list[i], detail)
  {
    if list == [] then [] else EnrichAll(list[..|list| - 1], detail) + [Enrich(list[|list| - 1], detail)]
  }

  /** Enriching keeps every article's id, so it keeps the id list. */
  lemma IdsEnrichAll(list: seq<Article>, detail: Value -> Record)
    ensures Ids(EnrichAll(list, detail)) == Ids(list)
  {
  }

  lemma EnrichAllSnoc(list: seq<Article>, x: Article, detail: Value -> Record)
    ensures EnrichAll(list + [x], detail) == EnrichAll(list, detail) + [Enrich(x, detail)]
  {
  }

  // ---------------------------------------------------------------------
  // Which listed articles are new
  // ---------------------------------------------------------------------

  /** The articles of `stream` the script keeps in front of `base`: in order,
      each one whose id is neither among `base` nor among the ones kept
      before it. */
  function Fresh(stream: seq<Article>, base: seq<Article>): (r: seq<Article>)
    ensures |r| <= |stream|
  {
    if stream == [] then []
    else
      var kept := Fresh(stream[..|stream| - 1], base);
      var x := stream[|stream| - 1];
      if Id(x) in Ids(base + kept) then kept else kept + [x]
  }

  /** The kept articles are drawn from the stream; `FreshDistinct` states
      that their ids are new. */
  lemma {:induction false} FreshFromStream(stream: seq<Article>, base: seq<Article>)
    ensures var f := Fresh(stream, base);
      |f| <= |stream| && forall k :: 0 <= k < |f| ==> f[k] in stream
  {
    if stream != [] {
      var init := stream[..|stream| - 1];
      var kept := Fresh(init, base);
      FreshFromStream(init, base);
      forall k | 0 <= k < |kept| ensures kept[k] in stream {
        assert kept[k] in init;
      }
    }
  }

  /** No listed article is lost: once the loop has met it, its id is held,
      either because it was already or because it was appended. */
  lemma {:induction false} FreshComplete(stream: seq<Article>, base: seq<Article>, y: Article)
    requires y in stream
    ensures Id(y) in Ids(base + Fresh(stream, base))
  {
    var init, x := stream[..|stream| - 1], stream[|stream| - 1];
    var kept := Fresh(init, base);
    assert stream == init + [x];
    FreshSnoc(init, x, base);
    if Id(x) !in Ids(base + kept) {
      assert base + Fresh(stream, base) == (base + kept) + [x];
      IdsAppend(base + kept, [x]);
    }
    if y != x {
      FreshComplete(init, base, y);
    }
  }

  /** Appending only what is not held yet keeps the ids distinct. */
  lemma {:induction false} FreshDistinct(stream: seq<Article>, base: seq<Article>)
    requires Distinct(Ids(base))
    ensures Distinct(Ids(base + Fresh(stream, base)))
  {
    if stream == [] {
      assert base + [] == base;
    } else {
      var init := stream[..|stream| - 1];
      var x := stream[|stream| - 1];
      var kept := Fresh(init, base);
      FreshDistinct(init, base);
      if Id(x) !in Ids(base + kept) {
        IdsAppend(base + kept, [x]);
        DistinctSnoc(Ids(base + kept), Id(x));
        assert base + (kept + [x]) == (base + kept) + [x];
      }
    }
  }

  /** The ids of the stored list followed by the enriched new articles are
      distinct whenever the stored ids are: running the script never stores
      one article twice. */
  lemma StoredIdsStayDistinct(stream: seq<Article>, stored: seq<Article>, detail: Value -> Record)
    requires Distinct(Ids(stored))
    ensures Distinct(Ids(stored + EnrichAll(Fresh(stream, stored), detail)))
  {
    var f := Fresh(stream, stored);
    FreshDistinct(stream, stored);
    IdsAppend(stored, EnrichAll(f, detail));
    IdsEnrichAll(f, detail);
    IdsAppend(stored, f);
  }

  /** An article whose id is already held is skipped; any other is kept. */
  lemma FreshSnoc(stream: seq<Article>, x: Article, base: seq<Article>)
    ensures Fresh(stream + [x], base) ==
      if Id(x) in Ids(base + Fresh(stream, base)) then Fresh(stream, base)
      else Fresh(stream, base) + [x]
  {
    assert (stream + [x])[..|stream|] == stream;
  }

  /** One more listed article either leaves the list as it is (its id is
      already held) or appends it, enriched. */
  lemma Step(stream: seq<Article>, x: Article, stored: seq<Article>, detail: Value -> Record)
    ensures stored + EnrichAll(Fresh(stream + [x], stored), detail) ==
      AddIfNew(stored + EnrichAll(Fresh(stream, stored), detail), x, detail)
  {
    var f := Fresh(stream, stored);
    var ef := EnrichAll(f, detail);
    var list := stored + ef;
    FreshSnoc(stream, x, stored);
    IdsAppend(stored, ef);
    IdsEnrichAll(f, detail);
    IdsAppend(stored, f);
    assert Ids(list) == Ids(stored + f);
    if Id(x) !in Ids(list) {
      assert Fresh(stream + [x], stored) == f + [x];
      EnrichAllSnoc(f, x, detail);
      AppendAssoc(stored, ef, [Enrich(x, detail)]);
    } else {
      assert Fresh(stream + [x], stored) == f;
    }
  }

  // ---------------------------------------------------------------------
  // get_articles
  // ---------------------------------------------------------------------

  /** The page the API serves for a request at `offset` with `rows=Rows`:
      the next `Rows` articles of the listing, fewer at its end. */
  function PageAt(listing: seq<Article>, offset: nat): (page: seq<Article>)
    ensures |page| <= Rows
    ensures page == [] || (offset + |page| <= |listing| && page == listing[offset..offset + |page|])
    ensures |page| < Rows <==> offset + Rows > |listing|
    ensures offset >= |listing| ==> page == []
    ensures offset < |listing| ==> |page| == (if offset + Rows <= |listing| then Rows else |listing| - offset)
  {
    if offset >= |listing| then []
    else if offset + Rows <= |listing| then listing[offset..offset + Rows]
    else listing[offset..]
  }

  /** `any(a["id"] == article["id"] for a in articles)`. */
  method AnyWithId(list: seq<Article>, id: Value) returns (found: bool)
    ensures found <==> id in Ids(list)
  {
    found := false;
    for i := 0 to |list|
      invariant found <==> exists j :: 0 <= j < i && Id(list[j]) == id
    {
      if Id(list[i]) == id {
        found := true;
      }
    }
    if found {
      var j :| 0 <= j < |list| && Id(list[j]) == id;
      assert Ids(list)[j] == id;
    }
  }

  /** Whether `endDate` is set (a non-empty string is truthy) and `lm` lies
      beyond it in Python's string order. */
  predicate PastEnd(endDate: string, lm: string)
    ensures endDate == "" ==> !PastEnd(endDate, lm)
    ensures PastEnd(endDate, lm) ==> !LexLessEq(lm, endDate)
  {
    LexTrichotomy(endDate, lm);
    endDate != "" && LexLess(endDate, lm)
  }

  /** Whether `maxArticles` is set (a non-zero int is truthy) and `count`
      reached it. */
  predicate CapReached(maxArticles: int, count: nat)
    ensures maxArticles == 0 ==> !CapReached(maxArticles, count)
    ensures maxArticles < 0 ==> CapReached(maxArticles, count)
    ensures 0 < maxArticles ==> (CapReached(maxArticles, count) <==> maxArticles <= count)
  {
    maxArticles != 0 && count >= maxArticles
  }

  /** No article of `list` from index `from` on lies past the end date. */
  predicate NoneAfterEnd(list: seq<Article>, from: nat, endDate: string) {
    forall i :: from <= i < |list| ==> !PastEnd(endDate, LastModified(list[i]))
  }

  /** The property holds across a list and its extension. */
  lemma NoneAfterEndExtend(list: seq<Article>, list': seq<Article>, from: nat, endDate: string)
    requires from <= |list| <= |list'| && list'[..|list|] == list
    requires NoneAfterEnd(list, from, endDate) && NoneAfterEnd(list', |list|, endDate)
    ensures NoneAfterEnd(list', from, endDate)
  {
    forall i | from <= i < |list|
      ensures !PastEnd(endDate, LastModified(list'[i]))
    {
      assert list'[i] == list[i];
    }
  }

  /** The list after the loop meets `x` and goes on: an article whose id is
      held is skipped, any other is appended with its detail fields. */
  function AddIfNew(list: seq<Article>, x: Article, detail: Value -> Record): seq<Article> {
    if Id(x) in Ids(list) then list else list + [Enrich(x, detail)]
  }

  /** Meeting an article keeps the list in front and appends at most one
      article, after which the article's id is held. */
  lemma AddIfNewHolds(list: seq<Article>, x: Article, detail: Value -> Record)
    ensures var r := AddIfNew(list, x, detail);
      && |list| <= |r| <= |list| + 1 && r[..|list|] == list
      && Id(x) in Ids(r)
  {
    if Id(x) !in Ids(list) {
      assert Ids(list + [Enrich(x, detail)])[|list|] == Id(x);
    }
  }

  /** The list after the loop met every article of `stream` in turn. */
  function AddAll(list: seq<Article>, stream: seq<Article>, detail: Value -> Record): (r: seq<Article>)
    ensures |list| <= |r| <= |list| + |stream|
  {
    if stream == [] then list
    else AddIfNew(AddAll(list, stream[..|stream| - 1], detail), stream[|stream| - 1], detail)
  }

  /** Meeting two runs of articles one after the other is meeting their
      concatenation: the pages of the listing compose. */
  lemma {:induction false} AddAllAppend(list: seq<Article>, a: seq<Article>, b: seq<Article>, detail: Value -> Record)
    ensures AddAll(AddAll(list, a, detail), b, detail) == AddAll(list, a + b, detail)
  {
    if b == [] {
      assert a + b == a;
    } else {
      var init, x := b[..|b| - 1], b[|b| - 1];
      var mid := AddAll(list, a, detail);
      AddAllAppend(list, a, init, detail);
      assert (a + b)[..|a + b| - 1] == a + init && (a + b)[|a + b| - 1] == x;
      calc {
        AddAll(list, a + b, detail);
        AddIfNew(AddAll(list, a + init, detail), x, detail);
        AddIfNew(AddAll(mid, init, detail), x, detail);
        AddAll(mid, b, detail);
      }
    }
  }

  /** The loop's list is the stored articles followed by the new articles
      of the stream, enriched: the in-place appends agree with the
      reference definition by `Fresh`. */
  lemma {:induction false} AddAllIsFresh(stored: seq<Article>, stream: seq<Article>, detail: Value -> Record)
    ensures AddAll(stored, stream, detail) == stored + EnrichAll(Fresh(stream, stored), detail)
  {
    if stream == [] {
      assert stored + [] == stored;
    } else {
      var init := stream[..|stream| - 1];
      var x := stream[|stream| - 1];
      var list := stored + EnrichAll(Fresh(init, stored), detail);
      AddAllIsFresh(stored, init, detail);
      Step(init, x, stored, detail);
      InitLast(stream);
      calc {
        AddAll(stored, stream, detail);
        AddIfNew(AddAll(stored, init, detail), x, detail);
        AddIfNew(list, x, detail);
        stored + EnrichAll(Fresh(init + [x], stored), detail);
      }
    }
  }

  /** Meeting one more article of the page. */
  lemma AddAllNext(list: seq<Article>, page: seq<Article>, j: nat, detail: Value -> Record)
    requires j < |page|
    ensures AddAll(list, page[..j + 1], detail) == AddIfNew(AddAll(list, page[..j], detail), page[j], detail)
  {
    assert page[..j + 1][..j] == page[..j];
  }

  /** Appending an article that is not past the end date to an extension of
      `list` keeps it an extension with nothing past the end date. */
  lemma AppendBeforeEnd(list: seq<Article>, list': seq<Article>, x: Article, endDate: string)
    requires |list| <= |list'| && list'[..|list|] == list && NoneAfterEnd(list', |list|, endDate)
    requires !PastEnd(endDate, LastModified(x))
    ensures (list' + [x])[..|list|] == list && NoneAfterEnd(list' + [x], |list|, endDate)
  {
    assert (list' + [x])[..|list|] == list'[..|list|];
  }

  /** Where the walk over one page ended: the list it left, how many of the
      page's articles it walked through, and the index of the loop
      variable's final value. */
  datatype Walk = Walk(articles: seq<Article>, taken: nat, last: nat)

  /** The `for article in new_articles` loop from index `j` on, with `list`
      the article list so far: a held id is skipped (`continue`), a new
      article past the end date ends the walk before it (`break`), any other
      new article is appended enriched, and reaching the cap ends the walk
      right after it (`break`). */
  function WalkFrom(list: seq<Article>, page: seq<Article>, j: nat, maxArticles: int, endDate: string,
                    detail: Value -> Record): (w: Walk)
    requires j <= |page|
    ensures j <= w.taken <= |page|
    ensures page != [] ==> w.last < |page|
    decreases |page| - j
  {
    if j == |page| then Walk(list, j, if j == 0 then 0 else j - 1)
    else if Id(page[j]) in Ids(list) then WalkFrom(list, page, j + 1, maxArticles, endDate, detail)
    else if PastEnd(endDate, LastModified(page[j])) then Walk(list, j, j)
    else
      var list' := list + [Enrich(page[j], detail)];
      if CapReached(maxArticles, |list'|) then Walk(list', j + 1, j)
      else WalkFrom(list', page, j + 1, maxArticles, endDate, detail)
  }

  /** A held id is skipped. */
  lemma WalkFromHeld(list: seq<Article>, page: seq<Article>, j: nat, maxArticles: int, endDate: string,
                     detail: Value -> Record)
    requires j < |page| && Id(page[j]) in Ids(list)
    ensures WalkFrom(list, page, j, maxArticles, endDate, detail) == WalkFrom(list, page, j + 1, maxArticles, endDate, detail)
  {
  }

  /** A new article past the end date ends the walk before it. */
  lemma WalkFromPastEnd(list: seq<Article>, page: seq<Article>, j: nat, maxArticles: int, endDate: string,
                        detail: Value -> Record)
    requires j < |page| && Id(page[j]) !in Ids(list) && PastEnd(endDate, LastModified(page[j]))
    ensures WalkFrom(list, page, j, maxArticles, endDate, detail) == Walk(list, j, j)
  {
  }

  /** Any other new article is appended, and the walk ends right after it
      when the list reaches the cap. */
  lemma WalkFromAppend(list: seq<Article>, page: seq<Article>, j: nat, maxArticles: int, endDate: string,
                       detail: Value -> Record)
    requires j < |page| && Id(page[j]) !in Ids(list) && !PastEnd(endDate, LastModified(page[j]))
    ensures var list' := list + [Enrich(page[j], detail)];
      WalkFrom(list, page, j, maxArticles, endDate, detail) ==
        if CapReached(maxArticles, |list'|) then Walk(list', j + 1, j)
        else WalkFrom(list', page, j + 1, maxArticles, endDate, detail)
  {
  }

  /** A walk that reached the page's end ends there. */
  lemma WalkFromEnd(list: seq<Article>, page: seq<Article>, maxArticles: int, endDate: string, detail: Value -> Record)
    ensures WalkFrom(list, page, |page|, maxArticles, endDate, detail) == Walk(list, |page|, if page == [] then 0 else |page| - 1)
  {
  }

  /** The article `x`, met with `list` held, does not end the walk early: its
      id is held, or it is not past the end date and, unless it is the last
      one walked, appending it leaves the list below the cap. */
  predicate Passes(list: seq<Article>, x: Article, endDate: string, maxArticles: int, isLast: bool) {
    Id(x) in Ids(list) || (!PastEnd(endDate, LastModified(x)) && (isLast || !CapReached(maxArticles, |list| + 1)))
  }

  /** Every article a walk from index `j` meets before it stops after
      `taken` articles passes, met with the list as it stands at that point
      (the list grows by `AddIfNew`, as in the loop). */
  predicate AllPass(list: seq<Article>, page: seq<Article>, j: nat, taken: nat, endDate: string, maxArticles: int,
                    detail: Value -> Record)
    requires taken <= |page|
    decreases taken - j
  {
    j >= taken
    || (Passes(list, page[j], endDate, maxArticles, j == taken - 1)
        && AllPass(AddIfNew(list, page[j], detail), page, j + 1, taken, endDate, maxArticles, detail))
  }

  /** The walk stops at its first reason to: no article before the one it
      stops at or after would have ended it. */
  lemma {:induction false} WalkFromPasses(list: seq<Article>, page: seq<Article>, j: nat,
                                          maxArticles: int, endDate: string, detail: Value -> Record)
    requires j <= |page|
    ensures AllPass(list, page, j, WalkFrom(list, page, j, maxArticles, endDate, detail).taken,
                    endDate, maxArticles, detail)
    decreases |page| - j
  {
    if j < |page| {
      var x := page[j];
      if Id(x) in Ids(list) {
        WalkFromHeld(list, page, j, maxArticles, endDate, detail);
        WalkFromPasses(list, page, j + 1, maxArticles, endDate, detail);
      } else if PastEnd(endDate, LastModified(x)) {
        WalkFromPastEnd(list, page, j, maxArticles, endDate, detail);
      } else {
        var list' := list + [Enrich(x, detail)];
        WalkFromAppend(list, page, j, maxArticles, endDate, detail);
        if !CapReached(maxArticles, |list'|) {
          WalkFromPasses(list', page, j + 1, maxArticles, endDate, detail);
        }
      }
    }
  }

  /** How a walk over `page` ended after `taken` articles with the list
      `list'`, `last` being the index of the loop variable's final value: at
      the end of the page; at a new article past the end date, not walked
      through; or right after appending a new article that made the list
      reach the cap. */
  predicate WalkEnded(page: seq<Article>, taken: nat, last: nat, endDate: string, maxArticles: int,
                      detail: Value -> Record, list': seq<Article>) {
    || (taken == |page| && (taken > 0 ==> last == taken - 1))
    || (taken < |page| && last == taken && Id(page[taken]) !in Ids(list')
        && PastEnd(endDate, LastModified(page[taken])))
    || (0 < taken <= |page| && last == taken - 1 && CapReached(maxArticles, |list'|)
        && list' != [] && list'[|list'| - 1] == Enrich(page[taken - 1], detail)
        && Id(page[taken - 1]) !in Ids(list'[..|list'| - 1]))
  }

  /** The walk from index `j` ends for one of the reasons `WalkEnded`
      names. */
  lemma {:induction false} WalkFromEnded(list: seq<Article>, page: seq<Article>, j: nat,
                                         maxArticles: int, endDate: string, detail: Value -> Record)
    requires j <= |page|
    ensures var w := WalkFrom(list, page, j, maxArticles, endDate, detail);
      WalkEnded(page, w.taken, w.last, endDate, maxArticles, detail, w.articles)
    decreases |page| - j
  {
    if j == |page| {
      WalkFromEnd(list, page, maxArticles, endDate, detail);
    } else {
      var x := page[j];
      if Id(x) in Ids(list) {
        WalkFromHeld(list, page, j, maxArticles, endDate, detail);
        WalkFromEnded(list, page, j + 1, maxArticles, endDate, detail);
      } else if PastEnd(endDate, LastModified(x)) {
        WalkFromPastEnd(list, page, j, maxArticles, endDate, detail);
      } else {
        var list' := list + [Enrich(x, detail)];
        WalkFromAppend(list, page, j, maxArticles, endDate, detail);
        if CapReached(maxArticles, |list'|) {
          assert list'[..|list'| - 1] == list;
        } else {
          WalkFromEnded(list', page, j + 1, maxArticles, endDate, detail);
        }
      }
    }
  }

  /** What the walk keeps, by induction along it from index `j`: the list
      it leaves is `AddAll` over the articles walked through; the articles
      before it stay in front; nothing appended lies past the end date; and
      the cap is not overshot when the list starts below it. */
  lemma {:induction false} WalkFromFacts(start: seq<Article>, list: seq<Article>, page: seq<Article>, j: nat,
                                         maxArticles: int, endDate: string, detail: Value -> Record)
    requires j <= |page| && list == AddAll(start, page[..j], detail)
    requires |start| <= |list| && list[..|start|] == start && NoneAfterEnd(list, |start|, endDate)
    requires 0 < maxArticles && |start| < maxArticles ==> |list| < maxArticles
    ensures var w := WalkFrom(list, page, j, maxArticles, endDate, detail);
      && w.articles == AddAll(start, page[..w.taken], detail)
      && |start| <= |w.articles| && w.articles[..|start|] == start
      && NoneAfterEnd(w.articles, |start|, endDate)
      && (0 < maxArticles && |start| < maxArticles ==> |w.articles| <= maxArticles)
    decreases |page| - j
  {
    if j == |page| {
      WalkFromEnd(list, page, maxArticles, endDate, detail);
    } else {
      AddAllNext(start, page, j, detail);
      var x := page[j];
      if Id(x) in Ids(list) {
        WalkFromHeld(list, page, j, maxArticles, endDate, detail);
        WalkFromFacts(start, list, page, j + 1, maxArticles, endDate, detail);
      } else if PastEnd(endDate, LastModified(x)) {
        WalkFromPastEnd(list, page, j, maxArticles, endDate, detail);
      } else {
        var list' := list + [Enrich(x, detail)];
        WalkFromAppend(list, page, j, maxArticles, endDate, detail);
        AppendBeforeEnd(start, list, Enrich(x, detail), endDate);
        if !CapReached(maxArticles, |list'|) {
          WalkFromFacts(start, list', page, j + 1, maxArticles, endDate, detail);
        }
      }
    }
  }

  /** The walk of a whole page from its first article, as `WalkFromFacts`
      and `WalkFromEnded` describe it. */
  lemma WalkFromStart(list: seq<Article>, page: seq<Article>, maxArticles: int, endDate: string,
                      detail: Value -> Record, list': seq<Article>, taken: nat, last: nat)
    requires Walk(list', taken, last) == WalkFrom(list, page, 0, maxArticles, endDate, detail)
    ensures taken <= |page| && list' == AddAll(list, page[..taken], detail)
    ensures |list| <= |list'| && list'[..|list|] == list
    ensures NoneAfterEnd(list', |list|, endDate)
    ensures 0 < maxArticles && |list| < maxArticles ==> |list'| <= maxArticles
    ensures WalkEnded(page, taken, last, endDate, maxArticles, detail, list')
    ensures AllPass(list, page, 0, taken, endDate, maxArticles, detail)
  {
    assert page[..0] == [];
    WalkFromFacts(list, list, page, 0, maxArticles, endDate, detail);
    WalkFromEnded(list, page, 0, maxArticles, endDate, detail);
    WalkFromPasses(list, page, 0, maxArticles, endDate, detail);
  }

  /** The `for article in new_articles` loop over one page. `taken` is how
      many articles of the page it walked through and `last` the index of
      the loop variable's final value, which the page test after the loop
      reads. The walk is the one `WalkFrom` defines; new articles are
      appended only up to the end date, and the cap is never overshot when
      the list starts below it. */
  method WalkPage(articles: seq<Article>, page: seq<Article>, maxArticles: int, endDate: string,
                  detail: Value -> Record)
    returns (articles': seq<Article>, last: nat, taken: nat)
    ensures Walk(articles', taken, last) == WalkFrom(articles, page, 0, maxArticles, endDate, detail)
    ensures taken <= |page| && articles' == AddAll(articles, page[..taken], detail)
    ensures |articles| <= |articles'| && articles'[..|articles|] == articles
    ensures NoneAfterEnd(articles', |articles|, endDate)
    ensures 0 < maxArticles && |articles| < maxArticles ==> |articles'| <= maxArticles
    ensures WalkEnded(page, taken, last, endDate, maxArticles, detail, articles')
    // and no article before that point would have ended it
    ensures AllPass(articles, page, 0, taken, endDate, maxArticles, detail)
  {
    ghost var w := WalkFrom(articles, page, 0, maxArticles, endDate, detail);
    articles' := articles;
    last := 0;
    var j := 0;
    while j < |page|
      invariant j <= |page|
      invariant last == if j == 0 then 0 else j - 1
      invariant WalkFrom(articles', page, j, maxArticles, endDate, detail)
             == w
    {
      var article := page[j];
      last := j;
      var known := AnyWithId(articles', Id(article));
      if known {
        WalkFromHeld(articles', page, j, maxArticles, endDate, detail);
        j := j + 1;
        continue;
      }
      if PastEnd(endDate, LastModified(article)) {
        WalkFromPastEnd(articles', page, j, maxArticles, endDate, detail);
        break;
      }
      WalkFromAppend(articles', page, j, maxArticles, endDate, detail);
      articles' := articles' + [Enrich(article, detail)];
      j := j + 1;
      if CapReached(maxArticles, |articles'|) {
        break;
      }
    }
    if j == |page| {
      WalkFromEnd(articles', page, maxArticles, endDate, detail);
    }
    taken := j;
    WalkFromStart(articles, page, maxArticles, endDate, detail, articles', taken, last);
  }

  /** Why the loop may stop at the page it requested at `offset`, after
      walking `taken` of its articles: the walked part is the listing up to
      there, and it stops short of the listing's end only at an article past
      the end date, right after one (the page's last), or at the cap. */
  lemma PageStop(listing: seq<Article>, offset: nat, consumed: seq<Article>, taken: nat, last: nat,
                 endDate: string, maxArticles: int, detail: Value -> Record, list': seq<Article>)
    requires offset <= |listing|
    requires WalkEnded(PageAt(listing, offset), taken, last, endDate, maxArticles, detail, list')
    requires var page := PageAt(listing, offset);
      |page| < Rows || PastEnd(endDate, LastModified(page[last])) || CapReached(maxArticles, |list'|)
    requires consumed == listing[..offset] + PageAt(listing, offset)[..taken]
    ensures |consumed| == offset + taken <= offset + Rows && |consumed| <= |listing|
    ensures consumed == listing[..|consumed|]
    ensures StopsFor(listing, |consumed|, endDate, maxArticles, |list'|)
  {
    var page := PageAt(listing, offset);
    if page != [] {
      assert page[..taken] == listing[offset..offset + taken];
      assert listing[..offset] + page[..taken] == listing[..offset + taken];
    } else {
      assert listing[..offset] + page[..taken] == listing[..offset];
    }
  }

  /** A reason for a walk that ends after `walked` articles of the listing
      to end there: the listing is exhausted, the next article lies past the
      end date, the last walked one did, or the list reached the cap. */
  predicate StopsFor(listing: seq<Article>, walked: nat, endDate: string, maxArticles: int, count: nat)
    requires walked <= |listing|
  {
    || walked == |listing|
    || PastEnd(endDate, LastModified(listing[walked]))
    || (0 < walked && PastEnd(endDate, LastModified(listing[walked - 1])))
    || CapReached(maxArticles, count)
  }

  /** The listing up to a page followed by the first `taken` articles of
      the page is the listing up to there. */
  lemma PagePrefix(listing: seq<Article>, offset: nat, taken: nat)
    requires offset <= |listing| && taken <= |PageAt(listing, offset)|
    ensures offset + taken <= |listing|
    ensures listing[..offset] + PageAt(listing, offset)[..taken] == listing[..offset + taken]
  {
    var page := PageAt(listing, offset);
    if page != [] {
      assert page[..taken] == listing[offset..offset + taken];
    }
  }

  /** What one run of the listing loop produced: the article list it writes
      back, the offset after its last request (`Rows` past it), and how many
      articles of the listing it walked through. */
  datatype Crawl = Crawl(articles: seq<Article>, offset: nat, walked: nat)

  /** The `while True` loop of `get_articles` from the request at `offset`
      on, with `list` the article list so far: walk the page served there;
      stop when it is short, when the loop variable's final article lies
      past the end date (which may be a held article, but then only the last
      of a full page), or when the list reached the cap; otherwise request
      the next page. */
  function CrawlFrom(list: seq<Article>, listing: seq<Article>, offset: nat, maxArticles: int, endDate: string,
                     detail: Value -> Record): (c: Crawl)
    ensures offset + Rows <= c.offset && offset <= c.walked <= c.offset
    decreases |listing| - offset
  {
    var page := PageAt(listing, offset);
    var w := WalkFrom(list, page, 0, maxArticles, endDate, detail);
    if |page| < Rows || PastEnd(endDate, LastModified(page[w.last])) || CapReached(maxArticles, |w.articles|) then
      Crawl(w.articles, offset + Rows, offset + w.taken)
    else
      CrawlFrom(w.articles, listing, offset + Rows, maxArticles, endDate, detail)
  }

  /** One request of the loop: the page's walk decides whether it stops. */
  lemma CrawlFromStep(list: seq<Article>, listing: seq<Article>, offset: nat, maxArticles: int, endDate: string,
                      detail: Value -> Record, w: Walk)
    requires w == WalkFrom(list, PageAt(listing, offset), 0, maxArticles, endDate, detail)
    ensures var page := PageAt(listing, offset);
      CrawlFrom(list, listing, offset, maxArticles, endDate, detail) ==
        if |page| < Rows || PastEnd(endDate, LastModified(page[w.last])) || CapReached(maxArticles, |w.articles|) then
          Crawl(w.articles, offset + Rows, offset + w.taken)
        else
          CrawlFrom(w.articles, listing, offset + Rows, maxArticles, endDate, detail)
  {
  }

  /** The loop's invariant at the request at `offset`, with `list` the
      article list so far: `AddAll` over the listing up to there, with the
      stored articles in front, nothing appended past the end date, and the
      cap not reached after the first request. */
  predicate CrawlInvariant(stored: seq<Article>, list: seq<Article>, listing: seq<Article>, offset: nat,
                           maxArticles: int, endDate: string, detail: Value -> Record) {
    && offset <= |listing| && list == AddAll(stored, listing[..offset], detail)
    && |stored| <= |list| && list[..|stored|] == stored && NoneAfterEnd(list, |stored|, endDate)
    && (offset == 0 ==> list == stored)
    && (offset > 0 ==> !CapReached(maxArticles, |list|))
  }

  /** One request of the loop: the walk of the page served at `offset`
      extends the list over the articles it walked. */
  lemma CrawlStepList(stored: seq<Article>, list: seq<Article>, listing: seq<Article>, offset: nat,
                      maxArticles: int, endDate: string, detail: Value -> Record, w: Walk)
    requires CrawlInvariant(stored, list, listing, offset, maxArticles, endDate, detail)
    requires w == WalkFrom(list, PageAt(listing, offset), 0, maxArticles, endDate, detail)
    ensures offset + w.taken <= |listing| && w.taken <= Rows
    ensures w.articles == AddAll(stored, listing[..offset + w.taken], detail)
  {
    var page := PageAt(listing, offset);
    assert page[..0] == [];
    WalkFromFacts(list, list, page, 0, maxArticles, endDate, detail);
    AddAllAppend(stored, listing[..offset], page[..w.taken], detail);
    PagePrefix(listing, offset, w.taken);
    var walked := listing[..offset] + page[..w.taken];
    assert w.articles == AddAll(stored, walked, detail);
    assert walked == listing[..offset + w.taken];
    assert AddAll(stored, walked, detail) == AddAll(stored, listing[..offset + w.taken], detail);
  }

  /** One request of the loop: the walk of the page served at `offset`
      extends the list over the articles it walked, keeps the stored
      articles in front and nothing past the end date, and does not
      overshoot the cap. */
  lemma CrawlStep(stored: seq<Article>, list: seq<Article>, listing: seq<Article>, offset: nat,
                  maxArticles: int, endDate: string, detail: Value -> Record, w: Walk)
    requires CrawlInvariant(stored, list, listing, offset, maxArticles, endDate, detail)
    requires w == WalkFrom(list, PageAt(listing, offset), 0, maxArticles, endDate, detail)
    ensures offset + w.taken <= |listing| && w.taken <= Rows
    ensures w.articles == AddAll(stored, listing[..offset + w.taken], detail)
    ensures |stored| <= |w.articles| && w.articles[..|stored|] == stored
    ensures NoneAfterEnd(w.articles, |stored|, endDate)
    ensures 0 < maxArticles && |stored| < maxArticles ==> |w.articles| <= maxArticles
  {
    var page := PageAt(listing, offset);
    assert page[..0] == [];
    CrawlStepList(stored, list, listing, offset, maxArticles, endDate, detail, w);
    WalkFromFacts(list, list, page, 0, maxArticles, endDate, detail);
    NoneAfterEndExtend(list, w.articles, |stored|, endDate);
    assert w.articles[..|stored|] == list[..|stored|];
  }

  /** A request after which the loop goes on walked the whole page and
      keeps the invariant at the next offset. */
  lemma CrawlStepOn(stored: seq<Article>, list: seq<Article>, listing: seq<Article>, offset: nat,
                    maxArticles: int, endDate: string, detail: Value -> Record, w: Walk)
    requires CrawlInvariant(stored, list, listing, offset, maxArticles, endDate, detail)
    requires w == WalkFrom(list, PageAt(listing, offset), 0, maxArticles, endDate, detail)
    requires var page := PageAt(listing, offset);
      !(|page| < Rows || PastEnd(endDate, LastModified(page[w.last])) || CapReached(maxArticles, |w.articles|))
    ensures w.taken == Rows
    ensures CrawlInvariant(stored, w.articles, listing, offset + Rows, maxArticles, endDate, detail)
  {
    assert w.taken == Rows by {
      WalkFromEnded(list, PageAt(listing, offset), 0, maxArticles, endDate, detail);
    }
    CrawlStep(stored, list, listing, offset, maxArticles, endDate, detail, w);
    assert AddAll(stored, listing[..offset + w.taken], detail) == AddAll(stored, listing[..offset + Rows], detail);
  }

  /** What the loop keeps, by induction along it from the request at
      `offset` with `list` the article list so far: it walks a prefix of
      the listing page by page, ending within the last page it requested;
      its list is `AddAll` over that prefix, with the stored articles in
      front and nothing appended past the end date; and the cap is not
      overshot when the stored list is below it. */
  lemma {:induction false} CrawlFromFacts(stored: seq<Article>, list: seq<Article>, listing: seq<Article>,
                                          offset: nat, maxArticles: int, endDate: string, detail: Value -> Record)
    requires CrawlInvariant(stored, list, listing, offset, maxArticles, endDate, detail)
    ensures var c := CrawlFrom(list, listing, offset, maxArticles, endDate, detail);
      && c.walked <= |listing| && offset + Rows <= c.offset && c.offset - Rows <= c.walked <= c.offset
      && c.articles == AddAll(stored, listing[..c.walked], detail)
      && |stored| <= |c.articles| && c.articles[..|stored|] == stored
      && NoneAfterEnd(c.articles, |stored|, endDate)
      && (0 < maxArticles && |stored| < maxArticles ==> |c.articles| <= maxArticles)
    decreases |listing| - offset
  {
    var page := PageAt(listing, offset);
    var w := WalkFrom(list, page, 0, maxArticles, endDate, detail);
    CrawlStep(stored, list, listing, offset, maxArticles, endDate, detail, w);
    CrawlFromStep(list, listing, offset, maxArticles, endDate, detail, w);
    var c := CrawlFrom(list, listing, offset, maxArticles, endDate, detail);
    if |page| < Rows || PastEnd(endDate, LastModified(page[w.last])) || CapReached(maxArticles, |w.articles|) {
      assert c == Crawl(w.articles, offset + Rows, offset + w.taken);
      assert listing[..c.walked] == listing[..offset + w.taken];
    } else {
      CrawlStepOn(stored, list, listing, offset, maxArticles, endDate, detail, w);
      CrawlFromFacts(stored, w.articles, listing, offset + Rows, maxArticles, endDate, detail);
      assert c == CrawlFrom(w.articles, listing, offset + Rows, maxArticles, endDate, detail);
    }
  }

  /** The loop stops short of the listing's end only for a reason
      `StopsFor` names, by induction along it from the request at
      `offset`. */
  lemma {:induction false} CrawlFromStops(list: seq<Article>, listing: seq<Article>, offset: nat,
                                          maxArticles: int, endDate: string, detail: Value -> Record)
    requires offset <= |listing|
    ensures var c := CrawlFrom(list, listing, offset, maxArticles, endDate, detail);
      c.walked <= |listing| && StopsFor(listing, c.walked, endDate, maxArticles, |c.articles|)
    decreases |listing| - offset
  {
    var page := PageAt(listing, offset);
    var w := WalkFrom(list, page, 0, maxArticles, endDate, detail);
    WalkFromEnded(list, page, 0, maxArticles, endDate, detail);
    CrawlFromStep(list, listing, offset, maxArticles, endDate, detail, w);
    if |page| < Rows || PastEnd(endDate, LastModified(page[w.last])) || CapReached(maxArticles, |w.articles|) {
      PageStop(listing, offset, listing[..offset] + page[..w.taken], w.taken, w.last,
               endDate, maxArticles, detail, w.articles);
    } else {
      CrawlFromStops(w.articles, listing, offset + Rows, maxArticles, endDate, detail);
    }
  }

  /** The `while True` loop of `get_articles`, from the resume date on. The
      request at `offset` is answered by `PageAt(listing, offset)`. The run
      is the one `CrawlFrom` defines. */
  method CrawlPages(stored: seq<Article>, maxArticles: int, endDate: string,
                    listing: seq<Article>, detail: Value -> Record)
    returns (c: Crawl, ghost requests: nat)
    ensures c == CrawlFrom(stored, listing, 0, maxArticles, endDate, detail)
    // one request per page, at offsets 0, Rows, 2 * Rows, ...
    ensures c.offset == Rows * requests
    // the walk covers a prefix of the listing, page by page
    ensures c.walked <= |listing| && Rows <= c.offset && c.offset - Rows <= c.walked <= c.offset
    ensures c.articles == AddAll(stored, listing[..c.walked], detail)
    ensures |stored| <= |c.articles| && c.articles[..|stored|] == stored
    ensures NoneAfterEnd(c.articles, |stored|, endDate)
    ensures 0 < maxArticles && |stored| < maxArticles ==> |c.articles| <= maxArticles
    // and stops short of the listing's end only for a reason
    ensures StopsFor(listing, c.walked, endDate, maxArticles, |c.articles|)
  {
    var articles := stored;
    var offset := 0;
    requests := 0;
    while true
      invariant offset == Rows * requests
      invariant offset <= |listing|
      invariant CrawlFrom(articles, listing, offset, maxArticles, endDate, detail)
             == CrawlFrom(stored, listing, 0, maxArticles, endDate, detail)
      decreases |listing| - offset
    {
      requests := requests + 1;
      var articles', taken, stop := CrawlRequest(articles, listing, offset, maxArticles, endDate, detail);
      if stop {
        c := Crawl(articles', offset + Rows, offset + taken);
        break;
      }
      articles := articles';
      offset := offset + Rows;
    }
    CrawlFromStart(stored, listing, maxArticles, endDate, detail, c);
  }

  /** One pass of the loop: the request at `offset`, the walk of the page it
      returns, and the test that ends the loop (a short page, an article
      past the end date, or the cap reached). Either the run ends here, or it
      goes on from the next offset, which is still inside the listing. */
  method CrawlRequest(articles: seq<Article>, listing: seq<Article>, offset: nat, maxArticles: int,
                      endDate: string, detail: Value -> Record)
    returns (articles': seq<Article>, taken: nat, stop: bool)
    ensures stop ==> CrawlFrom(articles, listing, offset, maxArticles, endDate, detail)
                     == Crawl(articles', offset + Rows, offset + taken)
    ensures !stop ==> offset + Rows <= |listing|
                      && CrawlFrom(articles, listing, offset, maxArticles, endDate, detail)
                         == CrawlFrom(articles', listing, offset + Rows, maxArticles, endDate, detail)
  {
    var page := PageAt(listing, offset);
    var last;
    articles', last, taken := WalkPage(articles, page, maxArticles, endDate, detail);
    CrawlFromStep(articles, listing, offset, maxArticles, endDate, detail, Walk(articles', taken, last));
    stop := |page| < Rows || PastEnd(endDate, LastModified(page[last])) || CapReached(maxArticles, |articles'|);
  }

  /** What `CrawlFromFacts` and `CrawlFromStops` say of the loop run from the
      first request on. */
  lemma CrawlFromStart(stored: seq<Article>, listing: seq<Article>, maxArticles: int, endDate: string,
                       detail: Value -> Record, c: Crawl)
    requires c == CrawlFrom(stored, listing, 0, maxArticles, endDate, detail)
    ensures c.walked <= |listing| && Rows <= c.offset && c.offset - Rows <= c.walked <= c.offset
    ensures c.articles == AddAll(stored, listing[..c.walked], detail)
    ensures |stored| <= |c.articles| && c.articles[..|stored|] == stored
    ensures NoneAfterEnd(c.articles, |stored|, endDate)
    ensures 0 < maxArticles && |stored| < maxArticles ==> |c.articles| <= maxArticles
    ensures StopsFor(listing, c.walked, endDate, maxArticles, |c.articles|)
  {
    assert listing[..0] == [];
    CrawlFromFacts(stored, stored, listing, 0, maxArticles, endDate, detail);
    CrawlFromStops(stored, listing, 0, maxArticles, endDate, detail);
  }

  /** `get_articles(lms_date, max_articles, end_date)`. `stored` is what
      articles.json holds (empty when the file is missing), and
      `listingSince(date)` the listing the API serves for a "last modified
      since" date, page by page. The result is the list written back to
      articles.json, or the stored timestamp `strptime` rejects, in which
      case nothing is requested and nothing is written. */
  method GetArticles(lmsDate: string, maxArticles: int, endDate: string, stored: seq<Article>,
                     listingSince: string -> seq<Article>, detail: Value -> Record)
    returns (r: Result<seq<Article>, string>, ghost walked: nat, ghost urls: seq<string>)
    ensures r.Err? <==> ResumeDate(stored, lmsDate).Err?
    ensures r.Err? ==> r.error == ResumeDate(stored, lmsDate).error && urls == []
    ensures r.Ok? ==>
      var date := ResumeDate(stored, lmsDate).value;
      var listing := listingSince(date);
      var c := CrawlFrom(stored, listing, 0, maxArticles, endDate, detail);
      // the run is the one the loop defines
      && r.value == c.articles && walked == c.walked && Rows * |urls| == c.offset
      // the listing is requested page by page from the resume date on
      && urls == ListingUrls(date, |urls|) && Distinct(urls)
      && walked <= |listing| && Rows * (|urls| - 1) <= walked <= Rows * |urls|
      // the stored articles stay, followed by the new ones among those walked
      && r.value == stored + EnrichAll(Fresh(listing[..walked], stored), detail)
      && (Distinct(Ids(stored)) ==> Distinct(Ids(r.value)))
      // none past the end date, the cap respected
      && NoneAfterEnd(r.value, |stored|, endDate)
      && (0 < maxArticles && |stored| < maxArticles ==> |r.value| <= maxArticles)
      // and the walk stops short of the listing's end only for a reason
      && StopsFor(listing, walked, endDate, maxArticles, |r.value|)
  {
    var date := ResumeDate(stored, lmsDate);
    if date.Err? {
      return Err(date.error), 0, [];
    }
    var listing := listingSince(date.value);
    var c;
    ghost var requests;
    c, requests := CrawlPages(stored, maxArticles, endDate, listing, detail);
    urls := ListingUrls(date.value, requests);
    AddAllIsFresh(stored, listing[..c.walked], detail);
    if Distinct(Ids(stored)) {
      StoredIdsStayDistinct(listing[..c.walked], stored, detail);
    }
    ListingUrlsDistinct(date.value, requests);
    walked := c.walked;
    r := Ok(c.articles);
  }
}
