/**
 * The harvesting side of imdb-spider/imdb.py. The network and the HTML
 * selectors are replaced by their results: a title listing is the sequence
 * of pages the catalog would return for one genre (page p is pages[p - 1],
 * and a page past the end holds no title), and a keyword page is the
 * sequence of items it lists.
 */
module Imdb {
  import opened ImdbText
  import opened Schema

  /** A title anchor of a listing page: its href and its text. */
  datatype Link = Link(href: string, text: string)

  /** One listing request: the genre's url_name and the page number. */
  datatype Request = Request(genre: string, page: int)

  /** The dict {'imdb_id', 'name', 'genre_id'} built for each title. */
  datatype Title = Title(imdbId: string, name: string, genreId: int)

  /** One keyword entry of a film's keyword page: its name and its count text. */
  datatype KeywordItem = KeywordItem(name: string, countText: string)

  /** The dict {'name', 'relevant', 'film_id'} built for each keyword. */
  datatype KeywordRecord = KeywordRecord(name: string, relevance: Value, filmId: int)

  /** The number of titles the listing shows per page. */
  const PageSize := 50

  // ---------------------------------------------------------------------
  // get_title_by_genre

  /** math.ceil(num / 50) */
  function CeilPages(num: int): (r: int)
    ensures (r - 1) * 50 < num <= r * 50
  {
    -((-num) / 50)
  }

  /** The number of listing pages requested for num titles: max(1, ceil(num / 50)). */
  function PageCount(num: int): (r: nat)
    ensures r >= 1
    ensures num <= 50 ==> r == 1
    ensures num > 0 ==> (r - 1) * 50 < num <= r * 50
  {
    if CeilPages(num) < 1 then 1 else CeilPages(num)
  }

  /** 120 titles take three pages; zero titles still take one. */
  lemma PageCountExamples()
    ensures PageCount(120) == 3 && PageCount(0) == 1 && PageCount(50) == 1 && PageCount(51) == 2
  {
  }

  /** The links of listing page p. */
  function Page(pages: seq<seq<Link>>, p: int): seq<Link> {
    if 1 <= p <= |pages| then pages[p - 1] else []
  }

  /** The links of pages 1..n, in page order. */
  function Listing(pages: seq<seq<Link>>, n: nat): seq<Link> {
    if n == 0 then [] else Listing(pages, n - 1) + Page(pages, n)
  }

  /** Requests for pages 1..n of one genre, in order. */
  function Requests(genre: string, n: nat): (r: seq<Request>)
    ensures |r| == n
    ensures forall i :: 0 <= i < n ==> r[i] == Request(genre, i + 1)
  {
    if n == 0 then [] else Requests(genre, n - 1) + [Request(genre, n)]
  }

  /** The first n elements of s (none when n <= 0). */
  function Take<T>(s: seq<T>, n: int): seq<T> {
    if n <= 0 then [] else if n >= |s| then s else s[..n]
  }

  /** The title of every link, in order; the first href without an id raises. */
  function ToTitles(links: seq<Link>, genreId: int): (r: Outcome<seq<Title>>)
    ensures r.Ok? <==> forall i :: 0 <= i < |links| ==> ParseImdbId(links[i].href).Ok?
    ensures r.Raised? ==> r.error == IndexError
    ensures r.Ok? ==> |r.value| == |links|
    ensures r.Ok? ==> forall i :: 0 <= i < |links| ==>
      r.value[i] == Title(ParseImdbId(links[i].href).value, links[i].text, genreId)
    decreases |links|
  {
    if links == [] then Ok([])
    else
      var last := links[|links| - 1];
      match ToTitles(links[..|links| - 1], genreId)
      case Raised(e) => Raised(e)
      case Ok(titles) =>
        match ParseImdbId(last.href)
        case Raised(e) => Raised(e)
        case Ok(id) => Ok(titles + [Title(id, last.text, genreId)])
  }

  /** What get_title_by_genre returns: the titles of the first num links of the requested pages. */
  function TitlesFor(pages: seq<seq<Link>>, genreId: int, num: int): Outcome<seq<Title>> {
    ToTitles(Take(Listing(pages, PageCount(num)), num), genreId)
  }

  /**
   * At most num titles are collected: the first num links of the requested
   * pages in page order, each tagged with the genre's id.
   */
  lemma TitlesForFirstLinks(pages: seq<seq<Link>>, genreId: int, num: int)
    ensures var links := Listing(pages, PageCount(num));
            var r := TitlesFor(pages, genreId, num);
            r.Ok? ==>
              && |r.value| == (if num <= 0 then 0 else if num < |links| then num else |links|)
              && forall i :: 0 <= i < |r.value| ==>
                   && r.value[i].genreId == genreId
                   && r.value[i].name == links[i].text
                   && r.value[i].imdbId == ParseImdbId(links[i].href).value
                   && '/' !in r.value[i].imdbId
  {
  }

  lemma {:induction false} ListingExtends(pages: seq<seq<Link>>, m: nat, n: nat)
    requires m <= n
    ensures Listing(pages, m) <= Listing(pages, n)
    decreases n
  {
    if m < n {
      ListingExtends(pages, m, n - 1);
    }
  }

  /** One link seen by the collection loop: parsed while fewer than num titles are held, skipped after. */
  lemma CollectStep(seen: seq<Link>, a: Link, num: int, genreId: int, titles: seq<Title>)
    requires ToTitles(Take(seen, num), genreId) == Ok(titles)
    ensures |titles| >= num ==> ToTitles(Take(seen + [a], num), genreId) == Ok(titles)
    ensures |titles| < num && ParseImdbId(a.href).Ok? ==>
      ToTitles(Take(seen + [a], num), genreId) == Ok(titles + [Title(ParseImdbId(a.href).value, a.text, genreId)])
    ensures |titles| < num && ParseImdbId(a.href).Raised? ==>
      ToTitles(Take(seen + [a], num), genreId) == Raised(ParseImdbId(a.href).error)
  {
    if |titles| < num {
      assert Take(seen, num) == seen;
      assert Take(seen + [a], num) == seen + [a];
      assert (seen + [a])[..|seen + [a]| - 1] == seen;
    } else {
      assert Take(seen + [a], num) == Take(seen, num);
    }
  }

  /** A link that raises among the first num links of a prefix makes every extension raise. */
  lemma TakeRaisedExtends(seen: seq<Link>, all: seq<Link>, num: int, genreId: int)
    requires seen <= all
    requires ToTitles(Take(seen, num), genreId).Raised?
    ensures ToTitles(Take(all, num), genreId) == Raised(IndexError)
  {
    var taken := Take(seen, num);
    var i :| 0 <= i < |taken| && ParseImdbId(taken[i].href).Raised?;
    assert Take(all, num)[i] == taken[i];
  }

  lemma PrefixStep<T>(seen: seq<T>, select: seq<T>, j: nat)
    requires j < |select|
    ensures seen + select[..j] + [select[j]] == seen + select[..j + 1]
    ensures seen + select[..j + 1] <= seen + select
  {
    assert select[..j + 1] == select[..j] + [select[j]];
    assert seen + select == seen + select[..j + 1] + select[j + 1..];
  }

  /**
   * The `for a in select` loop of get_title_by_genre over one page: a title
   * from each link while fewer than num are held.
   */
  method CollectPage(select: seq<Link>, num: int, genreId: int, titles: seq<Title>, ghost seen: seq<Link>)
    returns (r: Outcome<seq<Title>>)
    requires ToTitles(Take(seen, num), genreId) == Ok(titles)
    ensures r == ToTitles(Take(seen + select, num), genreId)
  {
    var collected := titles;
    ghost var done := seen;
    for j := 0 to |select|
      invariant done == seen + select[..j]
      invariant ToTitles(Take(done, num), genreId) == Ok(collected)
    {
      var a := select[j];
      PrefixStep(seen, select, j);
      CollectStep(done, a, num, genreId, collected);
      if |collected| < num {
        var imdbId := ParseImdbId(a.href);
        if imdbId.Raised? {
          PrefixStep(seen, select, j);
          TakeRaisedExtends(seen + select[..j + 1], seen + select, num, genreId);
          return Raised(imdbId.error);
        }
        collected := collected + [Title(imdbId.value, a.text, genreId)];
      }
      done := done + [a];
    }
    assert select[..|select|] == select;
    r := Ok(collected);
  }

  /** The loop stops exactly at page PageCount(num). */
  lemma LastPage(num: int, page: int)
    requires 1 <= page <= PageCount(num)
    ensures CeilPages(num) <= page <==> page == PageCount(num)
  {
  }

  /** A raise among the links of the first pages is the raise of the whole call. */
  lemma RaisedAtPage(pages: seq<seq<Link>>, page: nat, genreId: int, num: int)
    requires page <= PageCount(num)
    requires ToTitles(Take(Listing(pages, page), num), genreId).Raised?
    ensures TitlesFor(pages, genreId, num) == Raised(IndexError)
  {
    ListingExtends(pages, page, PageCount(num));
    TakeRaisedExtends(Listing(pages, page), Listing(pages, PageCount(num)), num, genreId);
  }

  /**
   * get_title_by_genre: request pages 1, 2, ... and stop after page
   * ceil(num / 50); collect a title from each link while fewer than num are
   * held. A link whose href has no id raises IndexError out of the call.
   */
  method GetTitleByGenre(genre: Genre, num: int, pages: seq<seq<Link>>)
    returns (r: Outcome<seq<Title>>, requested: seq<Request>)
    ensures r == TitlesFor(pages, genre.id, num)
    ensures r.Ok? ==> requested == Requests(genre.urlName, PageCount(num))
    ensures |requested| <= PageCount(num) && requested == Requests(genre.urlName, |requested|)
  {
    ghost var count := PageCount(num);
    var page := 1;
    var titles: seq<Title> := [];
    requested := [];
    while true
      invariant 1 <= page <= count
      invariant requested == Requests(genre.urlName, page - 1)
      invariant ToTitles(Take(Listing(pages, page - 1), num), genre.id) == Ok(titles)
      decreases count - page
    {
      requested := requested + [Request(genre.urlName, page)];
      var select := Page(pages, page);
      var collected := CollectPage(select, num, genre.id, titles, Listing(pages, page - 1));
      assert collected == ToTitles(Take(Listing(pages, page), num), genre.id);
      if collected.Raised? {
        RaisedAtPage(pages, page, genre.id, num);
        return collected, requested;
      }
      titles := collected.value;
      LastPage(num, page);
      if CeilPages(num) <= page {
        break;
      }
      page := page + 1;
    }
    r := Ok(titles);
  }

  // ---------------------------------------------------------------------
  // get_keyword_by_film

  /**
   * The relevance a keyword record carries: the first non-blank character
   * of the count text when it is a digit (kept as a one-character str), and
   * the int 0 otherwise.
   */
  function Relevance(countText: string): Value {
    var t := TrimStart(countText);
    if t != [] && IsDigit(t[0]) then Str([t[0]]) else Int(0)
  }

  /** text.strip()[:1]: at most the first character of the stripped text. */
  function FirstStripped(countText: string): (first: string)
    ensures |first| <= 1 && |first| <= |Strip(countText)|
    ensures first == Strip(countText)[..|first|]
    ensures first == [] <==> Strip(countText) == []
  {
    var stripped := Strip(countText);
    if stripped == [] then stripped else stripped[..1]
  }

  /**
   * The scraper's rule, keep the stripped first character when parse_int
   * accepts it and store 0 otherwise, is the relevance above.
   */
  lemma FirstStrippedRelevance(countText: string)
    ensures var first := FirstStripped(countText);
            Relevance(countText) == if ParseInt(first).1 then Str(first) else Int(0)
  {
    var t := TrimStart(countText);
    var first := FirstStripped(countText);
    if t == [] {
      assert first == [];
      assert ParseInt(first).1 == false;
    } else {
      assert Strip(countText) != [] && Strip(countText)[0] == t[0];
      assert first == [t[0]];
      ParseIntOneChar(t[0]);
    }
  }

  /** The varchar column always receives one decimal digit, "0" when nothing parsed. */
  lemma StoredRelevanceIsDigit(countText: string)
    ensures var s := ColumnText(Relevance(countText)); |s| == 1 && IsDigit(s[0])
  {
    assert DecimalString(0) == "0";
  }

  /** The relevance of one leading character and whatever follows it. */
  lemma RelevanceOfLeading(countText: string, c: char, rest: string)
    requires countText == [c] + rest && !IsSpace(c)
    ensures Relevance(countText) == if IsDigit(c) then Str([c]) else Int(0)
  {
    assert TrimStart(countText) == countText;
  }

  /**
   * Count texts as the keyword page shows them: "8 of 9" keeps its leading
   * digit, leading blanks are stripped first, and "N/A" or an empty text
   * store the int 0.
   */
  lemma RelevanceExamples(countText: string)
    ensures countText == "8 of 9" ==> Relevance(countText) == Str("8")
    ensures countText == "  3" ==> Relevance(countText) == Str("3")
    ensures countText == "N/A" ==> Relevance(countText) == Int(0)
    ensures countText == "" ==> Relevance(countText) == Int(0)
  {
    if countText == "8 of 9" {
      RelevanceOfLeading(countText, '8', " of 9");
    } else if countText == "  3" {
      assert LeadingSpaces(countText[2..]) == 0;
      assert LeadingSpaces(countText) == 2;
    } else if countText == "N/A" {
      RelevanceOfLeading(countText, 'N', "/A");
    }
  }

  /** get_keyword_by_film: one record per scraped item, in order, each tagged with the film's id. */
  method GetKeywordByFilm(film: Film, items: seq<KeywordItem>) returns (keywords: seq<KeywordRecord>)
    ensures |keywords| == |items|
    ensures forall i :: 0 <= i < |items| ==>
      keywords[i] == KeywordRecord(items[i].name, Relevance(items[i].countText), film.id)
  {
    keywords := [];
    for i := 0 to |items|
      invariant |keywords| == i
      invariant forall k :: 0 <= k < i ==>
        keywords[k] == KeywordRecord(items[k].name, Relevance(items[k].countText), film.id)
    {
      var item := items[i];
      var first := FirstStripped(item.countText);
      var relevant := Str(first);
      if !ParseInt(first).1 {
        relevant := Int(0);
      }
      FirstStrippedRelevance(item.countText);
      keywords := keywords + [KeywordRecord(item.name, relevant, film.id)];
    }
  }
}
