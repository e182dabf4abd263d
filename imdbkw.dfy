/**
 * The write-back of imdbkw/imdbkw.py. write_film and write_keyword catch
 * every exception, log it and close the session, so an exception only ends
 * the current batch; rows committed before it stay.
 */
module ImdbKw {
  import opened ImdbText
  import opened Schema
  import opened Imdb
  import opened Db
  import opened FilmWrites

  // ---------------------------------------------------------------------
  // write_film

  /** write_film: the titles of one genre listing, each stored once; an exception ends the batch quietly. */
  method WriteFilm(db: Store, titles: seq<Title>)
    modifies db
    ensures db.Snapshot() == ApplyFilms(old(db.Snapshot()), titles).tables
  {
    ghost var start := db.Snapshot();
    for i := 0 to |titles|
      invariant ApplyFilms(start, titles) == ApplyFilms(db.Snapshot(), titles[i..])
    {
      var title := titles[i];
      BatchStep(titles, i);
      if !HasImdbId(db.films, title.imdbId) {
        var genre := FindGenre(db.genres, title.genreId);
        var filmId := db.AddFilm(title.imdbId, title.name);
        if genre.None? {
          // genre_instance.films raises AttributeError; logged, the batch ends
          return;
        }
        db.AddGenreFilm(genre.value.id, filmId);
      }
    }
  }

  // ---------------------------------------------------------------------
  // write_keyword

  /**
   * One record of write_keyword: find or create the keyword row of that
   * name (a new row is committed before the film is touched), then link the
   * film to it unless that pair is linked already. A film id with no row
   * raises AttributeError.
   */
  function KeywordStep(t: Tables, record: KeywordRecord): Run {
    var keyword := FindKeyword(t.keywords, record.name);
    var film := FindFilm(t.films, record.filmId);
    var relevance := ColumnText(record.relevance);
    if keyword.None? then
      var added := InsertKeyword(t, record.name);
      if film.None? then Run(added, true)
      else Run(InsertFilmKeyword(added, film.value.id, t.nextKeywordId, relevance), false)
    else if film.None? then Run(t, true)
    else if HasLink(t.filmKeyword, film.value.id, keyword.value.id) then Run(t, false)
    else Run(InsertFilmKeyword(t, film.value.id, keyword.value.id, relevance), false)
  }

  /** write_keyword over a batch: records in order, stopping at the first raise. */
  function ApplyKeywords(t: Tables, records: seq<KeywordRecord>): Run
    decreases |records|
  {
    if records == [] then Run(t, false)
    else
      var step := KeywordStep(t, records[0]);
      if step.aborted then step else ApplyKeywords(step.tables, records[1..])
  }

  /**
   * One record: a keyword row is added exactly when no row has that name; a
   * missing film ends the batch with no link added (the new keyword row
   * stays); otherwise the film ends up linked to a keyword of that name, and
   * a link added carries the record's relevance.
   */
  lemma KeywordStepEffect(t: Tables, record: KeywordRecord)
    requires Consistent(t)
    ensures var r := KeywordStep(t, record);
            var named := exists k :: k in t.keywords && k.name == record.name;
            && (named ==> r.tables.keywords == t.keywords)
            && (!named ==> r.tables.keywords == t.keywords + [Keyword(t.nextKeywordId, record.name)])
            && (r.aborted <==> forall f :: f in t.films ==> f.id != record.filmId)
            && (r.aborted ==> r.tables.filmKeyword == t.filmKeyword)
            && (!r.aborted ==> FilmHasKeyword(r.tables, record.filmId, record.name))
            && (r.tables.filmKeyword == t.filmKeyword
                || exists k :: k in r.tables.keywords && k.name == record.name
                     && r.tables.filmKeyword == t.filmKeyword + [FilmKeyword(record.filmId, k.id, ColumnText(record.relevance))])
  {
    var r := KeywordStep(t, record);
    var keyword := FindKeyword(t.keywords, record.name);
    var film := FindFilm(t.films, record.filmId);
    if !r.aborted {
      if keyword.None? {
        var k := Keyword(t.nextKeywordId, record.name);
        var l := FilmKeyword(record.filmId, t.nextKeywordId, ColumnText(record.relevance));
        assert k in r.tables.keywords && l in r.tables.filmKeyword;
      } else if HasLink(t.filmKeyword, film.value.id, keyword.value.id) {
        var l :| l in t.filmKeyword && l.filmId == film.value.id && l.keywordId == keyword.value.id;
        assert keyword.value in r.tables.keywords;
      } else {
        var l := FilmKeyword(record.filmId, keyword.value.id, ColumnText(record.relevance));
        assert keyword.value in r.tables.keywords && l in r.tables.filmKeyword;
      }
    }
  }

  /** Two rows of a table with unique names that share a name are the same row. */
  lemma SameNameSameRow(keywords: seq<Keyword>, a: Keyword, b: Keyword)
    requires UniqueKeywordNames(keywords)
    requires a in keywords && b in keywords && a.name == b.name
    ensures a == b
  {
    var i :| 0 <= i < |keywords| && keywords[i] == a;
    var j :| 0 <= j < |keywords| && keywords[j] == b;
    assert i == j;
  }

  /**
   * One record keeps the ids drawn from their sequences, keeps (film,
   * keyword) pairs and keyword names unique, touches neither films nor
   * genre links, and only appends.
   */
  lemma KeywordStepPreserves(t: Tables, record: KeywordRecord)
    requires Consistent(t) && UniquePairs(t.filmKeyword)
    ensures var u := KeywordStep(t, record).tables;
            && Consistent(u) && UniquePairs(u.filmKeyword) && Extends(t, u)
            && (UniqueKeywordNames(t.keywords) ==> UniqueKeywordNames(u.keywords))
            && u.films == t.films && u.genreFilm == t.genreFilm && u.nextFilmId == t.nextFilmId
  {
    var u := KeywordStep(t, record).tables;
    var keyword := FindKeyword(t.keywords, record.name);
    var film := FindFilm(t.films, record.filmId);
    if keyword.None? && UniqueKeywordNames(t.keywords) {
      AppendKeepsUniqueNames(t.keywords, Keyword(t.nextKeywordId, record.name));
    }
    if |u.filmKeyword| > |t.filmKeyword| {
      var added := u.filmKeyword[|t.filmKeyword|];
      assert u.filmKeyword == t.filmKeyword + [added];
      AppendKeepsUniquePairs(t.filmKeyword, added);
    }
  }

  lemma AppendKeepsUniqueNames(keywords: seq<Keyword>, row: Keyword)
    requires UniqueKeywordNames(keywords)
    requires forall k :: k in keywords ==> k.name != row.name
    ensures UniqueKeywordNames(keywords + [row])
  {
    var u := keywords + [row];
    forall i, j | 0 <= i < j < |u|
      ensures u[i].name != u[j].name
    {
      if j == |keywords| {
        assert u[i] in keywords;
      }
    }
  }

  lemma AppendKeepsUniquePairs(links: seq<FilmKeyword>, link: FilmKeyword)
    requires UniquePairs(links)
    requires !HasLink(links, link.filmId, link.keywordId)
    ensures UniquePairs(links + [link])
  {
    var u := links + [link];
    forall i, j | 0 <= i < j < |u|
      ensures u[i].filmId != u[j].filmId || u[i].keywordId != u[j].keywordId
    {
      if j == |links| {
        assert u[i] in links;
      }
    }
  }

  /** write_keyword keeps the store consistent, pairs unique and (when they were) names unique. */
  lemma {:induction false} ApplyKeywordsPreserves(t: Tables, records: seq<KeywordRecord>)
    requires Consistent(t) && UniquePairs(t.filmKeyword)
    ensures var u := ApplyKeywords(t, records).tables;
            && Consistent(u) && UniquePairs(u.filmKeyword) && Extends(t, u)
            && (UniqueKeywordNames(t.keywords) ==> UniqueKeywordNames(u.keywords))
            && u.films == t.films && u.genreFilm == t.genreFilm && u.nextFilmId == t.nextFilmId
    decreases |records|
  {
    if records != [] {
      var step := KeywordStep(t, records[0]);
      KeywordStepPreserves(t, records[0]);
      if !step.aborted {
        ApplyKeywordsPreserves(step.tables, records[1..]);
        ExtendsTransitive(t, step.tables, ApplyKeywords(step.tables, records[1..]).tables);
      }
    }
  }

  /** A link already stored keeps its relevance: the only row for that pair afterwards is that very row. */
  lemma ApplyKeywordsKeepsRelevance(t: Tables, records: seq<KeywordRecord>, l: FilmKeyword)
    requires Consistent(t) && UniquePairs(t.filmKeyword)
    requires l in t.filmKeyword
    ensures forall m :: (m in ApplyKeywords(t, records).tables.filmKeyword
                         && m.filmId == l.filmId && m.keywordId == l.keywordId) ==> m == l
  {
    var u := ApplyKeywords(t, records).tables;
    ApplyKeywordsPreserves(t, records);
    var i :| 0 <= i < |t.filmKeyword| && t.filmKeyword[i] == l;
    assert u.filmKeyword[i] == l;
    forall m | m in u.filmKeyword && m.filmId == l.filmId && m.keywordId == l.keywordId
      ensures m == l
    {
      var j :| 0 <= j < |u.filmKeyword| && u.filmKeyword[j] == m;
      assert i == j;
    }
  }

  /** After a batch that ran to the end, every record's film exists and is linked to a keyword of the record's name. */
  lemma {:induction false} ApplyKeywordsLinks(t: Tables, records: seq<KeywordRecord>)
    requires Consistent(t) && UniquePairs(t.filmKeyword)
    ensures var r := ApplyKeywords(t, records);
            !r.aborted ==> forall i :: 0 <= i < |records| ==>
              && FindFilm(r.tables.films, records[i].filmId).Some?
              && FilmHasKeyword(r.tables, records[i].filmId, records[i].name)
    decreases |records|
  {
    if records != [] {
      var step := KeywordStep(t, records[0]);
      if !step.aborted {
        var r := ApplyKeywords(step.tables, records[1..]);
        KeywordStepEffect(t, records[0]);
        KeywordStepPreserves(t, records[0]);
        ApplyKeywordsLinks(step.tables, records[1..]);
        ApplyKeywordsPreserves(step.tables, records[1..]);
        ExtendsKeeps(step.tables, r.tables);
        forall i | 0 <= i < |records| && !r.aborted
          ensures FindFilm(r.tables.films, records[i].filmId).Some?
          ensures FilmHasKeyword(r.tables, records[i].filmId, records[i].name)
        {
          if i == 0 {
            assert FindFilm(step.tables.films, records[0].filmId).Some?;
            assert FilmHasKeyword(step.tables, records[0].filmId, records[0].name);
          } else {
            assert records[i] == records[1..][i - 1];
          }
        }
      }
    }
  }

  /** A record whose film is linked to a keyword of its name already changes nothing. */
  lemma LinkedRecordSkipped(t: Tables, record: KeywordRecord)
    requires UniqueKeywordNames(t.keywords)
    requires FindFilm(t.films, record.filmId).Some? && FilmHasKeyword(t, record.filmId, record.name)
    ensures KeywordStep(t, record) == Run(t, false)
  {
    var l, k :| l in t.filmKeyword && k in t.keywords && l.filmId == record.filmId && l.keywordId == k.id && k.name == record.name;
    var keyword := FindKeyword(t.keywords, record.name);
    SameNameSameRow(t.keywords, keyword.value, k);
    var film := FindFilm(t.films, record.filmId);
    assert HasLink(t.filmKeyword, film.value.id, keyword.value.id);
  }

  /** A record whose film has no row raises again when written a second time, and adds nothing the second time. */
  lemma AbortedRecordRepeats(t: Tables, record: KeywordRecord)
    requires Consistent(t) && KeywordStep(t, record).aborted
    ensures var step := KeywordStep(t, record); KeywordStep(step.tables, record) == step
  {
    var step := KeywordStep(t, record);
    KeywordStepEffect(t, record);
    var k :| k in step.tables.keywords && k.name == record.name by {
      if FindKeyword(t.keywords, record.name).None? {
        assert Keyword(t.nextKeywordId, record.name) in step.tables.keywords;
      } else {
        assert FindKeyword(t.keywords, record.name).value in step.tables.keywords;
      }
    }
    assert FindKeyword(step.tables.keywords, record.name).Some?;
  }

  /** A batch whose every record's film is already linked to a keyword of that name changes nothing. */
  lemma {:induction false} ApplyKeywordsSkipsLinked(t: Tables, records: seq<KeywordRecord>)
    requires UniqueKeywordNames(t.keywords)
    requires forall i :: 0 <= i < |records| ==>
      FindFilm(t.films, records[i].filmId).Some? && FilmHasKeyword(t, records[i].filmId, records[i].name)
    ensures ApplyKeywords(t, records) == Run(t, false)
    decreases |records|
  {
    if records != [] {
      LinkedRecordSkipped(t, records[0]);
      forall i | 0 <= i < |records[1..]|
        ensures FindFilm(t.films, records[1..][i].filmId).Some? && FilmHasKeyword(t, records[1..][i].filmId, records[1..][i].name)
      {
        assert records[1..][i] == records[i + 1];
      }
      ApplyKeywordsSkipsLinked(t, records[1..]);
    }
  }

  /**
   * Writing a keyword batch a second time leaves the store as the first run
   * left it, and ends the same way: the records the first run got through
   * are linked already, and a record that raised raises again at once,
   * since its keyword row now exists and its film still has no row.
   */
  lemma {:induction false} ApplyKeywordsIdempotent(t: Tables, records: seq<KeywordRecord>)
    requires Consistent(t) && UniquePairs(t.filmKeyword) && UniqueKeywordNames(t.keywords)
    ensures var r := ApplyKeywords(t, records); ApplyKeywords(r.tables, records) == r
    decreases |records|
  {
    if records != [] {
      var record := records[0];
      var step := KeywordStep(t, record);
      if step.aborted {
        AbortedRecordRepeats(t, record);
      } else {
        KeywordStepEffect(t, record);
        KeywordStepPreserves(t, record);
        var r := ApplyKeywords(step.tables, records[1..]);
        ApplyKeywordsIdempotent(step.tables, records[1..]);
        ApplyKeywordsPreserves(step.tables, records[1..]);
        ExtendsKeeps(step.tables, r.tables);
        assert FindFilm(step.tables.films, record.filmId).Some?;
        LinkedRecordSkipped(r.tables, record);
      }
    }
  }

  /** write_keyword: the records of one film, each linked once; an exception ends the batch quietly. */
  method WriteKeyword(db: Store, keywords: seq<KeywordRecord>)
    modifies db
    ensures db.Snapshot() == ApplyKeywords(old(db.Snapshot()), keywords).tables
  {
    ghost var start := db.Snapshot();
    for i := 0 to |keywords|
      invariant ApplyKeywords(start, keywords) == ApplyKeywords(db.Snapshot(), keywords[i..])
    {
      var keyword := keywords[i];
      BatchStep(keywords, i);
      ghost var before := db.Snapshot();
      var keywordRow := FindKeyword(db.keywords, keyword.name);
      var film := FindFilm(db.films, keyword.filmId);
      var relevant := ColumnText(keyword.relevance);
      if keywordRow.None? {
        var keywordId := db.AddKeyword(keyword.name);
        if film.None? {
          // film_instance.keywords raises AttributeError; logged, the batch ends
          assert KeywordStep(before, keyword) == Run(db.Snapshot(), true);
          return;
        }
        db.AddFilmKeyword(film.value.id, keywordId, relevant);
      } else {
        if film.None? {
          // film_instance.id raises AttributeError; logged, the batch ends
          assert KeywordStep(before, keyword) == Run(db.Snapshot(), true);
          return;
        }
        if !HasLink(db.filmKeyword, film.value.id, keywordRow.value.id) {
          db.AddFilmKeyword(film.value.id, keywordRow.value.id, relevant);
        }
      }
      assert KeywordStep(before, keyword) == Run(db.Snapshot(), false);
    }
  }

  // ---------------------------------------------------------------------
  // process_keyword: which films get keywords

  /** Python's s[:n], including a negative n that counts from the end. */
  function SliceTo<T>(s: seq<T>, n: int): (r: seq<T>)
    ensures r <= s
    ensures n >= 0 ==> |r| == (if n < |s| then n else |s|)
    ensures n < 0 ==> |r| == (if |s| + n > 0 then |s| + n else 0)
  {
    var end := if n >= 0 then n else |s| + n;
    if end <= 0 then [] else if end >= |s| then s else s[..end]
  }

  /**
   * The selection of process_keyword: the films with no keyword link, in
   * table order, cut to films[:num] when there are at least num of them.
   */
  method SelectFilms(db: Store, num: int) returns (films: seq<Film>)
    ensures films <= PendingFilms(db.films, db.filmKeyword)
    ensures forall f :: f in films ==> f in db.films && !HasAnyLink(db.filmKeyword, f.id)
    ensures var pending := |PendingFilms(db.films, db.filmKeyword)|;
            |films| == if num >= 0 then (if num < pending then num else pending)
                       else (if pending + num > 0 then pending + num else 0)
  {
    films := PendingFilms(db.films, db.filmKeyword);
    if |films| >= num {
      films := SliceTo(films, num);
    }
    assert forall f :: f in films ==> f in PendingFilms(db.films, db.filmKeyword) by {
      forall f | f in films ensures f in PendingFilms(db.films, db.filmKeyword) {
        var i :| 0 <= i < |films| && films[i] == f;
        assert PendingFilms(db.films, db.filmKeyword)[i] == f;
      }
    }
  }
}
