/**
 * The older write-back of imdb-spider/init.py. Nothing is caught: the
 * AttributeError of a missing genre or film propagates out of write_film or
 * write_keyword after the rows before it were committed. write_keyword is
 * meant to skip a record whose keyword name is already linked to some film,
 * so that a keyword name ends up linked at most once; the batch functions
 * and the method below run that intended test. The test as init.py:151
 * spells it also looks at unlinked keyword rows; it is modelled at the end
 * of this module, with a store on which the two differ.
 */
module SpiderInit {
  import opened ImdbText
  import opened Schema
  import opened Imdb
  import opened Db
  import opened FilmWrites

  // ---------------------------------------------------------------------
  // write_film

  /** write_film: the film rule with no handler, so the exception reaches the caller. */
  method WriteFilm(db: Store, titles: seq<Title>) returns (raised: Option<Exception>)
    modifies db
    ensures var r := ApplyFilms(old(db.Snapshot()), titles);
            db.Snapshot() == r.tables && raised == (if r.aborted then Some(AttributeError) else None)
  {
    ghost var start := db.Snapshot();
    raised := None;
    for i := 0 to |titles|
      invariant ApplyFilms(start, titles) == ApplyFilms(db.Snapshot(), titles[i..])
    {
      var title := titles[i];
      BatchStep(titles, i);
      if !HasImdbId(db.films, title.imdbId) {
        var genre := FindGenre(db.genres, title.genreId);
        var filmId := db.AddFilm(title.imdbId, title.name);
        if genre.None? {
          return Some(AttributeError);
        }
        db.AddGenreFilm(genre.value.id, filmId);
      }
    }
  }

  // ---------------------------------------------------------------------
  // write_keyword

  /**
   * query(Film).filter(Film.keywords.any(Keyword.name == name)).count() is
   * nonzero, read as meant: some film that has a row is linked to a keyword
   * row of that name.
   */
  predicate NameLinked(t: Tables, name: string) {
    exists l, k :: l in t.filmKeyword && k in t.keywords
      && l.keywordId == k.id && k.name == name && FindFilm(t.films, l.filmId).Some?
  }

  /** The unskipped branch: a new keyword row, committed, then the film's link to it. */
  function AddLinkedKeyword(t: Tables, record: KeywordRecord): Run {
    var film := FindFilm(t.films, record.filmId);
    var added := InsertKeyword(t, record.name);
    if film.None? then Run(added, true)
    else Run(InsertFilmKeyword(added, film.value.id, t.nextKeywordId, ColumnText(record.relevance)), false)
  }

  /** One record of write_keyword: skipped when its name is linked already. */
  function LegacyKeywordStep(t: Tables, record: KeywordRecord): Run {
    if NameLinked(t, record.name) then Run(t, false) else AddLinkedKeyword(t, record)
  }

  /** write_keyword over a batch: records in order, stopping at the first raise. */
  function ApplyLegacyKeywords(t: Tables, records: seq<KeywordRecord>): Run
    decreases |records|
  {
    if records == [] then Run(t, false)
    else
      var step := LegacyKeywordStep(t, records[0]);
      if step.aborted then step else ApplyLegacyKeywords(step.tables, records[1..])
  }

  /** Every link belongs to a film that has a row. */
  predicate LinksHaveFilms(t: Tables) {
    forall l :: l in t.filmKeyword ==> FindFilm(t.films, l.filmId).Some?
  }

  /** No keyword name is reached by two links: each name is linked to at most one film, once. */
  predicate OneLinkPerName(t: Tables) {
    forall i, j, a, b ::
      0 <= i < |t.filmKeyword| && 0 <= j < |t.filmKeyword| && a in t.keywords && b in t.keywords
      && t.filmKeyword[i].keywordId == a.id && t.filmKeyword[j].keywordId == b.id && a.name == b.name
      ==> i == j
  }

  /**
   * One record: a linked name changes nothing; otherwise exactly one new
   * keyword row is added, even when an unlinked row of that name exists, and
   * then either one link carrying the record's relevance, or, when the film
   * has no row, nothing more and the batch ends.
   */
  lemma LegacyKeywordStepEffect(t: Tables, record: KeywordRecord)
    ensures var r := LegacyKeywordStep(t, record);
            NameLinked(t, record.name) ==> r == Run(t, false)
    ensures var r := LegacyKeywordStep(t, record);
            !NameLinked(t, record.name) ==>
              && r.tables.keywords == t.keywords + [Keyword(t.nextKeywordId, record.name)]
              && r.tables.films == t.films
              && (r.aborted <==> forall f :: f in t.films ==> f.id != record.filmId)
              && (r.aborted ==> r.tables.filmKeyword == t.filmKeyword)
              && (!r.aborted ==> r.tables.filmKeyword ==
                                   t.filmKeyword + [FilmKeyword(record.filmId, t.nextKeywordId, ColumnText(record.relevance))])
  {
  }

  /** A new keyword row with no link leaves every name's links as they were. */
  lemma UnlinkedRowKeepsOneLink(t: Tables, name: string)
    requires Consistent(t) && OneLinkPerName(t)
    ensures OneLinkPerName(InsertKeyword(t, name))
  {
    var u := InsertKeyword(t, name);
    var newRow := Keyword(t.nextKeywordId, name);
    assert u.filmKeyword == t.filmKeyword && u.keywords == t.keywords + [newRow];
    forall i, j, a, b |
      0 <= i < |u.filmKeyword| && 0 <= j < |u.filmKeyword| && a in u.keywords && b in u.keywords
      && u.filmKeyword[i].keywordId == a.id && u.filmKeyword[j].keywordId == b.id && a.name == b.name
      ensures i == j
    {
      assert t.filmKeyword[i] in t.filmKeyword && t.filmKeyword[j] in t.filmKeyword;
      assert a != newRow && b != newRow;
    }
  }

  /**
   * Appending a keyword row and the one link to it keeps one link per name,
   * provided the row's id is new and no old link reaches an old row of its name.
   */
  lemma LinkedRowKeepsOneLink(t: Tables, u: Tables, row: Keyword, link: FilmKeyword)
    requires OneLinkPerName(t)
    requires u.keywords == t.keywords + [row] && u.filmKeyword == t.filmKeyword + [link]
    requires link.keywordId == row.id
    requires forall k :: k in t.keywords ==> k.id != row.id
    requires forall l :: l in t.filmKeyword ==> l.keywordId != row.id
    requires forall l, k :: l in t.filmKeyword && k in t.keywords && l.keywordId == k.id ==> k.name != row.name
    ensures OneLinkPerName(u)
  {
    var n := |t.filmKeyword|;
    forall i, j, a, b |
      0 <= i < |u.filmKeyword| && 0 <= j < |u.filmKeyword| && a in u.keywords && b in u.keywords
      && u.filmKeyword[i].keywordId == a.id && u.filmKeyword[j].keywordId == b.id && a.name == b.name
      ensures i == j
    {
      LinkTarget(t, u, row, link, i, a);
      LinkTarget(t, u, row, link, j, b);
    }
  }

  /** Where a link of the extended store points: an old link at an old row, or the new link at the new row. */
  lemma LinkTarget(t: Tables, u: Tables, row: Keyword, link: FilmKeyword, p: int, a: Keyword)
    requires u.keywords == t.keywords + [row] && u.filmKeyword == t.filmKeyword + [link]
    requires link.keywordId == row.id
    requires forall k :: k in t.keywords ==> k.id != row.id
    requires forall l :: l in t.filmKeyword ==> l.keywordId != row.id
    requires 0 <= p < |u.filmKeyword| && a in u.keywords && u.filmKeyword[p].keywordId == a.id
    ensures p < |t.filmKeyword| ==> u.filmKeyword[p] == t.filmKeyword[p] && a in t.keywords
    ensures p == |t.filmKeyword| ==> a == row
  {
    if p < |t.filmKeyword| {
      assert u.filmKeyword[p] == t.filmKeyword[p] && t.filmKeyword[p] in t.filmKeyword;
      assert a != row;
    } else {
      assert a.id == row.id;
    }
  }

  /** The unskipped branch adds the only link a new name has, so no name gains a second link. */
  lemma AddLinkedKeywordKeepsOneLink(t: Tables, record: KeywordRecord)
    requires Consistent(t) && LinksHaveFilms(t) && OneLinkPerName(t) && !NameLinked(t, record.name)
    ensures OneLinkPerName(AddLinkedKeyword(t, record).tables)
  {
    var r := AddLinkedKeyword(t, record);
    if r.aborted {
      UnlinkedRowKeepsOneLink(t, record.name);
    } else {
      var row := Keyword(t.nextKeywordId, record.name);
      var link := FilmKeyword(record.filmId, t.nextKeywordId, ColumnText(record.relevance));
      assert forall l, k :: l in t.filmKeyword && k in t.keywords && l.keywordId == k.id ==> k.name != row.name by {
        forall l, k | l in t.filmKeyword && k in t.keywords && l.keywordId == k.id
          ensures k.name != row.name
        {
          assert FindFilm(t.films, l.filmId).Some?;
        }
      }
      LinkedRowKeepsOneLink(t, r.tables, row, link);
    }
  }

  /** One record keeps ids drawn from their sequences, links owned by films, and at most one link per name. */
  lemma LegacyKeywordStepPreserves(t: Tables, record: KeywordRecord)
    requires Consistent(t) && LinksHaveFilms(t) && OneLinkPerName(t)
    ensures var u := LegacyKeywordStep(t, record).tables;
            && Consistent(u) && LinksHaveFilms(u) && OneLinkPerName(u) && Extends(t, u)
            && u.films == t.films && u.genreFilm == t.genreFilm && u.nextFilmId == t.nextFilmId
  {
    LegacyKeywordStepConsistent(t, record);
    if !NameLinked(t, record.name) {
      AddLinkedKeywordKeepsOneLink(t, record);
    }
  }

  lemma LegacyKeywordStepConsistent(t: Tables, record: KeywordRecord)
    requires Consistent(t) && LinksHaveFilms(t)
    ensures var u := LegacyKeywordStep(t, record).tables;
            && Consistent(u) && LinksHaveFilms(u) && Extends(t, u)
            && u.films == t.films && u.genreFilm == t.genreFilm && u.nextFilmId == t.nextFilmId
  {
  }

  lemma FindFilmExtends(films: seq<Film>, more: seq<Film>, id: int)
    requires films <= more && FindFilm(films, id).Some?
    ensures FindFilm(more, id).Some?
  {
    var f := FindFilm(films, id).value;
    var i :| 0 <= i < |films| && films[i] == f;
    assert more[i] == f;
  }

  lemma NameLinkedExtends(t: Tables, u: Tables, name: string)
    requires Extends(t, u) && NameLinked(t, name)
    ensures NameLinked(u, name)
  {
    var l, k :| l in t.filmKeyword && k in t.keywords
                && l.keywordId == k.id && k.name == name && FindFilm(t.films, l.filmId).Some?;
    var i :| 0 <= i < |t.filmKeyword| && t.filmKeyword[i] == l;
    var j :| 0 <= j < |t.keywords| && t.keywords[j] == k;
    assert u.filmKeyword[i] == l && u.keywords[j] == k;
    FindFilmExtends(t.films, u.films, l.filmId);
    assert l in u.filmKeyword && k in u.keywords;
  }

  /** A record that does not raise leaves its keyword name linked. */
  lemma LegacyStepLinksName(t: Tables, record: KeywordRecord)
    ensures var r := LegacyKeywordStep(t, record);
            !r.aborted ==> NameLinked(r.tables, record.name)
  {
    var r := LegacyKeywordStep(t, record);
    if !NameLinked(t, record.name) && !r.aborted {
      var l := FilmKeyword(record.filmId, t.nextKeywordId, ColumnText(record.relevance));
      var k := Keyword(t.nextKeywordId, record.name);
      assert r.tables.filmKeyword == t.filmKeyword + [l];
      assert r.tables.keywords == t.keywords + [k];
      assert l in r.tables.filmKeyword && k in r.tables.keywords;
      assert FindFilm(r.tables.films, l.filmId).Some?;
    }
  }

  /** write_keyword keeps ids drawn from their sequences, links owned by films, and at most one link per name. */
  lemma {:induction false} ApplyLegacyKeywordsPreserves(t: Tables, records: seq<KeywordRecord>)
    requires Consistent(t) && LinksHaveFilms(t) && OneLinkPerName(t)
    ensures var u := ApplyLegacyKeywords(t, records).tables;
            && Consistent(u) && LinksHaveFilms(u) && OneLinkPerName(u) && Extends(t, u)
            && u.films == t.films && u.genreFilm == t.genreFilm && u.nextFilmId == t.nextFilmId
    decreases |records|
  {
    if records != [] {
      var step := LegacyKeywordStep(t, records[0]);
      LegacyKeywordStepPreserves(t, records[0]);
      if !step.aborted {
        ApplyLegacyKeywordsPreserves(step.tables, records[1..]);
        ExtendsTransitive(t, step.tables, ApplyLegacyKeywords(step.tables, records[1..]).tables);
      }
    }
  }

  lemma LegacyKeywordStepExtends(t: Tables, record: KeywordRecord)
    ensures Extends(t, LegacyKeywordStep(t, record).tables)
  {
  }

  lemma {:induction false} ApplyLegacyKeywordsExtends(t: Tables, records: seq<KeywordRecord>)
    ensures Extends(t, ApplyLegacyKeywords(t, records).tables)
    decreases |records|
  {
    if records != [] {
      var step := LegacyKeywordStep(t, records[0]);
      LegacyKeywordStepExtends(t, records[0]);
      if !step.aborted {
        ApplyLegacyKeywordsExtends(step.tables, records[1..]);
        ExtendsTransitive(t, step.tables, ApplyLegacyKeywords(step.tables, records[1..]).tables);
      }
    }
  }

  /** After a batch that ran to the end, every record's keyword name is linked to some film. */
  lemma {:induction false} ApplyLegacyLinksEveryName(t: Tables, records: seq<KeywordRecord>)
    ensures var r := ApplyLegacyKeywords(t, records);
            !r.aborted ==> forall i :: 0 <= i < |records| ==> NameLinked(r.tables, records[i].name)
    decreases |records|
  {
    if records != [] {
      var step := LegacyKeywordStep(t, records[0]);
      if !step.aborted {
        var r := ApplyLegacyKeywords(step.tables, records[1..]);
        LegacyStepLinksName(t, records[0]);
        ApplyLegacyLinksEveryName(step.tables, records[1..]);
        ApplyLegacyKeywordsExtends(step.tables, records[1..]);
        NameLinkedExtends(step.tables, r.tables, records[0].name);
        forall i | 0 <= i < |records| && !r.aborted
          ensures NameLinked(r.tables, records[i].name)
        {
          if i > 0 {
            assert records[i] == records[1..][i - 1];
          }
        }
      }
    }
  }

  /** A batch whose every keyword name is linked already changes nothing. */
  lemma {:induction false} ApplyLegacySkipsLinked(t: Tables, records: seq<KeywordRecord>)
    requires forall i :: 0 <= i < |records| ==> NameLinked(t, records[i].name)
    ensures ApplyLegacyKeywords(t, records) == Run(t, false)
    decreases |records|
  {
    if records != [] {
      assert NameLinked(t, records[0].name);
      forall i | 0 <= i < |records[1..]|
        ensures NameLinked(t, records[1..][i].name)
      {
        assert records[1..][i] == records[i + 1];
      }
      ApplyLegacySkipsLinked(t, records[1..]);
    }
  }

  /** Writing a keyword batch a second time, after it ran to the end once, leaves the store as it is. */
  lemma ApplyLegacyKeywordsIdempotent(t: Tables, records: seq<KeywordRecord>)
    requires !ApplyLegacyKeywords(t, records).aborted
    ensures var u := ApplyLegacyKeywords(t, records).tables;
            ApplyLegacyKeywords(u, records) == Run(u, false)
  {
    ApplyLegacyLinksEveryName(t, records);
    ApplyLegacySkipsLinked(ApplyLegacyKeywords(t, records).tables, records);
  }

  /** The film write-back keeps every invariant the keyword write-back relies on. */
  lemma ApplyFilmsKeepsLinkInvariants(t: Tables, titles: seq<Title>)
    requires Consistent(t) && UniqueImdbIds(t.films) && LinksHaveFilms(t) && OneLinkPerName(t)
    ensures var u := ApplyFilms(t, titles).tables;
            Consistent(u) && UniqueImdbIds(u.films) && LinksHaveFilms(u) && OneLinkPerName(u)
  {
    var u := ApplyFilms(t, titles).tables;
    ApplyFilmsPreserves(t, titles);
    ExtendsKeeps(t, u);
  }

  /** write_keyword: records of one film; the first missing film raises out of the call. */
  method WriteKeyword(db: Store, keywords: seq<KeywordRecord>) returns (raised: Option<Exception>)
    modifies db
    ensures var r := ApplyLegacyKeywords(old(db.Snapshot()), keywords);
            db.Snapshot() == r.tables && raised == (if r.aborted then Some(AttributeError) else None)
  {
    ghost var start := db.Snapshot();
    raised := None;
    for i := 0 to |keywords|
      invariant ApplyLegacyKeywords(start, keywords) == ApplyLegacyKeywords(db.Snapshot(), keywords[i..])
    {
      var keyword := keywords[i];
      BatchStep(keywords, i);
      if !NameLinked(db.Snapshot(), keyword.name) {
        var film := FindFilm(db.films, keyword.filmId);
        var keywordId := db.AddKeyword(keyword.name);
        if film.None? {
          return Some(AttributeError);
        }
        db.AddFilmKeyword(film.value.id, keywordId, ColumnText(keyword.relevance));
      }
    }
  }

  // ---------------------------------------------------------------------
  // process_keyword: which films get keywords

  /** query(Film).filter(Film.keywords == None).limit(limit): at most limit films with no keyword link, in table order. */
  method SelectFilms(db: Store, limit: nat) returns (films: seq<Film>)
    ensures films <= PendingFilms(db.films, db.filmKeyword)
    ensures |films| == if limit < |PendingFilms(db.films, db.filmKeyword)| then limit else |PendingFilms(db.films, db.filmKeyword)|
    ensures forall f :: f in films ==> f in db.films && !HasAnyLink(db.filmKeyword, f.id)
  {
    films := PendingFilms(db.films, db.filmKeyword);
    if |films| > limit {
      films := films[..limit];
    }
    assert forall f :: f in films ==> f in PendingFilms(db.films, db.filmKeyword) by {
      forall f | f in films ensures f in PendingFilms(db.films, db.filmKeyword) {
        var i :| 0 <= i < |films| && films[i] == f;
        assert PendingFilms(db.films, db.filmKeyword)[i] == f;
      }
    }
  }

  // ---------------------------------------------------------------------
  // The skip test as written

  /**
   * The skip test as init.py:151 spells it. The any() criterion names the
   * keyword table, which the EXISTS subquery then lists beside film_keyword
   * without joining the two, so the test holds when some film has any link
   * at all and some keyword row, linked or not, has the name.
   */
  predicate AsWrittenSkip(t: Tables, name: string) {
    && (exists l :: l in t.filmKeyword && FindFilm(t.films, l.filmId).Some?)
    && (exists k :: k in t.keywords && k.name == name)
  }

  /** One record of write_keyword with the skip test as written. */
  function AsWrittenKeywordStep(t: Tables, record: KeywordRecord): Run {
    if AsWrittenSkip(t, record.name) then Run(t, false) else AddLinkedKeyword(t, record)
  }

  /** write_keyword over a batch with the skip test as written. */
  function ApplyAsWrittenKeywords(t: Tables, records: seq<KeywordRecord>): Run
    decreases |records|
  {
    if records == [] then Run(t, false)
    else
      var step := AsWrittenKeywordStep(t, records[0]);
      if step.aborted then step else ApplyAsWrittenKeywords(step.tables, records[1..])
  }

  /** The two tests agree on every store in which each keyword row is linked to a film that has a row. */
  lemma AsWrittenSkipAgrees(t: Tables, name: string)
    requires forall k :: k in t.keywords ==>
      exists l :: l in t.filmKeyword && l.keywordId == k.id && FindFilm(t.films, l.filmId).Some?
    ensures AsWrittenSkip(t, name) <==> NameLinked(t, name)
  {
    if AsWrittenSkip(t, name) {
      var k :| k in t.keywords && k.name == name;
      var l :| l in t.filmKeyword && l.keywordId == k.id && FindFilm(t.films, l.filmId).Some?;
    }
  }

  /** A name the intended test skips, the test as written skips too. */
  lemma NameLinkedAsWrittenSkip(t: Tables, name: string)
    requires NameLinked(t, name)
    ensures AsWrittenSkip(t, name)
  {
    var l, k :| l in t.filmKeyword && k in t.keywords
                && l.keywordId == k.id && k.name == name && FindFilm(t.films, l.filmId).Some?;
  }

  /** A record the test as written lets through runs the intended step. */
  lemma AsWrittenStepIsLegacy(t: Tables, record: KeywordRecord)
    requires !AsWrittenSkip(t, record.name)
    ensures AsWrittenKeywordStep(t, record) == LegacyKeywordStep(t, record)
  {
    if NameLinked(t, record.name) {
      NameLinkedAsWrittenSkip(t, record.name);
    }
  }

  /** One record, as written, keeps the invariants of the write-back and only appends. */
  lemma AsWrittenStepPreserves(t: Tables, record: KeywordRecord)
    requires Consistent(t) && LinksHaveFilms(t) && OneLinkPerName(t)
    ensures var u := AsWrittenKeywordStep(t, record).tables;
            && Consistent(u) && LinksHaveFilms(u) && OneLinkPerName(u) && Extends(t, u)
            && u.films == t.films && u.genreFilm == t.genreFilm && u.nextFilmId == t.nextFilmId
  {
    if !AsWrittenSkip(t, record.name) {
      AsWrittenStepIsLegacy(t, record);
      LegacyKeywordStepPreserves(t, record);
    }
  }

  /**
   * write_keyword as written keeps each keyword name linked to at most one
   * film, once, keeps the store consistent and only appends.
   */
  lemma {:induction false} ApplyAsWrittenKeywordsPreserves(t: Tables, records: seq<KeywordRecord>)
    requires Consistent(t) && LinksHaveFilms(t) && OneLinkPerName(t)
    ensures var u := ApplyAsWrittenKeywords(t, records).tables;
            && Consistent(u) && LinksHaveFilms(u) && OneLinkPerName(u) && Extends(t, u)
            && u.films == t.films && u.genreFilm == t.genreFilm && u.nextFilmId == t.nextFilmId
    decreases |records|
  {
    if records != [] {
      var step := AsWrittenKeywordStep(t, records[0]);
      AsWrittenStepPreserves(t, records[0]);
      if !step.aborted {
        ApplyAsWrittenKeywordsPreserves(step.tables, records[1..]);
        ExtendsTransitive(t, step.tables, ApplyAsWrittenKeywords(step.tables, records[1..]).tables);
      }
    }
  }

  lemma AsWrittenStepExtends(t: Tables, record: KeywordRecord)
    ensures Extends(t, AsWrittenKeywordStep(t, record).tables)
  {
    if !AsWrittenSkip(t, record.name) {
      AsWrittenStepIsLegacy(t, record);
      LegacyKeywordStepExtends(t, record);
    }
  }

  /** write_keyword as written never removes or rewrites a row. */
  lemma {:induction false} ApplyAsWrittenKeywordsExtends(t: Tables, records: seq<KeywordRecord>)
    ensures Extends(t, ApplyAsWrittenKeywords(t, records).tables)
    decreases |records|
  {
    if records != [] {
      var step := AsWrittenKeywordStep(t, records[0]);
      AsWrittenStepExtends(t, records[0]);
      if !step.aborted {
        ApplyAsWrittenKeywordsExtends(step.tables, records[1..]);
        ExtendsTransitive(t, step.tables, ApplyAsWrittenKeywords(step.tables, records[1..]).tables);
      }
    }
  }

  /** Appending rows never turns the test as written from skip to insert. */
  lemma AsWrittenSkipExtends(t: Tables, u: Tables, name: string)
    requires Extends(t, u) && AsWrittenSkip(t, name)
    ensures AsWrittenSkip(u, name)
  {
    var l :| l in t.filmKeyword && FindFilm(t.films, l.filmId).Some?;
    var k :| k in t.keywords && k.name == name;
    var i :| 0 <= i < |t.filmKeyword| && t.filmKeyword[i] == l;
    var j :| 0 <= j < |t.keywords| && t.keywords[j] == k;
    assert u.filmKeyword[i] == l && u.keywords[j] == k;
    FindFilmExtends(t.films, u.films, l.filmId);
  }

  /** A record that does not raise, as written, leaves a store that skips its name. */
  lemma AsWrittenStepSkipsName(t: Tables, record: KeywordRecord)
    ensures var r := AsWrittenKeywordStep(t, record);
            !r.aborted ==> AsWrittenSkip(r.tables, record.name)
  {
    if !AsWrittenSkip(t, record.name) {
      AsWrittenStepIsLegacy(t, record);
      LegacyStepLinksName(t, record);
      var r := LegacyKeywordStep(t, record);
      if !r.aborted {
        NameLinkedAsWrittenSkip(r.tables, record.name);
      }
    }
  }

  /** After a batch as written that did not raise, the test as written skips every record's name. */
  lemma {:induction false} ApplyAsWrittenSkipsEveryName(t: Tables, records: seq<KeywordRecord>)
    ensures var r := ApplyAsWrittenKeywords(t, records);
            !r.aborted ==> forall i :: 0 <= i < |records| ==> AsWrittenSkip(r.tables, records[i].name)
    decreases |records|
  {
    if records != [] {
      var step := AsWrittenKeywordStep(t, records[0]);
      if !step.aborted {
        var r := ApplyAsWrittenKeywords(step.tables, records[1..]);
        AsWrittenStepSkipsName(t, records[0]);
        ApplyAsWrittenSkipsEveryName(step.tables, records[1..]);
        ApplyAsWrittenKeywordsExtends(step.tables, records[1..]);
        AsWrittenSkipExtends(step.tables, r.tables, records[0].name);
        forall i | 0 <= i < |records| && !r.aborted
          ensures AsWrittenSkip(r.tables, records[i].name)
        {
          if i > 0 {
            assert records[i] == records[1..][i - 1];
          }
        }
      }
    }
  }

  /** A batch as written whose every name the test skips changes nothing. */
  lemma {:induction false} ApplyAsWrittenSkipsAll(t: Tables, records: seq<KeywordRecord>)
    requires forall i :: 0 <= i < |records| ==> AsWrittenSkip(t, records[i].name)
    ensures ApplyAsWrittenKeywords(t, records) == Run(t, false)
    decreases |records|
  {
    if records != [] {
      assert AsWrittenSkip(t, records[0].name);
      forall i | 0 <= i < |records[1..]|
        ensures AsWrittenSkip(t, records[1..][i].name)
      {
        assert records[1..][i] == records[i + 1];
      }
      ApplyAsWrittenSkipsAll(t, records[1..]);
    }
  }

  /** Rerunning a batch as written that ran to the end once changes nothing. */
  lemma ApplyAsWrittenKeywordsIdempotent(t: Tables, records: seq<KeywordRecord>)
    requires !ApplyAsWrittenKeywords(t, records).aborted
    ensures var u := ApplyAsWrittenKeywords(t, records).tables;
            ApplyAsWrittenKeywords(u, records) == Run(u, false)
  {
    ApplyAsWrittenSkipsEveryName(t, records);
    ApplyAsWrittenSkipsAll(ApplyAsWrittenKeywords(t, records).tables, records);
  }

  /** A store a write_keyword batch leaves behind when its second record names a missing film. */
  function AfterAbortedBatch(): Tables {
    Tables([Genre(1, "Action", "action")],
           [Film(1, "tt0111161", "The Shawshank Redemption")],
           [GenreFilm(1, 1)],
           [Keyword(1, "prison"), Keyword(2, "escape")],
           [FilmKeyword(1, 1, "8")],
           2, 3)
  }

  /** That store keeps every invariant the keyword write-back relies on. */
  lemma AfterAbortedBatchConsistent()
    ensures var t := AfterAbortedBatch(); Consistent(t) && LinksHaveFilms(t) && OneLinkPerName(t)
  {
    var t := AfterAbortedBatch();
    assert Consistent(t);
    assert LinksHaveFilms(t) by {
      assert FindFilm(t.films, 1) == Some(t.films[0]);
    }
    SingleLinkOnePerName(t);
  }

  lemma SingleLinkOnePerName(t: Tables)
    requires |t.filmKeyword| <= 1
    ensures OneLinkPerName(t)
  {
  }

  /**
   * On that store the test as written skips the record ("escape", film 1),
   * although no film is linked to "escape": the batch ends without error and
   * the name stays unlinked, while the intended test links it.
   */
  lemma AsWrittenSkipsUnlinkedName()
    ensures var t := AfterAbortedBatch();
            var record := KeywordRecord("escape", Str("5"), 1);
            && AsWrittenKeywordStep(t, record) == Run(t, false)
            && !NameLinked(t, "escape")
            && NameLinked(LegacyKeywordStep(t, record).tables, "escape")
  {
    var t := AfterAbortedBatch();
    var record := KeywordRecord("escape", Str("5"), 1);
    assert FindFilm(t.films, 1) == Some(t.films[0]);
    assert AsWrittenSkip(t, "escape") by {
      assert t.filmKeyword[0] in t.filmKeyword && t.keywords[1] in t.keywords;
    }
    assert !NameLinked(t, "escape") by {
      assert forall k :: k in t.keywords && k.name == "escape" ==> k == Keyword(2, "escape");
      assert forall l :: l in t.filmKeyword ==> l.keywordId == 1;
    }
    var u := LegacyKeywordStep(t, record).tables;
    assert NameLinked(u, "escape") by {
      assert u.filmKeyword[1] == FilmKeyword(1, 3, ColumnText(Str("5"))) && u.keywords[2] == Keyword(3, "escape");
      assert u.filmKeyword[1] in u.filmKeyword && u.keywords[2] in u.keywords;
      assert FindFilm(u.films, 1).Some?;
    }
  }

  /**
   * The same store arises, under the test as written and under the intended
   * one alike, from a batch whose second record names a film with no row.
   */
  lemma AfterAbortedBatchReachable()
    ensures var start := AfterAbortedBatch().(keywords := [], filmKeyword := [], nextKeywordId := 1);
            var batch := [KeywordRecord("prison", Str("8"), 1), KeywordRecord("escape", Str("5"), 2)];
            && ApplyAsWrittenKeywords(start, batch) == Run(AfterAbortedBatch(), true)
            && ApplyLegacyKeywords(start, batch) == Run(AfterAbortedBatch(), true)
  {
    var start := AfterAbortedBatch().(keywords := [], filmKeyword := [], nextKeywordId := 1);
    var batch := [KeywordRecord("prison", Str("8"), 1), KeywordRecord("escape", Str("5"), 2)];
    assert !NameLinked(start, "prison") && !AsWrittenSkip(start, "prison");
    assert FindFilm(start.films, 1) == Some(start.films[0]);
    var mid := LegacyKeywordStep(start, batch[0]);
    assert AsWrittenKeywordStep(start, batch[0]) == mid;
    assert ColumnText(Str("8")) == "8";
    assert mid == Run(start.(keywords := [Keyword(1, "prison")], filmKeyword := [FilmKeyword(1, 1, "8")], nextKeywordId := 2), false);
    assert !NameLinked(mid.tables, "escape") && !AsWrittenSkip(mid.tables, "escape") by {
      assert forall k :: k in mid.tables.keywords ==> k.name == "prison";
    }
    assert FindFilm(mid.tables.films, 2) == None;
    assert batch[1..] == [batch[1]];
  }
}
