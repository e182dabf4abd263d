/**
 * The relational store both write-back scripts maintain: the five tables as
 * values, the queries the scripts issue against them, the row inserts a
 * commit makes, and a mutable Store whose fields are those tables.
 *
 * Query results come back in insertion order; ids come from the film and
 * keyword sequences, which start at 1 and only grow.
 */
module Db {
  import opened ImdbText
  import opened Schema

  /** The whole store at one moment: every table and the next id of each sequence. */
  datatype Tables = Tables(
    genres: seq<Genre>,
    films: seq<Film>,
    genreFilm: seq<GenreFilm>,
    keywords: seq<Keyword>,
    filmKeyword: seq<FilmKeyword>,
    nextFilmId: int,
    nextKeywordId: int)

  /** The store after a batch, and whether an exception ended the batch early. */
  datatype Run = Run(tables: Tables, aborted: bool)

  // ---------------------------------------------------------------------
  // Queries

  /** query(Genre).filter(Genre.id == id).first() */
  function FindGenre(genres: seq<Genre>, id: int): (r: Option<Genre>)
    ensures r.Some? ==> r.value in genres && r.value.id == id
    ensures r.None? <==> forall g :: g in genres ==> g.id != id
  {
    if genres == [] then None
    else if genres[0].id == id then Some(genres[0])
    else
      assert forall g :: g in genres ==> g == genres[0] || g in genres[1..];
      FindGenre(genres[1..], id)
  }

  /** query(Film).filter(Film.id == id).first() */
  function FindFilm(films: seq<Film>, id: int): (r: Option<Film>)
    ensures r.Some? ==> r.value in films && r.value.id == id
    ensures r.None? <==> forall f :: f in films ==> f.id != id
  {
    if films == [] then None
    else if films[0].id == id then Some(films[0])
    else
      assert forall f :: f in films ==> f == films[0] || f in films[1..];
      FindFilm(films[1..], id)
  }

  /** query(Keyword).filter(Keyword.name == name).first(): the earliest row of that name. */
  function FindKeyword(keywords: seq<Keyword>, name: string): (r: Option<Keyword>)
    ensures r.Some? ==> r.value in keywords && r.value.name == name
    ensures r.None? <==> forall k :: k in keywords ==> k.name != name
    ensures r.Some? ==> exists i :: 0 <= i < |keywords| && keywords[i] == r.value
                          && forall j :: 0 <= j < i ==> keywords[j].name != name
  {
    if keywords == [] then None
    else if keywords[0].name == name then Some(keywords[0])
    else
      assert forall k :: k in keywords ==> k == keywords[0] || k in keywords[1..];
      var r := FindKeyword(keywords[1..], name);
      if r.Some? then
        var i :| 0 <= i < |keywords| - 1 && keywords[1..][i] == r.value
                 && forall j :: 0 <= j < i ==> keywords[1..][j].name != name;
        assert keywords[i + 1] == r.value;
        assert forall j :: 0 <= j < i + 1 ==> keywords[j].name != name by {
          forall j | 0 <= j < i + 1 ensures keywords[j].name != name {
            if j > 0 { assert keywords[j] == keywords[1..][j - 1]; }
          }
        }
        r
      else r
  }

  /** query(Film).filter(Film.imdb_id == imdbId).count() is nonzero. */
  function HasImdbId(films: seq<Film>, imdbId: string): (b: bool)
    ensures b <==> exists f :: f in films && f.imdbId == imdbId
  {
    if films == [] then false
    else
      assert forall f :: f in films ==> f == films[0] || f in films[1..];
      films[0].imdbId == imdbId || HasImdbId(films[1..], imdbId)
  }

  /** query(Film_Keyword).filter(film_id == filmId, keyword_id == keywordId).count() is nonzero. */
  function HasLink(links: seq<FilmKeyword>, filmId: int, keywordId: int): (b: bool)
    ensures b <==> exists l :: l in links && l.filmId == filmId && l.keywordId == keywordId
  {
    if links == [] then false
    else
      assert forall l :: l in links ==> l == links[0] || l in links[1..];
      (links[0].filmId == filmId && links[0].keywordId == keywordId) || HasLink(links[1..], filmId, keywordId)
  }

  /** The film has at least one row in film_keyword. */
  function HasAnyLink(links: seq<FilmKeyword>, filmId: int): (b: bool)
    ensures b <==> exists l :: l in links && l.filmId == filmId
  {
    if links == [] then false
    else
      assert forall l :: l in links ==> l == links[0] || l in links[1..];
      links[0].filmId == filmId || HasAnyLink(links[1..], filmId)
  }

  /**
   * The films with no keyword link, in table order: the rows of
   * `Film.keywords == None` (and of the outer join filtered on a missing link).
   */
  function PendingFilms(films: seq<Film>, links: seq<FilmKeyword>): (r: seq<Film>)
    ensures |r| <= |films|
    ensures forall f :: f in r <==> f in films && !HasAnyLink(links, f.id)
  {
    if films == [] then []
    else
      assert forall f :: f in films ==> f == films[0] || f in films[1..];
      (if HasAnyLink(links, films[0].id) then [] else [films[0]]) + PendingFilms(films[1..], links)
  }

  /** The film has a link to a keyword row of that name. */
  predicate FilmHasKeyword(t: Tables, filmId: int, name: string) {
    exists l, k :: l in t.filmKeyword && k in t.keywords && l.filmId == filmId && l.keywordId == k.id && k.name == name
  }

  // ---------------------------------------------------------------------
  // Inserts: one committed row each

  function InsertFilm(t: Tables, imdbId: string, name: string): Tables {
    t.(films := t.films + [Film(t.nextFilmId, imdbId, name)], nextFilmId := t.nextFilmId + 1)
  }

  function InsertGenreFilm(t: Tables, genreId: int, filmId: int): Tables {
    t.(genreFilm := t.genreFilm + [GenreFilm(genreId, filmId)])
  }

  function InsertKeyword(t: Tables, name: string): Tables {
    t.(keywords := t.keywords + [Keyword(t.nextKeywordId, name)], nextKeywordId := t.nextKeywordId + 1)
  }

  function InsertFilmKeyword(t: Tables, filmId: int, keywordId: int, relevance: string): Tables {
    t.(filmKeyword := t.filmKeyword + [FilmKeyword(filmId, keywordId, relevance)])
  }

  // ---------------------------------------------------------------------
  // Invariants

  /** Every id, and every id a junction row refers to, was drawn from its sequence. */
  predicate Consistent(t: Tables) {
    && (forall f :: f in t.films ==> f.id < t.nextFilmId)
    && (forall g :: g in t.genreFilm ==> g.filmId < t.nextFilmId)
    && (forall k :: k in t.keywords ==> k.id < t.nextKeywordId)
    && (forall l :: l in t.filmKeyword ==> l.keywordId < t.nextKeywordId)
  }

  /** No two films share an imdb_id. */
  predicate UniqueImdbIds(films: seq<Film>) {
    forall i, j :: 0 <= i < j < |films| ==> films[i].imdbId != films[j].imdbId
  }

  /** No two keyword rows share a name. */
  predicate UniqueKeywordNames(keywords: seq<Keyword>) {
    forall i, j :: 0 <= i < j < |keywords| ==> keywords[i].name != keywords[j].name
  }

  /** No (film, keyword) pair appears twice in film_keyword. */
  predicate UniquePairs(links: seq<FilmKeyword>) {
    forall i, j :: 0 <= i < j < |links| ==>
      links[i].filmId != links[j].filmId || links[i].keywordId != links[j].keywordId
  }

  /** u is t after rows were only appended: nothing removed, nothing rewritten, genres untouched. */
  predicate Extends(t: Tables, u: Tables) {
    && u.genres == t.genres
    && t.films <= u.films
    && t.genreFilm <= u.genreFilm
    && t.keywords <= u.keywords
    && t.filmKeyword <= u.filmKeyword
    && t.nextFilmId <= u.nextFilmId
    && t.nextKeywordId <= u.nextKeywordId
  }

  lemma ExtendsTransitive(t: Tables, u: Tables, v: Tables)
    requires Extends(t, u) && Extends(u, v)
    ensures Extends(t, v)
  {
  }

  /** Facts a later append cannot undo. */
  lemma {:induction false} ExtendsKeeps(t: Tables, u: Tables)
    requires Extends(t, u)
    ensures forall imdbId :: HasImdbId(t.films, imdbId) ==> HasImdbId(u.films, imdbId)
    ensures forall id :: FindFilm(t.films, id).Some? ==> FindFilm(u.films, id).Some?
    ensures forall filmId, name :: FilmHasKeyword(t, filmId, name) ==> FilmHasKeyword(u, filmId, name)
  {
    assert forall f :: f in t.films ==> f in u.films by {
      forall f | f in t.films ensures f in u.films {
        var i :| 0 <= i < |t.films| && t.films[i] == f;
        assert u.films[i] == f;
      }
    }
    assert forall l :: l in t.filmKeyword ==> l in u.filmKeyword by {
      forall l | l in t.filmKeyword ensures l in u.filmKeyword {
        var i :| 0 <= i < |t.filmKeyword| && t.filmKeyword[i] == l;
        assert u.filmKeyword[i] == l;
      }
    }
    assert forall k :: k in t.keywords ==> k in u.keywords by {
      forall k | k in t.keywords ensures k in u.keywords {
        var i :| 0 <= i < |t.keywords| && t.keywords[i] == k;
        assert u.keywords[i] == k;
      }
    }
  }

  /** A batch from position i on is its record at i followed by the rest. */
  lemma BatchStep<T>(s: seq<T>, i: int)
    requires 0 <= i < |s|
    ensures s[i..] == [s[i]] + s[i + 1..]
  {
  }

  // ---------------------------------------------------------------------
  // The store as mutable state

  /** The database a session writes to; each method is one committed insert. */
  class Store {
    var genres: seq<Genre>
    var films: seq<Film>
    var genreFilm: seq<GenreFilm>
    var keywords: seq<Keyword>
    var filmKeyword: seq<FilmKeyword>
    var nextFilmId: int
    var nextKeywordId: int

    function Snapshot(): Tables
      reads this
    {
      Tables(genres, films, genreFilm, keywords, filmKeyword, nextFilmId, nextKeywordId)
    }

    /** A freshly set-up store: the genre rows, nothing else, both sequences at 1. */
    constructor (genres: seq<Genre>)
      ensures Snapshot() == Tables(genres, [], [], [], [], 1, 1)
      ensures Consistent(Snapshot())
    {
      this.genres := genres;
      films := [];
      genreFilm := [];
      keywords := [];
      filmKeyword := [];
      nextFilmId := 1;
      nextKeywordId := 1;
    }

    /** session.add(Film(...)); commit: the new row takes the next film id. */
    method AddFilm(imdbId: string, name: string) returns (id: int)
      modifies this
      ensures id == old(nextFilmId)
      ensures Snapshot() == InsertFilm(old(Snapshot()), imdbId, name)
    {
      id := nextFilmId;
      films := films + [Film(id, imdbId, name)];
      nextFilmId := nextFilmId + 1;
    }

    /** genre.films.append(film); commit */
    method AddGenreFilm(genreId: int, filmId: int)
      modifies this
      ensures Snapshot() == InsertGenreFilm(old(Snapshot()), genreId, filmId)
    {
      genreFilm := genreFilm + [GenreFilm(genreId, filmId)];
    }

    /** session.add(Keyword(...)); commit: the new row takes the next keyword id. */
    method AddKeyword(name: string) returns (id: int)
      modifies this
      ensures id == old(nextKeywordId)
      ensures Snapshot() == InsertKeyword(old(Snapshot()), name)
    {
      id := nextKeywordId;
      keywords := keywords + [Keyword(id, name)];
      nextKeywordId := nextKeywordId + 1;
    }

    /** film.keywords.append(Film_Keyword(...)); commit */
    method AddFilmKeyword(filmId: int, keywordId: int, relevance: string)
      modifies this
      ensures Snapshot() == InsertFilmKeyword(old(Snapshot()), filmId, keywordId, relevance)
    {
      filmKeyword := filmKeyword + [FilmKeyword(filmId, keywordId, relevance)];
    }
  }
}
