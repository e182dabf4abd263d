/**
 * The film write-back rule, the same in both scripts (imdbkw/imdbkw.py and
 * imdb-spider/init.py): a title whose imdb_id is not stored yet becomes a
 * film row, committed at once, and is then linked to the genre it was listed
 * under. A genre id with no row makes the link step raise AttributeError
 * after the film row was committed, which ends the batch.
 */
module FilmWrites {
  import opened ImdbText
  import opened Schema
  import opened Imdb
  import opened Db

  /** One title of write_film. */
  function FilmStep(t: Tables, title: Title): Run {
    if HasImdbId(t.films, title.imdbId) then Run(t, false)
    else
      var genre := FindGenre(t.genres, title.genreId);
      var added := InsertFilm(t, title.imdbId, title.name);
      if genre.None? then Run(added, true)
      else Run(InsertGenreFilm(added, genre.value.id, t.nextFilmId), false)
  }

  /** write_film over a batch: titles in order, stopping at the first raise. */
  function ApplyFilms(t: Tables, titles: seq<Title>): Run
    decreases |titles|
  {
    if titles == [] then Run(t, false)
    else
      var step := FilmStep(t, titles[0]);
      if step.aborted then step else ApplyFilms(step.tables, titles[1..])
  }

  /**
   * A stored imdb_id leaves the store as it is; an absent one adds exactly
   * one film row with the next id, linked to exactly the title's genre, or,
   * when that genre has no row, committed without any link and the batch
   * ends.
   */
  lemma FilmStepEffect(t: Tables, title: Title)
    requires Consistent(t)
    ensures var r := FilmStep(t, title);
            HasImdbId(t.films, title.imdbId) ==> r == Run(t, false)
    ensures var r := FilmStep(t, title);
            !HasImdbId(t.films, title.imdbId) ==>
              && r.tables.films == t.films + [Film(t.nextFilmId, title.imdbId, title.name)]
              && (forall f :: f in t.films ==> f.id != t.nextFilmId)
              && (r.aborted <==> forall g :: g in t.genres ==> g.id != title.genreId)
              && (r.aborted ==> r.tables.genreFilm == t.genreFilm)
              && (!r.aborted ==> r.tables.genreFilm == t.genreFilm + [GenreFilm(title.genreId, t.nextFilmId)])
              && (forall g :: g in t.genreFilm ==> g.filmId != t.nextFilmId)
  {
  }

  /** One title keeps the ids drawn from their sequences and the imdb_ids distinct, and only appends. */
  lemma FilmStepPreserves(t: Tables, title: Title)
    requires Consistent(t) && UniqueImdbIds(t.films)
    ensures var u := FilmStep(t, title).tables;
            Consistent(u) && UniqueImdbIds(u.films) && Extends(t, u)
            && u.keywords == t.keywords && u.filmKeyword == t.filmKeyword
  {
    var u := FilmStep(t, title).tables;
    if !HasImdbId(t.films, title.imdbId) {
      assert u.films == t.films + [Film(t.nextFilmId, title.imdbId, title.name)];
      forall i, j | 0 <= i < j < |u.films|
        ensures u.films[i].imdbId != u.films[j].imdbId
      {
        if j == |t.films| {
          assert u.films[i] in t.films;
        }
      }
    }
  }

  /** write_film keeps the store consistent, keeps imdb_ids distinct even when the batch repeats one, and only appends. */
  lemma {:induction false} ApplyFilmsPreserves(t: Tables, titles: seq<Title>)
    requires Consistent(t) && UniqueImdbIds(t.films)
    ensures var u := ApplyFilms(t, titles).tables;
            Consistent(u) && UniqueImdbIds(u.films) && Extends(t, u)
            && u.keywords == t.keywords && u.filmKeyword == t.filmKeyword
    decreases |titles|
  {
    if titles != [] {
      var step := FilmStep(t, titles[0]);
      FilmStepPreserves(t, titles[0]);
      if !step.aborted {
        ApplyFilmsPreserves(step.tables, titles[1..]);
        ExtendsTransitive(t, step.tables, ApplyFilms(step.tables, titles[1..]).tables);
      }
    }
  }

  lemma FilmStepExtends(t: Tables, title: Title)
    ensures Extends(t, FilmStep(t, title).tables)
  {
  }

  /** After a batch that ran to the end, every title's imdb_id is stored. */
  lemma {:induction false} ApplyFilmsCovers(t: Tables, titles: seq<Title>)
    ensures var r := ApplyFilms(t, titles);
            !r.aborted ==> forall i :: 0 <= i < |titles| ==> HasImdbId(r.tables.films, titles[i].imdbId)
    decreases |titles|
  {
    if titles != [] {
      var step := FilmStep(t, titles[0]);
      if !step.aborted {
        var r := ApplyFilms(step.tables, titles[1..]);
        ApplyFilmsCovers(step.tables, titles[1..]);
        assert HasImdbId(step.tables.films, titles[0].imdbId);
        FilmStepExtends(t, titles[0]);
        ApplyFilmsExtends(step.tables, titles[1..]);
        ExtendsKeeps(step.tables, r.tables);
        forall i | 0 <= i < |titles| && !r.aborted
          ensures HasImdbId(r.tables.films, titles[i].imdbId)
        {
          if i == 0 {
            assert HasImdbId(step.tables.films, titles[0].imdbId);
          } else {
            assert titles[i] == titles[1..][i - 1];
          }
        }
      }
    }
  }

  lemma {:induction false} ApplyFilmsExtends(t: Tables, titles: seq<Title>)
    ensures Extends(t, ApplyFilms(t, titles).tables)
    decreases |titles|
  {
    if titles != [] {
      var step := FilmStep(t, titles[0]);
      FilmStepExtends(t, titles[0]);
      if !step.aborted {
        ApplyFilmsExtends(step.tables, titles[1..]);
        ExtendsTransitive(t, step.tables, ApplyFilms(step.tables, titles[1..]).tables);
      }
    }
  }

  /** A batch whose every imdb_id is already stored changes nothing. */
  lemma {:induction false} ApplyFilmsSkipsPresent(t: Tables, titles: seq<Title>)
    requires forall i :: 0 <= i < |titles| ==> HasImdbId(t.films, titles[i].imdbId)
    ensures ApplyFilms(t, titles) == Run(t, false)
    decreases |titles|
  {
    if titles != [] {
      assert HasImdbId(t.films, titles[0].imdbId);
      forall i | 0 <= i < |titles[1..]|
        ensures HasImdbId(t.films, titles[1..][i].imdbId)
      {
        assert titles[1..][i] == titles[i + 1];
      }
      ApplyFilmsSkipsPresent(t, titles[1..]);
    }
  }

  /** Writing a batch a second time, after it ran to the end once, leaves the store as it is. */
  lemma ApplyFilmsIdempotent(t: Tables, titles: seq<Title>)
    requires !ApplyFilms(t, titles).aborted
    ensures var u := ApplyFilms(t, titles).tables;
            ApplyFilms(u, titles) == Run(u, false)
  {
    ApplyFilmsCovers(t, titles);
    ApplyFilmsSkipsPresent(ApplyFilms(t, titles).tables, titles);
  }

  /** A batch is its prefix followed by the rest, unless the prefix already raised. */
  lemma {:induction false} ApplyFilmsConcat(t: Tables, front: seq<Title>, back: seq<Title>)
    ensures var f := ApplyFilms(t, front);
            ApplyFilms(t, front + back) == if f.aborted then f else ApplyFilms(f.tables, back)
    decreases |front|
  {
    if front == [] {
      assert front + back == back;
    } else {
      assert (front + back)[0] == front[0];
      assert (front + back)[1..] == front[1..] + back;
      var step := FilmStep(t, front[0]);
      if !step.aborted {
        ApplyFilmsConcat(step.tables, front[1..], back);
      }
    }
  }

  /**
   * A title whose genre has no row ends the batch: the store keeps what the
   * earlier titles and the failing title's film row committed, and the
   * titles after it are never written.
   */
  lemma AbortDropsRest(t: Tables, titles: seq<Title>, i: int)
    requires 0 <= i < |titles|
    requires !ApplyFilms(t, titles[..i]).aborted
    requires FilmStep(ApplyFilms(t, titles[..i]).tables, titles[i]).aborted
    ensures ApplyFilms(t, titles) == FilmStep(ApplyFilms(t, titles[..i]).tables, titles[i])
  {
    assert titles == titles[..i] + titles[i..];
    ApplyFilmsConcat(t, titles[..i], titles[i..]);
    assert titles[i..][0] == titles[i];
  }
}
