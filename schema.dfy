/**
 * The logical rows of the relational store, as both scripts declare them
 * (imdbkw/imdbkw.py and imdb-spider/init.py): genre, film, keyword, and the
 * junctions genre_film and film_keyword. Ids come from the tables' sequences.
 */
module Schema {
  import opened ImdbText

  /** A row of genre; url_name identifies the genre in listing requests. */
  datatype Genre = Genre(id: int, name: string, urlName: string)

  /** A row of film; imdb_id is the catalog's own identifier of the title. */
  datatype Film = Film(id: int, imdbId: string, name: string)

  /** A row of keyword. */
  datatype Keyword = Keyword(id: int, name: string)

  /** A row of the genre_film junction. */
  datatype GenreFilm = GenreFilm(genreId: int, filmId: int)

  /** A row of film_keyword; relevant is a varchar column. */
  datatype FilmKeyword = FilmKeyword(filmId: int, keywordId: int, relevance: string)

  /**
   * The text a varchar column holds for a Python value: the str itself, or
   * the decimal rendering of an int, which int() reads back.
   */
  function ColumnText(v: Value): (s: string)
    ensures v.Str? ==> s == v.s
    ensures v.Int? ==> ParseInt(s) == (v, true)
  {
    match v
    case Str(t) => t
    case Int(n) => ParseIntOfDecimal(n); DecimalString(n)
  }
}
