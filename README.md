# imdbkw, modelled in Dafny

imdbkw is a scraper of the IMDb catalog. It has two phases, and both write into a relational store.

- **Films.** For every genre and a requested count num, it requests listing pages 1 to max(1, ⌈num/50⌉)
  of that genre. It turns the first num title links, in page order, into title records: the imdb_id cut
  out of the href, the link text, and the genre's id. `write_film` adds a film row for each title whose
  imdb_id is not stored yet, and links that new row to the genre it was listed under. A title already
  stored is skipped.
- **Keywords.** It selects at most num films that have no keyword link yet, and reads each one's keyword
  page. Each entry becomes a keyword record: the name, a relevance taken from the entry's count text,
  and the film's id. `write_keyword` stores the records as keyword rows and film_keyword links.

Two variants of the write-back exist:

- `imdbkw/imdbkw.py` is the current one. It catches every exception, so an exception only ends the
  batch. It finds or creates each keyword by name and links each (film, keyword) pair once.
- `imdb-spider/init.py` is the older one. It catches nothing. Its write_keyword is meant to skip a
  keyword whose name is already linked to some film. As written, its test (init.py:151) also skips a
  name whose keyword row exists unlinked, as long as some film has a link. The model runs the intended
  test and records the one as written in the finding below.

The project has seven modules:

- `ImdbText` (`imdb_text.dfy`) holds the string helpers of `imdb-spider/imdb.py`: `parse_letters`,
  `re.split` on `/` and on `//|/`, `parse_url_name`, `parse_imdb_id`, `str.strip` and `parse_int`
  (Python's `int()` on a str). Characters are ASCII.
- `Schema` (`schema.dfy`) holds the logical rows of the five tables, and the text a varchar column keeps
  for a Python value.
- `Imdb` (`imdb.dfy`) holds the page loop of `get_title_by_genre` and the record loop of
  `get_keyword_by_film`. The fetched pages and keyword entries are inputs. A method proved against a
  specification function models each loop.
- `Db` (`db.dfy`) holds the store as a value (`Tables`): the queries the scripts issue, the single-row
  inserts each commit makes, and the invariants. It also holds the mutable `Store` class, whose fields
  are the tables.
- `FilmWrites` (`film_writes.dfy`) holds the film rule shared by both variants, as a step function and a
  batch function, with its lemmas.
- `ImdbKw` (`imdbkw.dfy`) holds the current variant: `write_film`, `write_keyword` and the film selection
  of `process_keyword`. `WriteFilm` and `WriteKeyword` are methods that take a `Store` and change it;
  each is proved to leave the store its batch function computes. `SelectFilms` reads the store, and
  its contract states which films it returns.
- `SpiderInit` (`spider_init.dfy`) holds the older variant with the intended skip-if-name-linked rule.
  It also holds the skip test as written, with its own step and batch functions, which are the subject
  of the finding below.

A batch runs its records in order. The result is a `Run`: the tables, plus whether an exception ended
the batch. Every row is committed as it is added, so the rows added before an exception stay.

## Model

| member | source | states |
|---|---|---|
| ImdbText.ParseLetters | imdb-spider/imdb.py:20-21 | the result holds only lower-case letters and is never longer than the input |
| ImdbText.ParseLettersChar | imdb-spider/imdb.py:20-21 | character by character: a letter comes out as its lower-case form and any other character is dropped |
| ImdbText.ParseLettersConcat | imdb-spider/imdb.py:20-21 | the letters of a + b are the letters of a followed by the letters of b, so input order is kept |
| ImdbText.ParseLettersFixedPoint | imdb-spider/imdb.py:20-21 | a string comes back unchanged exactly when it consists of lower-case letters only (both directions) |
| ImdbText.ParseLettersIdempotent | imdb-spider/imdb.py:20-21 | cleaning an already cleaned genre label changes nothing |
| ImdbText.Split | imdb-spider/imdb.py:23-27 | re.split yields at least one field, and no field contains a '/' |
| ImdbText.JoinSplit | imdb-spider/imdb.py:26-27 | gluing the fields of re.split('/', s) back together with '/' gives s: splitting loses no character |
| ImdbText.SplitJoin | imdb-spider/imdb.py:26-27 | splitting slash-free fields glued with '/' gives the fields back |
| ImdbText.SplitFieldCount | imdb-spider/imdb.py:26-27 | re.split('/', s) has exactly one field more than s has slashes |
| ImdbText.SplitDoubleFieldCount | imdb-spider/imdb.py:23-24 | re.split('//\|/', s) has at most one field more than s has slashes |
| ImdbText.ParseUrlName | imdb-spider/imdb.py:23-24 | the url name contains no '/'; an href with fewer than three slashes raises IndexError |
| ImdbText.ParseUrlNameOfHref | imdb-spider/imdb.py:23-24 | scheme://host/section/NAME[/rest] yields NAME, e.g. the genre href "http://www.imdb.com/genre/action/?ref" yields "action" |
| ImdbText.ParseImdbId | imdb-spider/imdb.py:26-27 | the id contains no '/'; the call raises IndexError exactly when the href has fewer than two slashes, i.e. fewer than three segments |
| ImdbText.ParseImdbIdOfHref | imdb-spider/imdb.py:26-27 | prefix/section/ID[/rest] yields ID, e.g. "/title/tt0111161/" yields "tt0111161" |
| ImdbText.LeadingSpaces | imdb-spider/imdb.py:67 | the count of white-space characters that str.strip removes at the front: all of them are white space and the next character is not |
| ImdbText.TrimEnd | imdb-spider/imdb.py:67 | the back half of str.strip: a prefix of its input that does not end in white space, with every character cut being white space, and not empty when the input starts with a non-space |
| ImdbText.Strip | imdb-spider/imdb.py:67 | str.strip(): the slice of the input after its leading white space, starting and ending with a non-space character, with only white space after it; empty exactly when the input is all white space |
| ImdbText.ParseInt | imdb-spider/imdb.py:29-33 | on success the value is an int; on failure the result is (value, False) with the value unchanged |
| ImdbText.ParseIntOfDecimal | imdb-spider/imdb.py:29-33 | parse_int(str(n)) == (n, True) for every int n, negative ones included |
| ImdbText.ParseIntOneChar | imdb-spider/imdb.py:29-33 | on a one-character str, parse_int succeeds exactly when the character is a decimal digit, and then yields that digit's value |
| Schema.ColumnText | imdbkw/imdbkw.py:49 | the relevant varchar keeps a str as it is, and an int as decimal text that parse_int reads back as the same int |
| Imdb.CeilPages | imdb-spider/imdb.py:52 | math.ceil(num / 50): the least r with num <= 50 * r |
| Imdb.PageCount | imdb-spider/imdb.py:37-55 | at least one page is requested; for num > 0 it is the least number of 50-title pages that hold num |
| Imdb.PageCountExamples | imdb-spider/imdb.py:37-55 | 120 titles take 3 pages, 0 titles still take 1, 50 take 1 and 51 take 2 |
| Imdb.Requests | imdb-spider/imdb.py:40-44 | the i-th listing request asks for page i + 1 of the genre's url_name |
| Imdb.ToTitles | imdb-spider/imdb.py:47-51 | the links convert without error exactly when every href has an id; the i-th title then carries the i-th link's id and text and the genre id; otherwise IndexError |
| Imdb.TitlesFor | imdb-spider/imdb.py:35-56 | definition, no contract of its own: the first num links of pages 1..PageCount(num) converted to titles; its meaning is stated by TitlesForFirstLinks and GetTitleByGenre |
| Imdb.TitlesForFirstLinks | imdb-spider/imdb.py:47-51 | the result holds min(num, links) titles, zero for num <= 0; title i comes from link i in page order, carries genre.id, and its id has no '/' |
| Imdb.CollectStep | imdb-spider/imdb.py:48-51 | one link of the loop: skipped once num titles are held; otherwise it adds its title, or raises the href's IndexError |
| Imdb.CollectPage | imdb-spider/imdb.py:47-51 | the `for a in select` loop over one page leaves exactly the titles of the first num links seen so far, or the raise |
| Imdb.LastPage | imdb-spider/imdb.py:52-55 | the break test ceil(num/50) <= page holds at exactly the last page, PageCount(num) |
| Imdb.RaisedAtPage | imdb-spider/imdb.py:49 | an href without an id among the collected links of the early pages makes the whole call raise IndexError |
| Imdb.GetTitleByGenre | imdb-spider/imdb.py:35-56 | returns the titles of the first num links of pages 1..PageCount(num); with no raise, the requests are exactly pages 1..PageCount(num) in order; on a raise, they are a consecutive prefix of them |
| Imdb.Relevance | imdb-spider/imdb.py:67-69 | definition, no contract of its own: the first non-blank character of the count text as a str when it is a digit, else the int 0; FirstStrippedRelevance proves it equal to the strip, slice and parse_int steps of the source |
| Imdb.FirstStripped | imdb-spider/imdb.py:67 | text.strip()[:1]: at most one character, a prefix of the stripped text, empty only when the stripped text is empty |
| Imdb.FirstStrippedRelevance | imdb-spider/imdb.py:67-69 | keeping the stripped first character when parse_int accepts it, else 0, yields the first non-blank character as a str when it is a digit, and the int 0 otherwise |
| Imdb.StoredRelevanceIsDigit | imdb-spider/imdb.py:67-69 | the relevance column always receives exactly one decimal digit, "0" when nothing parsed |
| Imdb.RelevanceOfLeading | imdb-spider/imdb.py:67-69 | a count text that starts with a non-blank character c has relevance c when c is a digit, else 0 |
| Imdb.RelevanceExamples | imdb-spider/imdb.py:67-69 | "8 of 9" gives '8', "  3" gives '3', and "N/A" and "" give 0 |
| Imdb.GetKeywordByFilm | imdb-spider/imdb.py:64-71 | exactly one record per scraped item, in order, with the item's name, its relevance and film.id |
| Db.FindGenre | imdbkw/imdbkw.py:118 | a genre found has the asked id; none is found exactly when no genre row has it |
| Db.FindFilm | imdbkw/imdbkw.py:154 | a film found has the asked id; none is found exactly when no film row has it |
| Db.FindKeyword | imdbkw/imdbkw.py:153 | a keyword found is the earliest row with the asked name; none is found exactly when no keyword row has it |
| Db.HasImdbId | imdbkw/imdbkw.py:117 | the count is nonzero exactly when some film row has that imdb_id |
| Db.HasLink | imdbkw/imdbkw.py:163 | the count is nonzero exactly when a film_keyword row joins that film and that keyword |
| Db.HasAnyLink | imdbkw/imdbkw.py:136 | Film.keywords is non-empty exactly when some film_keyword row names the film |
| Db.PendingFilms | imdbkw/imdbkw.py:136 | the films returned are exactly the film rows with no keyword link, at most all of them |
| Db.ExtendsTransitive | imdbkw/imdbkw.py:116-123 | an append-only change followed by another is append-only |
| Db.ExtendsKeeps | imdbkw/imdbkw.py:116-166 | appending rows never loses a stored imdb_id, a film row or a film's link to a keyword name |
| Db.Store.constructor | imdbkw/imdbkw.py:53-78 | a fresh store holds only the genre rows, and both id sequences start at 1 |
| Db.Store.AddFilm | imdbkw/imdbkw.py:119-121 | session.add of a film and a commit: the row is appended under the next film id |
| Db.Store.AddGenreFilm | imdbkw/imdbkw.py:122-123 | genre.films.append and a commit: one genre_film row is appended |
| Db.Store.AddKeyword | imdbkw/imdbkw.py:157-159 | session.add of a keyword and a commit: the row is appended under the next keyword id |
| Db.Store.AddFilmKeyword | imdbkw/imdbkw.py:160-162 | film.keywords.append and a commit: one film_keyword row is appended |
| FilmWrites.FilmStep | imdbkw/imdbkw.py:116-123 | definition, no contract of its own, shared by both variants as written: one title of write_film; its meaning is stated by FilmStepEffect and FilmStepPreserves |
| FilmWrites.ApplyFilms | imdbkw/imdbkw.py:116-123 | definition, no contract of its own, as written: the titles in order, stopping at the first raise; its meaning is stated by the ApplyFilms lemmas |
| FilmWrites.FilmStepEffect | imdbkw/imdbkw.py:117-123 | a stored imdb_id changes nothing; an absent one appends exactly one film row (next id, the title's imdb_id and name) under an id no row had; then exactly one genre_film row (title's genre, new id) is appended, or, when the genre has no row, none is and the batch ends |
| FilmWrites.FilmStepPreserves | imdbkw/imdbkw.py:116-123 | one title keeps ids drawn from their sequences and imdb_ids distinct, only appends, and leaves keywords and links alone |
| FilmWrites.ApplyFilmsPreserves | imdbkw/imdbkw.py:116-123 | write_film keeps imdb_ids pairwise distinct even when the batch repeats an id, keeps the store consistent, and only appends |
| FilmWrites.ApplyFilmsExtends | imdbkw/imdbkw.py:116-123 | write_film never removes or rewrites a row |
| FilmWrites.ApplyFilmsCovers | imdbkw/imdbkw.py:116-123 | after a batch that did not raise, every title's imdb_id is stored |
| FilmWrites.ApplyFilmsSkipsPresent | imdbkw/imdbkw.py:117 | a batch whose imdb_ids are all stored changes nothing: an existing film gets no second row and no second genre link |
| FilmWrites.ApplyFilmsIdempotent | imdbkw/imdbkw.py:113-128 | writing a batch a second time, after it ran to the end once, leaves the store as it is |
| FilmWrites.ApplyFilmsConcat | imdbkw/imdbkw.py:116 | a batch is its prefix followed by the rest, unless the prefix raised |
| FilmWrites.AbortDropsRest | imdbkw/imdbkw.py:118-128 | a title whose genre has no row ends the batch; the store keeps the earlier titles and that title's committed film row, and the later titles are never written |
| ImdbKw.WriteFilm | imdbkw/imdbkw.py:113-128 | the store after write_film is the film batch function applied to the store before it |
| ImdbKw.KeywordStep | imdbkw/imdbkw.py:152-166 | definition, no contract of its own, as written: one record of write_keyword; its meaning is stated by KeywordStepEffect and KeywordStepPreserves |
| ImdbKw.ApplyKeywords | imdbkw/imdbkw.py:152-166 | definition, no contract of its own, as written: the records in order, stopping at the first raise; its meaning is stated by the ApplyKeywords lemmas |
| ImdbKw.KeywordStepEffect | imdbkw/imdbkw.py:153-166 | a keyword row is added exactly when no row has the name; a missing film ends the batch with no link added (a new keyword row stays); otherwise the film ends up linked to a keyword of that name, and any link added carries the record's relevance |
| ImdbKw.KeywordStepPreserves | imdbkw/imdbkw.py:153-166 | one record keeps ids drawn from their sequences, (film, keyword) pairs unique and keyword names unique, only appends, and touches neither films nor genre links |
| ImdbKw.ApplyKeywordsPreserves | imdbkw/imdbkw.py:152-166 | write_keyword keeps pairs unique and keyword names unique, keeps the store consistent, and only appends |
| ImdbKw.ApplyKeywordsKeepsRelevance | imdbkw/imdbkw.py:163-166 | a stored link is never overwritten: afterwards it is still the only row for its (film, keyword) pair |
| ImdbKw.ApplyKeywordsLinks | imdbkw/imdbkw.py:152-166 | after a batch that did not raise, every record's film exists and is linked to a keyword of the record's name |
| ImdbKw.ApplyKeywordsSkipsLinked | imdbkw/imdbkw.py:163 | a batch whose films are all linked to their names already changes nothing |
| ImdbKw.LinkedRecordSkipped | imdbkw/imdbkw.py:163 | a record whose film exists and is already linked to a keyword of its name changes nothing and does not raise |
| ImdbKw.AbortedRecordRepeats | imdbkw/imdbkw.py:153-166 | a record that raised raises again, at once and with no further change, when it is written to the store it left |
| ImdbKw.ApplyKeywordsIdempotent | imdbkw/imdbkw.py:148-171 | writing a keyword batch a second time leaves the store and the outcome as the first run left them, whether or not that run raised: an aborting record raises again at once |
| ImdbKw.WriteKeyword | imdbkw/imdbkw.py:148-171 | the store after write_keyword is the keyword batch function applied to the store before it |
| ImdbKw.SliceTo | imdbkw/imdbkw.py:138 | Python's films[:num]: a prefix of min(num, len) elements, or len + num elements for a negative num |
| ImdbKw.SelectFilms | imdbkw/imdbkw.py:136-138 | the selected films are a prefix of the films with no keyword link, each in the film table with no link, and their number is what films[:num] leaves |
| SpiderInit.WriteFilm | imdb-spider/init.py:118-129 | the store after write_film is the shared film batch function applied to the store before it; the call raises AttributeError exactly when the batch aborted |
| SpiderInit.NameLinked | imdb-spider/init.py:151 | definition, no contract of its own, corrected rule: some film with a row is linked to a keyword row of that name; AsWrittenSkipAgrees and AsWrittenSkipsUnlinkedName relate it to the test as written |
| SpiderInit.AddLinkedKeyword | imdb-spider/init.py:152-159 | definition, no contract of its own, as written: a new keyword row, committed, then the film's link to it, or AttributeError for a missing film; its meaning is stated by LegacyKeywordStepEffect and AddLinkedKeywordKeepsOneLink |
| SpiderInit.LegacyKeywordStep | imdb-spider/init.py:150-159 | definition, no contract of its own, corrected rule: one record, skipped when NameLinked holds; its meaning is stated by LegacyKeywordStepEffect |
| SpiderInit.ApplyLegacyKeywords | imdb-spider/init.py:150-159 | definition, no contract of its own, corrected rule: the records in order, stopping at the first raise; its meaning is stated by the ApplyLegacy lemmas |
| SpiderInit.LegacyKeywordStepEffect | imdb-spider/init.py:151-159 | a linked name changes nothing; otherwise exactly one new keyword row is added, even beside an unlinked row of that name, plus exactly one link carrying the record's relevance, or, for a missing film, no link and the batch ends |
| SpiderInit.UnlinkedRowKeepsOneLink | imdb-spider/init.py:152-155 | a keyword row committed without a link gives no name a second link |
| SpiderInit.LinkedRowKeepsOneLink | imdb-spider/init.py:152-159 | appending a fresh keyword row with its one link keeps one link per name when no old link reaches that name |
| SpiderInit.AddLinkedKeywordKeepsOneLink | imdb-spider/init.py:151-159 | the unskipped branch gives no name a second link |
| SpiderInit.LegacyKeywordStepPreserves | imdb-spider/init.py:150-159 | one record keeps ids drawn from their sequences, links owned by existing films, and at most one link per keyword name |
| SpiderInit.LegacyKeywordStepConsistent | imdb-spider/init.py:150-159 | one record keeps ids drawn from their sequences and links owned by existing films, and only appends keywords and links |
| SpiderInit.NameLinkedExtends | imdb-spider/init.py:151 | a name linked to a film stays linked after rows are appended |
| SpiderInit.LegacyStepLinksName | imdb-spider/init.py:151-159 | a record that does not raise leaves its keyword name linked to a film |
| SpiderInit.ApplyLegacyKeywordsPreserves | imdb-spider/init.py:150-159 | write_keyword keeps each keyword name linked to at most one film, once, and keeps the store consistent |
| SpiderInit.ApplyLegacyKeywordsExtends | imdb-spider/init.py:150-159 | write_keyword never removes or rewrites a row |
| SpiderInit.ApplyLegacyLinksEveryName | imdb-spider/init.py:150-159 | after a batch that did not raise, every record's keyword name is linked to some film |
| SpiderInit.ApplyLegacySkipsLinked | imdb-spider/init.py:151 | a batch whose names are all linked already changes nothing: no keyword row and no link is added |
| SpiderInit.ApplyLegacyKeywordsIdempotent | imdb-spider/init.py:147-159 | writing a keyword batch a second time, after it ran to the end once, leaves the store as it is |
| SpiderInit.ApplyFilmsKeepsLinkInvariants | imdb-spider/init.py:118-129 | the film write-back keeps the invariants the keyword write-back relies on |
| SpiderInit.WriteKeyword | imdb-spider/init.py:147-159 | the store after write_keyword is the keyword batch function applied to the store before it; the call raises AttributeError exactly when the batch aborted |
| SpiderInit.SelectFilms | imdb-spider/init.py:138 | at most `limit` films, a prefix of the films with no keyword link, each in the film table with no link |
| SpiderInit.AsWrittenSkip | imdb-spider/init.py:151 | definition, no contract of its own, as written: some film has any link and some keyword row, linked or not, has the name |
| SpiderInit.AsWrittenKeywordStep | imdb-spider/init.py:150-159 | definition, no contract of its own, as written: one record, skipped when AsWrittenSkip holds |
| SpiderInit.ApplyAsWrittenKeywords | imdb-spider/init.py:150-159 | definition, no contract of its own, as written: the records in order with the as-written skip test, stopping at the first raise; its meaning is stated by ApplyAsWrittenKeywordsPreserves, ApplyAsWrittenKeywordsExtends, ApplyAsWrittenSkipsEveryName, ApplyAsWrittenSkipsAll and ApplyAsWrittenKeywordsIdempotent, and AfterAbortedBatchReachable evaluates it |
| SpiderInit.NameLinkedAsWrittenSkip | imdb-spider/init.py:151 | a name the intended test skips is skipped by the test as written too, so the two differ only where the test as written skips more |
| SpiderInit.AsWrittenStepIsLegacy | imdb-spider/init.py:151-159 | a record the test as written lets through runs the same insert branch as the intended step |
| SpiderInit.AsWrittenStepPreserves | imdb-spider/init.py:150-159 | one record, as written, keeps ids drawn from their sequences, links owned by existing films and at most one link per keyword name, and only appends |
| SpiderInit.ApplyAsWrittenKeywordsPreserves | imdb-spider/init.py:150-159 | write_keyword as written keeps each keyword name linked to at most one film, once, keeps the store consistent, and leaves films and genre links alone |
| SpiderInit.AsWrittenStepExtends | imdb-spider/init.py:150-159 | one record, as written, never removes or rewrites a row |
| SpiderInit.ApplyAsWrittenKeywordsExtends | imdb-spider/init.py:150-159 | write_keyword as written never removes or rewrites a row |
| SpiderInit.AsWrittenSkipExtends | imdb-spider/init.py:151 | once the test as written skips a name, it keeps skipping it after rows are appended |
| SpiderInit.AsWrittenStepSkipsName | imdb-spider/init.py:151-159 | a record that does not raise, as written, leaves a store on which the test as written skips its name |
| SpiderInit.ApplyAsWrittenSkipsEveryName | imdb-spider/init.py:150-159 | after a batch as written that did not raise, the test as written skips every record's name |
| SpiderInit.ApplyAsWrittenSkipsAll | imdb-spider/init.py:151 | a batch as written whose names the test as written all skips changes nothing |
| SpiderInit.ApplyAsWrittenKeywordsIdempotent | imdb-spider/init.py:147-159 | writing a batch as written a second time, after it ran to the end once, leaves the store as it is |
| SpiderInit.AsWrittenSkipAgrees | imdb-spider/init.py:151 | the skip test as written and as intended agree on every store in which each keyword row is linked to an existing film |
| SpiderInit.AfterAbortedBatchConsistent | imdb-spider/init.py:150-159 | the store a batch leaves after aborting at a missing film satisfies every invariant of the write-back |
| SpiderInit.AfterAbortedBatchReachable | imdb-spider/init.py:150-159 | that store is what write_keyword leaves after the batch [prison at film 1, escape at film 2] when film 2 has no row, both with the test as written and with the intended one: "escape" is committed without a link and the batch raises |
| SpiderInit.AsWrittenSkipsUnlinkedName | imdb-spider/init.py:151 | on that store the test as written skips ("escape", film 1) although no film is linked to "escape", while the intended test links it |

## Left out

- HTTP and HTML are not modelled: `requests.get`, BeautifulSoup and the CSS selectors. A genre's listing is given as its sequence of pages, a page past the end lists no title, and a keyword page is given as its sequence of (name, count text) entries.
- `get_genres`, `setup_genre` and `main` are not modelled. They fetch from the network, fill the genre table in bulk, or parse the command line. A `Store` starts from a given list of genre rows.
- Concurrency is not modelled. `multiprocessing.Pool`, the `apply_async` callbacks and races between concurrent `write_*` calls are all outside the model. Each write-back runs sequentially, one batch at a time, and the dispatch loops of `process_film` and `process_keyword` are covered only by their selection step.
- Engines, sessions, `add_process_guards` and logging are not modelled. `session.close()` between commits changes nothing in the store, so it is not modelled either.
- The schema is kept only as row shapes. Left out: varchar widths (String(9), String(100)): on a backend that enforces them, such as PostgreSQL, a longer value makes the commit raise, e.g. a 10-character imdb_id such as "tt10872600". At imdbkw.py:121 that exception is swallowed and ends the batch with no film row; at init.py:126 it propagates. The model stores the row instead. Also left out: the unused `rank` column of keyword, and the `Film_Keyword` primary key. The checks before every insert keep (film, keyword) pairs unique anyway.
- Queries without ORDER BY are modelled as returning rows in insertion order.
- Unicode is not modelled. `isalpha`, `lower`, `isspace` and the digits `int()` accepts are restricted to ASCII.
- `math.ceil(num / 50)` is modelled as an exact integer ceiling. Floating-point rounding for huge num is not modelled.
- `imdb-spider/imdb.py:54` reads `else` with no colon, which is a syntax error. The model follows the evident intent: advance to the next page and loop.
- ImdbText.ParseUrlName: its contract states the raise only for fewer than three slashes. The exact condition is fewer than four fields of the '//|/' split.
- FilmWrites.ApplyFilmsIdempotent: holds only when the first run finished without raising. After an abort, the second run goes on past the failing title.
- SpiderInit.ApplyLegacyKeywordsIdempotent: holds only when the first run finished without raising. After an abort at a missing film, the failing record's keyword row stays committed without a link, so a rerun adds a second keyword row of that name.
- SpiderInit.WriteKeyword: runs the intended skip test, a film linked to a keyword row of the name (NameLinked). The test as written at init.py:151 also skips a name whose keyword row is unlinked while some film has any link, so the two differ on such stores (AsWrittenSkipAgrees, AsWrittenSkipsUnlinkedName).
- SpiderInit.LegacyKeywordStepEffect: states the step with the intended skip test. The step with the test as written is AsWrittenKeywordStep, and it differs on stores that hold an unlinked keyword row of the name beside some link.
- SpiderInit.ApplyAsWrittenKeywordsIdempotent: holds only when the first run finished without raising. After an abort, the rerun may skip the failing record and go on to write the later ones.
- SpiderInit.SelectFilms: `limit` is a natural number. A negative SQL LIMIT is not modelled.

## Findings

| source | as written | input that shows it | evidently intended | confidence | as-written member | corrected member |
|---|---|---|---|---|---|---|
| imdb-spider/init.py:151 | `Film.keywords.any(Keyword.name == name)`: the criterion names the keyword table, which the EXISTS subquery lists beside film_keyword without joining them. The test holds when some film has any link and some keyword row, linked or not, has the name. | A batch [("prison", film 1), ("escape", film 2)] with no film 2 commits an unlinked "escape" row and raises. A later record ("escape", film 1) is then skipped, and "escape" is never linked. | Skip only when some film is linked to a keyword row of that name. | medium, not executed | SpiderInit.AsWrittenSkipsUnlinkedName | SpiderInit.ApplyLegacyLinksEveryName |
