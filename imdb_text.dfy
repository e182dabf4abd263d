/**
 * Text helpers of the scraper (imdb-spider/imdb.py): keeping the letters of a
 * genre label, cutting a field out of an href, and Python's int() on a str.
 * Characters are restricted to ASCII: a non-ASCII character is never a
 * letter, a digit or white space here.
 */
module ImdbText {

  datatype Option<T> = None | Some(value: T)

  /** The Python exceptions the modelled code can raise. */
  datatype Exception = IndexError | AttributeError

  /** A Python call that either returned a value or raised. */
  datatype Outcome<T> = Ok(value: T) | Raised(error: Exception)

  /** A Python value that is either an int or a str. */
  datatype Value = Int(i: int) | Str(s: string)

  predicate IsLetter(c: char) { 'a' <= c <= 'z' || 'A' <= c <= 'Z' }

  predicate IsLower(c: char) { 'a' <= c <= 'z' }

  predicate IsDigit(c: char) { '0' <= c <= '9' }

  /** str.isspace() on ASCII: space, \t \n \v \f \r and the separators 0x1C-0x1F. */
  predicate IsSpace(c: char) {
    var n := c as int;
    n == 32 || 9 <= n <= 13 || 28 <= n <= 31
  }

  function Lower(c: char): char {
    if 'A' <= c <= 'Z' then (c as int + 32) as char else c
  }

  // ---------------------------------------------------------------------
  // parse_letters

  /** ''.join(c for c in s if c.isalpha()).lower() */
  function ParseLetters(s: string): (r: string)
    ensures |r| <= |s|
    ensures forall i :: 0 <= i < |r| ==> IsLower(r[i])
  {
    if s == [] then []
    else (if IsLetter(s[0]) then [Lower(s[0])] else []) + ParseLetters(s[1..])
  }

  /** The letters of a + b are the letters of a followed by those of b: order is kept. */
  lemma {:induction false} ParseLettersConcat(a: string, b: string)
    ensures ParseLetters(a + b) == ParseLetters(a) + ParseLetters(b)
  {
    if a == [] {
      assert a + b == b;
    } else {
      assert (a + b)[1..] == a[1..] + b;
      ParseLettersConcat(a[1..], b);
    }
  }

  /** A string is left as it is exactly when it is made of lower-case letters only. */
  lemma {:induction false} ParseLettersFixedPoint(s: string)
    ensures ParseLetters(s) == s <==> forall i :: 0 <= i < |s| ==> IsLower(s[i])
  {
    if s != [] && forall i :: 0 <= i < |s| ==> IsLower(s[i]) {
      assert forall i :: 0 <= i < |s[1..]| ==> IsLower(s[1..][i]) by {
        forall i | 0 <= i < |s[1..]| ensures IsLower(s[1..][i]) {
          assert s[1..][i] == s[i + 1];
        }
      }
      ParseLettersFixedPoint(s[1..]);
      assert s == [s[0]] + s[1..];
    }
  }

  /** One character: a letter comes out as its lower-case form, anything else is dropped. */
  lemma ParseLettersChar(c: char)
    ensures ParseLetters([c]) == if IsLetter(c) then [Lower(c)] else []
  {
  }

  /** Cleaning a cleaned label changes nothing. */
  lemma ParseLettersIdempotent(s: string)
    ensures ParseLetters(ParseLetters(s)) == ParseLetters(s)
  {
    ParseLettersFixedPoint(ParseLetters(s));
  }

  // ---------------------------------------------------------------------
  // re.split on '/' and on '//|/'

  /** The position of the first '/' in s, or |s| when there is none. */
  function SlashIndex(s: string): (i: nat)
    ensures i <= |s|
    ensures forall j :: 0 <= j < i ==> s[j] != '/'
    ensures i < |s| ==> s[i] == '/'
  {
    if s == [] || s[0] == '/' then 0 else 1 + SlashIndex(s[1..])
  }

  /** The number of '/' characters in s. */
  function SlashCount(s: string): nat {
    if s == [] then 0 else (if s[0] == '/' then 1 else 0) + SlashCount(s[1..])
  }

  /** The separator pattern: re.split('/', s) or re.split('//|\/', s). */
  datatype Delimiter = Slash | SlashOrDoubleSlash

  /**
   * The fields of s between separators. The regular expression '//|\/' is
   * tried at the leftmost '/' and prefers the two-character alternative.
   */
  function Split(s: string, d: Delimiter): (fields: seq<string>)
    ensures |fields| >= 1
    ensures forall k :: 0 <= k < |fields| ==> '/' !in fields[k]
    decreases |s|
  {
    var i := SlashIndex(s);
    if i == |s| then
      assert forall j :: 0 <= j < |s| ==> s[j] != '/';
      [s]
    else
      var width := if d == SlashOrDoubleSlash && i + 1 < |s| && s[i + 1] == '/' then 2 else 1;
      assert forall j :: 0 <= j < i ==> s[..i][j] != '/';
      [s[..i]] + Split(s[i + width..], d)
  }

  /** Fields glued back together with '/'. */
  function Join(fields: seq<string>): string
    requires |fields| >= 1
  {
    if |fields| == 1 then fields[0] else fields[0] + "/" + Join(fields[1..])
  }

  lemma {:induction false} SlashIndexAfter(x: string, y: string)
    requires '/' !in x
    ensures SlashIndex(x + y) == |x| + SlashIndex(y)
  {
    if x != [] {
      assert (x + y)[0] == x[0] && x[0] != '/';
      assert (x + y)[1..] == x[1..] + y;
      SlashIndexAfter(x[1..], y);
    } else {
      assert x + y == y;
    }
  }

  /** A field followed by a single '/' that does not start a '//'. */
  lemma SplitCons(x: string, y: string, d: Delimiter)
    requires '/' !in x
    requires d == Slash || y == [] || y[0] != '/'
    ensures Split(x + "/" + y, d) == [x] + Split(y, d)
  {
    var s := x + "/" + y;
    assert s == x + ("/" + y);
    SlashIndexAfter(x, "/" + y);
    assert SlashIndex(s) == |x| && s[|x|] == '/';
    if y != [] {
      assert s[|x| + 1] == y[0];
    }
    assert s[..|x|] == x;
    assert s[|x| + 1..] == y;
  }

  /** A field followed by '//' under the pattern '//|\/'. */
  lemma SplitDoubleCons(x: string, y: string)
    requires '/' !in x
    ensures Split(x + "//" + y, SlashOrDoubleSlash) == [x] + Split(y, SlashOrDoubleSlash)
  {
    var s := x + "//" + y;
    assert s == x + ("//" + y);
    SlashIndexAfter(x, "//" + y);
    assert SlashIndex(s) == |x| && s[|x|] == '/' && s[|x| + 1] == '/';
    assert s[..|x|] == x;
    assert s[|x| + 2..] == y;
  }

  /** A slash-free string is its own single field. */
  lemma SplitNoSlash(x: string, d: Delimiter)
    requires '/' !in x
    ensures Split(x, d) == [x]
  {
    SlashIndexAfter(x, "");
    assert x + "" == x;
  }

  /** The first field of x + tail is x when tail is empty or starts a separator. */
  lemma SplitHead(x: string, tail: string, d: Delimiter)
    requires '/' !in x
    requires tail == [] || tail[0] == '/'
    ensures Split(x + tail, d)[0] == x
  {
    if tail == [] {
      assert x + tail == x;
      SplitNoSlash(x, d);
    } else {
      SlashIndexAfter(x, tail);
      assert (x + tail)[..|x|] == x;
    }
  }

  /** Joining the '/' fields of s gives s back. */
  lemma {:induction false} JoinSplit(s: string)
    ensures Join(Split(s, Slash)) == s
    decreases |s|
  {
    var i := SlashIndex(s);
    if i < |s| {
      var x, y := s[..i], s[i + 1..];
      assert '/' !in x by {
        assert forall j :: 0 <= j < |x| ==> x[j] == s[j];
      }
      assert s == x + "/" + y;
      SplitCons(x, y, Slash);
      JoinSplit(y);
      JoinCons(x, Split(y, Slash));
    } else {
      assert Split(s, Slash) == [s];
    }
  }

  /** Joining a field in front of at least one more puts a '/' between them. */
  lemma JoinCons(x: string, fields: seq<string>)
    requires |fields| >= 1
    ensures Join([x] + fields) == x + "/" + Join(fields)
  {
    assert ([x] + fields)[1..] == fields;
  }

  /** Splitting slash-free fields glued with '/' gives the fields back. */
  lemma {:induction false} SplitJoin(fields: seq<string>)
    requires |fields| >= 1
    requires forall k :: 0 <= k < |fields| ==> '/' !in fields[k]
    ensures Split(Join(fields), Slash) == fields
  {
    if |fields| == 1 {
      SplitNoSlash(fields[0], Slash);
    } else {
      SplitJoin(fields[1..]);
      SplitCons(fields[0], Join(fields[1..]), Slash);
      assert fields == [fields[0]] + fields[1..];
    }
  }

  lemma {:induction false} SlashCountConcat(a: string, b: string)
    ensures SlashCount(a + b) == SlashCount(a) + SlashCount(b)
  {
    if a == [] {
      assert a + b == b;
    } else {
      assert (a + b)[1..] == a[1..] + b;
      SlashCountConcat(a[1..], b);
    }
  }

  lemma {:induction false} SlashCountNone(x: string)
    requires '/' !in x
    ensures SlashCount(x) == 0
  {
    if x != [] {
      assert x[0] in x;
      assert forall c :: c in x[1..] ==> c in x;
      SlashCountNone(x[1..]);
    }
  }

  lemma SlashCountAt(s: string, i: nat)
    requires i < |s|
    ensures SlashCount(s[i..]) == (if s[i] == '/' then 1 else 0) + SlashCount(s[i + 1..])
  {
    assert s[i..][1..] == s[i + 1..];
  }

  /** The slashes of s are those before its first one, that one, and the rest. */
  lemma SlashCountAfterFirst(s: string)
    requires SlashIndex(s) < |s|
    ensures SlashCount(s) == 1 + SlashCount(s[SlashIndex(s) + 1..])
  {
    var i := SlashIndex(s);
    assert s == s[..i] + s[i..];
    SlashCountConcat(s[..i], s[i..]);
    assert '/' !in s[..i] by {
      assert forall j :: 0 <= j < i ==> s[..i][j] != '/';
    }
    SlashCountNone(s[..i]);
    SlashCountAt(s, i);
  }

  /** re.split('/') yields one more field than there are slashes. */
  lemma {:induction false} SplitFieldCount(s: string)
    ensures |Split(s, Slash)| == SlashCount(s) + 1
    decreases |s|
  {
    var i := SlashIndex(s);
    if i == |s| {
      SlashCountNone(s);
    } else {
      SplitFieldCount(s[i + 1..]);
      SlashCountAfterFirst(s);
    }
  }

  /** With '//|\/' a '//' is one separator, so there are at most as many fields. */
  lemma {:induction false} SplitDoubleFieldCount(s: string)
    ensures |Split(s, SlashOrDoubleSlash)| <= SlashCount(s) + 1
    decreases |s|
  {
    var i := SlashIndex(s);
    if i == |s| {
      SlashCountNone(s);
    } else {
      SlashCountAfterFirst(s);
      if i + 1 < |s| && s[i + 1] == '/' {
        assert Split(s, SlashOrDoubleSlash) == [s[..i]] + Split(s[i + 2..], SlashOrDoubleSlash);
        SplitDoubleFieldCount(s[i + 2..]);
        SlashCountAt(s, i + 1);
      } else {
        assert Split(s, SlashOrDoubleSlash) == [s[..i]] + Split(s[i + 1..], SlashOrDoubleSlash);
        SplitDoubleFieldCount(s[i + 1..]);
      }
    }
  }

  // ---------------------------------------------------------------------
  // parse_url_name and parse_imdb_id

  /** re.split('//|\/', href)[3]; fewer than four fields raise IndexError. */
  function ParseUrlName(href: string): (r: Outcome<string>)
    ensures r.Ok? ==> '/' !in r.value
    ensures SlashCount(href) < 3 ==> r == Raised(IndexError)
  {
    var fields := Split(href, SlashOrDoubleSlash);
    SplitDoubleFieldCount(href);
    if |fields| > 3 then Ok(fields[3]) else Raised(IndexError)
  }

  /** re.split('/', href)[2]; fewer than three fields raise IndexError. */
  function ParseImdbId(href: string): (r: Outcome<string>)
    ensures r.Ok? ==> '/' !in r.value
    ensures r.Raised? <==> SlashCount(href) < 2
    ensures r.Raised? ==> r.error == IndexError
  {
    var fields := Split(href, Slash);
    SplitFieldCount(href);
    if |fields| > 2 then Ok(fields[2]) else Raised(IndexError)
  }

  /**
   * A genre href of the shape scheme://host/section/NAME[/rest] gives NAME,
   * e.g. "http://www.imdb.com/genre/action/?ref" gives "action".
   */
  lemma ParseUrlNameOfHref(scheme: string, host: string, section: string, name: string, tail: string)
    requires '/' !in scheme && '/' !in host && '/' !in section && '/' !in name
    requires host != [] && section != [] && name != []
    requires tail == [] || tail[0] == '/'
    ensures ParseUrlName(scheme + "//" + host + "/" + section + "/" + name + tail) == Ok(name)
  {
    var d := SlashOrDoubleSlash;
    var rest2 := name + tail;
    var rest1 := section + "/" + rest2;
    var rest0 := host + "/" + rest1;
    var href := scheme + "//" + host + "/" + section + "/" + name + tail;
    assert href == scheme + "//" + rest0;
    var fields := Split(href, d);
    assert fields == [scheme] + ([host] + ([section] + Split(rest2, d))) by {
      SplitCons(section, rest2, d);
      SplitCons(host, rest1, d);
      SplitDoubleCons(scheme, rest0);
    }
    assert fields[3] == name by {
      SplitHead(name, tail, d);
    }
    assert |fields| > 3;
  }

  /**
   * A title href of the shape prefix/section/ID[/rest] gives ID,
   * e.g. "/title/tt0111161/" gives "tt0111161".
   */
  lemma ParseImdbIdOfHref(prefix: string, section: string, id: string, tail: string)
    requires '/' !in prefix && '/' !in section && '/' !in id
    requires tail == [] || tail[0] == '/'
    ensures ParseImdbId(prefix + "/" + section + "/" + id + tail) == Ok(id)
  {
    var rest1 := id + tail;
    var rest0 := section + "/" + rest1;
    var href := prefix + "/" + section + "/" + id + tail;
    var fields := Split(href, Slash);
    assert Split(rest1, Slash)[0] == id by {
      SplitHead(id, tail, Slash);
    }
    assert fields == [prefix] + ([section] + Split(rest1, Slash)) by {
      assert href == prefix + "/" + rest0;
      SplitCons(section, rest1, Slash);
      SplitCons(prefix, rest0, Slash);
    }
    assert fields[2] == id;
  }

  // ---------------------------------------------------------------------
  // str.strip() and int()

  /** The number of white-space characters s starts with. */
  function LeadingSpaces(s: string): (n: nat)
    ensures n <= |s|
    ensures forall j :: 0 <= j < n ==> IsSpace(s[j])
    ensures n < |s| ==> !IsSpace(s[n])
  {
    if s == [] || !IsSpace(s[0]) then 0 else 1 + LeadingSpaces(s[1..])
  }

  /** s without its leading white space. */
  function TrimStart(s: string): string {
    s[LeadingSpaces(s)..]
  }

  /** s without its trailing white space. */
  function TrimEnd(s: string): (r: string)
    ensures |r| <= |s| && r == s[..|r|]
    ensures r == [] || !IsSpace(r[|r| - 1])
    ensures s != [] && !IsSpace(s[0]) ==> r != []
    ensures forall j :: |r| <= j < |s| ==> IsSpace(s[j])
  {
    if s != [] && IsSpace(s[|s| - 1]) then TrimEnd(s[..|s| - 1]) else s
  }

  /**
   * str.strip(): a slice of s that neither starts nor ends with white space,
   * with only white space cut on either side; empty exactly when s is all
   * white space.
   */
  function Strip(s: string): (r: string)
    ensures var n := LeadingSpaces(s); n + |r| <= |s| && r == s[n..n + |r|]
    ensures r == [] || (!IsSpace(r[0]) && !IsSpace(r[|r| - 1]))
    ensures forall j :: LeadingSpaces(s) + |r| <= j < |s| ==> IsSpace(s[j])
    ensures r == [] <==> forall j :: 0 <= j < |s| ==> IsSpace(s[j])
  {
    TrimEnd(TrimStart(s))
  }

  function DigitValue(c: char): nat
    requires IsDigit(c)
  {
    c as int - '0' as int
  }

  /**
   * The value of a run of decimal digits in which single underscores may
   * stand between two digits, as int() accepts it; None for anything else.
   */
  function ParseDigits(s: string): Option<nat>
    decreases |s|
  {
    if s == [] || !IsDigit(s[|s| - 1]) then None
    else if |s| == 1 then Some(DigitValue(s[0]))
    else
      var prefix := s[..|s| - 1];
      var body := if prefix[|prefix| - 1] == '_' then prefix[..|prefix| - 1] else prefix;
      match ParseDigits(body)
      case None => None
      case Some(v) => Some(10 * v + DigitValue(s[|s| - 1]))
  }

  /** An optional sign followed by digits. */
  function ParseSigned(s: string): Option<int> {
    if s != [] && s[0] == '-' then
      match ParseDigits(s[1..])
      case None => None
      case Some(v) => var n: int := v; Some(-n)
    else if s != [] && s[0] == '+' then
      match ParseDigits(s[1..])
      case None => None
      case Some(v) => Some(v)
    else
      match ParseDigits(s)
      case None => None
      case Some(v) => Some(v)
  }

  /** parse_int: (int(value), True), or (value, False) where int() raises ValueError. */
  function ParseInt(value: string): (r: (Value, bool))
    ensures r.1 ==> r.0.Int?
    ensures !r.1 ==> r.0 == Str(value)
  {
    match ParseSigned(Strip(value))
    case Some(n) => (Int(n), true)
    case None => (Str(value), false)
  }

  /** The digit character for 0..9. */
  function Digit(n: nat): (c: char)
    requires n < 10
    ensures IsDigit(c) && DigitValue(c) == n
  {
    ('0' as int + n) as char
  }

  /** The digits of n, as str() writes a non-negative int. */
  function NatString(n: nat): (s: string)
    ensures s != [] && forall i :: 0 <= i < |s| ==> IsDigit(s[i])
  {
    if n < 10 then [Digit(n)] else NatString(n / 10) + [Digit(n % 10)]
  }

  /** str(n) */
  function DecimalString(n: int): string {
    if n < 0 then "-" + NatString(-n) else NatString(n)
  }

  lemma {:induction false} ParseDigitsOfNatString(n: nat)
    ensures ParseDigits(NatString(n)) == Some(n)
  {
    if n >= 10 {
      var s := NatString(n);
      assert s[..|s| - 1] == NatString(n / 10);
      ParseDigitsOfNatString(n / 10);
    }
  }

  lemma StripUnspaced(s: string)
    requires s != [] && !IsSpace(s[0]) && !IsSpace(s[|s| - 1])
    ensures Strip(s) == s
  {
    assert TrimStart(s) == s;
  }

  lemma ParseSignedOfNegative(m: nat)
    requires m > 0
    ensures ParseSigned("-" + NatString(m)) == Some(0 - m as int)
  {
    var s := "-" + NatString(m);
    assert s[0] == '-' && s[1..] == NatString(m);
    ParseDigitsOfNatString(m);
  }

  lemma ParseSignedOfNat(n: nat)
    ensures ParseSigned(NatString(n)) == Some(n)
  {
    var s := NatString(n);
    assert IsDigit(s[0]);
    ParseDigitsOfNatString(n);
  }

  /** int(str(n)) == n: parse_int recognises every decimal rendering of an int. */
  lemma ParseIntOfDecimal(n: int)
    ensures ParseInt(DecimalString(n)) == (Int(n), true)
  {
    var s := DecimalString(n);
    if n < 0 {
      assert s == "-" + NatString(-n);
      assert IsDigit(s[|s| - 1]);
      StripUnspaced(s);
      ParseSignedOfNegative(-n);
    } else {
      assert IsDigit(s[0]) && IsDigit(s[|s| - 1]);
      StripUnspaced(s);
      ParseSignedOfNat(n);
    }
  }

  /** On one character, parse_int succeeds exactly on a decimal digit. */
  lemma ParseIntOneChar(c: char)
    ensures ParseInt([c]).1 <==> IsDigit(c)
    ensures IsDigit(c) ==> ParseInt([c]).0 == Int(DigitValue(c))
  {
    if !IsSpace(c) {
      assert Strip([c]) == [c];
    } else {
      assert TrimStart([c]) == [];
    }
  }
}
