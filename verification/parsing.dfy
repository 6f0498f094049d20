/**
 * Reading one line of the movie file into a `Movie`: the header before the
 * first `/` holds the title and the release year in parentheses, each later
 * field holds one actor as `last, first`.
 */
module MovieLines {
  import opened Wrappers
  import opened Strings
  import opened Corpus
  import opened Counting

  /** The exceptions the line reader can throw. */
  datatype ParseError =
    | IndexOutOfBounds   // an array index or a substring bound out of range
    | NumberFormat       // `Integer.valueOf` refused the year text

  /** What happens to one line. */
  datatype LineOutcome =
    | Kept(movie: Movie)
    | Discarded          // the year text holds a comma: the lambda returns early
    | Failed(error: ParseError)

  /** The header: a title and a year, a year text with a comma, or an exception. */
  datatype HeaderOutcome =
    | Title(title: string, year: int)
    | CommaYear
    | BadHeader(error: ParseError)

  const IntMin: int := -0x8000_0000
  const IntMax: int := 0x7FFF_FFFF

  predicate IsDigit(c: char) {
    '0' <= c <= '9'
  }

  predicate AllDigits(s: string) {
    forall i | 0 <= i < |s| :: IsDigit(s[i])
  }

  /** The value of a string of decimal digits. */
  function DigitsValue(s: string): nat
    requires AllDigits(s)
  {
    if |s| == 0 then 0
    else DigitsValue(s[..|s| - 1]) * 10 + (s[|s| - 1] as int - '0' as int)
  }

  /**
   * `Integer.valueOf` on ASCII input: an optional sign followed by at least
   * one digit, whose value fits in 32 bits; `None` is the
   * `NumberFormatException`.
   */
  function ParseInt(s: string): (r: Option<int>)
    ensures r.Some? ==> IntMin <= r.value <= IntMax
    ensures r.Some? ==> |s| > 0 && ',' !in s
  {
    var signed := |s| > 0 && (s[0] == '-' || s[0] == '+');
    var digits := if signed then s[1..] else s;
    if |digits| == 0 || !AllDigits(digits) then None
    else
      var v: int := if signed && s[0] == '-' then -(DigitsValue(digits) as int) else DigitsValue(digits);
      if IntMin <= v <= IntMax then
        assert forall i | 0 <= i < |digits| :: digits[i] != ',';
        assert signed ==> s == [s[0]] + digits;
        Some(v)
      else None
  }

  /** The decimal digits of a natural number, most significant first. */
  function ShowNat(n: nat): (s: string)
    ensures |s| > 0 && AllDigits(s)
  {
    var d := ['0' + (n % 10) as char];
    if n < 10 then d else ShowNat(n / 10) + d
  }

  /** `Integer.toString`: the decimal form, with a minus sign when negative. */
  function Show(n: int): string {
    if n < 0 then "-" + ShowNat(-n) else ShowNat(n)
  }

  /** Reading the digits of a number back gives the number. */
  lemma {:induction false} ShowNatValue(n: nat)
    ensures DigitsValue(ShowNat(n)) == n
  {
    if n >= 10 {
      ShowNatValue(n / 10);
      var s := ShowNat(n);
      assert s[..|s| - 1] == ShowNat(n / 10);
    }
  }

  /** Every 32-bit integer survives `Integer.toString` followed by `Integer.valueOf`. */
  lemma ParseShow(n: int)
    requires IntMin <= n <= IntMax
    ensures ParseInt(Show(n)) == Some(n)
  {
    var s := Show(n);
    if n < 0 {
      var d := ShowNat(-n);
      ShowNatValue(-n);
      assert s == "-" + d && s[0] == '-' && s[1..] == d;
    } else {
      ShowNatValue(n);
      assert IsDigit(s[0]);
    }
  }

  /** The header has a last `(` and, after it, a last `)`: both substrings are in range. */
  predicate HasYearText(head: string) {
    0 <= LastIndexOf(head, '(') < LastIndexOf(head, ')')
  }

  /** The text between the last `(` and the last `)`: the year as written. */
  function YearText(head: string): string
    requires HasYearText(head)
  {
    head[LastIndexOf(head, '(') + 1..LastIndexOf(head, ')')]
  }

  /** The trimmed text before the last `(`: the title. */
  function TitleText(head: string): string
    requires HasYearText(head)
  {
    Trim(head[..LastIndexOf(head, '(')])
  }

  /**
   * The header `elements[0]`: the title is the trimmed text before the last
   * `(`, the year is the text between the last `(` and the last `)`. A
   * missing `(`, or a last `)` not after it, is a substring out of range; a
   * year text with a comma makes the line be skipped; a year text that
   * `Integer.valueOf` refuses is a number format error.
   */
  function ReadHeader(head: string): (r: HeaderOutcome)
    ensures r == BadHeader(IndexOutOfBounds) <==> !HasYearText(head)
    ensures r.BadHeader? && r.error == IndexOutOfBounds <==> LastIndexOf(head, ')') <= LastIndexOf(head, '(') || '(' !in head
    ensures HasYearText(head) ==> (r.CommaYear? <==> ',' in YearText(head))
    ensures r == BadHeader(NumberFormat) <==> HasYearText(head) && ',' !in YearText(head) && ParseInt(YearText(head)).None?
    ensures r.Title? ==> HasYearText(head) && r.title == TitleText(head) && ParseInt(YearText(head)) == Some(r.year)
    ensures r.CommaYear? ==> ',' in head
    ensures r.Title? ==> '(' in head && ')' in head
  {
    var open := LastIndexOf(head, '(');
    var close := LastIndexOf(head, ')');
    if open < 0 then BadHeader(IndexOutOfBounds)
    else if close < open + 1 then BadHeader(IndexOutOfBounds)
    else
      var yearText := head[open + 1..close];
      if ',' in yearText then CommaYear
      else
        match ParseInt(yearText)
        case None => BadHeader(NumberFormat)
        case Some(y) => Title(Trim(head[..open]), y)
  }

  /** The only position of `c` at or after `p` is `p`, so it is the last one. */
  lemma LastIndexAt(s: string, c: char, p: int)
    requires 0 <= p < |s| && s[p] == c
    requires forall i | p < i < |s| :: s[i] != c
    ensures LastIndexOf(s, c) == p
  {
  }

  /**
   * A header written as `title (year)` reads back as that title and year,
   * whatever parentheses the title itself holds, provided the title has no
   * surrounding blanks.
   */
  lemma HeaderRoundTrip(title: string, year: int)
    requires Trim(title) == title
    requires IntMin <= year <= IntMax
    ensures ReadHeader(title + " (" + Show(year) + ")") == Title(title, year)
  {
    var d := Show(year);
    assert forall i | 0 <= i < |d| :: d[i] == '-' || IsDigit(d[i]);
    HeaderYearText(title, d);
    ParseShow(year);
    TrimAppendSpace(title);
  }

  /** Where the parentheses of `title (d)` are found, for a `d` without parentheses. */
  lemma HeaderPieces(title: string, d: string)
    requires '(' !in d && ')' !in d
    ensures
      var head := title + " (" + d + ")";
      && LastIndexOf(head, '(') == |title| + 1
      && LastIndexOf(head, ')') == |head| - 1
      && head[|title| + 2..|head| - 1] == d
      && head[..|title| + 1] == title + " "
  {
    var head := title + " (" + d + ")";
    var open := |title| + 1;
    assert forall i | open < i < |head| - 1 :: head[i] == d[i - open - 1];
    LastIndexAt(head, '(', open);
    LastIndexAt(head, ')', |head| - 1);
    assert head[open + 1..|head| - 1] == d;
    assert head[..open] == title + " ";
  }

  /**
   * In a header written as `title (d)`, whatever the title holds, the year
   * text is `d` and the title text is the trimmed title.
   */
  lemma HeaderYearText(title: string, d: string)
    requires '(' !in d && ')' !in d
    ensures
      var head := title + " (" + d + ")";
      && HasYearText(head)
      && YearText(head) == d
      && TitleText(head) == Trim(title + " ")
  {
    HeaderPieces(title, d);
  }

  /** A header whose parenthesised year holds a comma makes the line be skipped. */
  lemma HeaderCommaYear(title: string, d: string)
    requires '(' !in d && ')' !in d && ',' in d
    ensures ReadHeader(title + " (" + d + ")") == CommaYear
  {
    HeaderYearText(title, d);
  }

  /**
   * One actor field: `split(", ")`, the trimmed first part as last name and
   * the trimmed second part, if any, as first name. A field made only of
   * separators splits into nothing, and `name[0]` is out of range.
   */
  function ReadActor(field: string): (r: Result<Actor, ParseError>)
    ensures r.Failure? ==> r.error == IndexOutOfBounds
    ensures r.Failure? <==> |field| > 0 && AllEmpty(Split(field, ", "))
  {
    SeparatorsOnly(field, ", ");
    var name := JavaSplit(field, ", ");
    if |name| == 0 then Failure(IndexOutOfBounds)
    else Success(Actor(Trim(name[0]), if |name| > 1 then Trim(name[1]) else ""))
  }

  /** Every piece is the empty string. */
  predicate AllEmpty(parts: seq<string>) {
    forall i | 0 <= i < |parts| :: parts[i] == ""
  }

  /**
   * `split` returns nothing exactly when the string is non-empty and every
   * piece between the separators is empty.
   */
  lemma SeparatorsOnly(s: string, sep: string)
    requires |sep| > 0
    ensures JavaSplit(s, sep) == [] <==> |s| > 0 && AllEmpty(Split(s, sep))
  {
    var parts := Split(s, sep);
    if |parts| == 1 {
      assert Join(parts, sep) == parts[0];
    } else {
      assert s == parts[0] + sep + Join(parts[1..], sep);
    }
  }

  /**
   * The names read from a field are the first two pieces between the
   * separators, trimmed: dropping trailing empty pieces never changes them.
   */
  lemma ReadActorPieces(field: string)
    requires ReadActor(field).Success?
    ensures
      var pieces := Split(field, ", ");
      && ReadActor(field).value.lastName == Trim(pieces[0])
      && ReadActor(field).value.firstName == if |pieces| > 1 then Trim(pieces[1]) else ""
  {
    var pieces := Split(field, ", ");
    var name := JavaSplit(field, ", ");
    assert |name| > 0 && name == pieces[..|name|];
    assert name[0] == pieces[0];
    if |pieces| > 1 {
      if |name| > 1 {
        assert name[1] == pieces[1];
      } else {
        assert name == DropTrailingEmpty(pieces);
        assert pieces[1] == "";
        TrimEmpty();
      }
    }
  }

  /**
   * Collecting the actors read from the fields: the first failure is
   * thrown, otherwise every actor read is in the cast and nothing else.
   */
  function CollectCast(rs: seq<Result<Actor, ParseError>>): (r: Result<set<Actor>, ParseError>)
    ensures r.Success? <==> forall i | 0 <= i < |rs| :: rs[i].Success?
    ensures r.Failure? ==> exists i | 0 <= i < |rs| :: rs[i] == Failure(r.error) && forall j | 0 <= j < i :: rs[j].Success?
    ensures r.Success? ==> forall i | 0 <= i < |rs| :: rs[i].value in r.value
    ensures r.Success? ==> forall a | a in r.value :: exists i | 0 <= i < |rs| :: rs[i] == Success(a)
  {
    if |rs| == 0 then Success({})
    else
      var init := rs[..|rs| - 1];
      assert forall i | 0 <= i < |init| :: init[i] == rs[i];
      match CollectCast(init)
      case Failure(e) => Failure(e)
      case Success(cast) =>
        match rs[|rs| - 1]
        case Failure(e) => Failure(e)
        case Success(a) => Success(cast + {a})
  }

  /**
   * The actors of the fields after the header, read one by one: the cast is
   * read exactly when every field is, and then holds exactly the actors read.
   */
  function ReadCast(fields: seq<string>): (r: Result<set<Actor>, ParseError>)
    ensures r.Success? <==> forall i | 0 <= i < |fields| :: ReadActor(fields[i]).Success?
    ensures r.Failure? ==> exists i | 0 <= i < |fields| :: ReadActor(fields[i]) == Failure(r.error)
    ensures r.Success? ==> forall a :: a in r.value <==> exists i | 0 <= i < |fields| :: ReadActor(fields[i]) == Success(a)
  {
    CollectCastMapped(fields, ReadActor);
    CollectCast(Mapped(fields, ReadActor))
  }

  /** Collecting the actors read by `f` from each field, stated in terms of `f`. */
  lemma CollectCastMapped<T>(xs: seq<T>, f: T -> Result<Actor, ParseError>)
    ensures CollectCast(Mapped(xs, f)).Success? <==> forall i | 0 <= i < |xs| :: f(xs[i]).Success?
    ensures CollectCast(Mapped(xs, f)).Failure? ==> exists i | 0 <= i < |xs| :: f(xs[i]) == Failure(CollectCast(Mapped(xs, f)).error)
    ensures CollectCast(Mapped(xs, f)).Success? ==>
      forall a :: a in CollectCast(Mapped(xs, f)).value <==> exists i | 0 <= i < |xs| :: f(xs[i]) == Success(a)
  {
    var rs := Mapped(xs, f);
    var c := CollectCast(rs);
    if c.Success? {
      forall a
        ensures a in c.value <==> exists i | 0 <= i < |xs| :: f(xs[i]) == Success(a)
      {
        if a in c.value {
          var i :| 0 <= i < |rs| && rs[i] == Success(a);
        }
        if i :| 0 <= i < |xs| && f(xs[i]) == Success(a) {
          assert rs[i].value == a;
        }
      }
    }
  }

  /**
   * The `forEach` lambda once the line is split on `/`: read the header,
   * give up quietly on a comma in the year, and otherwise read the cast.
   */
  function ReadElements(elements: seq<string>): (r: LineOutcome)
    ensures r.Discarded? <==> |elements| > 0 && HasYearText(elements[0]) && ',' in YearText(elements[0])
    ensures r == Failed(NumberFormat) <==>
      |elements| > 0 && HasYearText(elements[0]) && ',' !in YearText(elements[0]) && ParseInt(YearText(elements[0])).None?
    ensures r.Kept? <==>
      && |elements| > 0 && HasYearText(elements[0]) && ParseInt(YearText(elements[0])).Some?
      && ActorsReadable(elements)
    ensures r.Kept? ==>
      && |elements| > 0 && HasYearText(elements[0])
      && r.movie.title == TitleText(elements[0])
      && ParseInt(YearText(elements[0])) == Some(r.movie.releaseYear)
      && IsCastOf(r.movie.actors, elements)
  {
    if |elements| == 0 then Failed(IndexOutOfBounds)
    else
      match ReadHeader(elements[0])
      case BadHeader(e) => Failed(e)
      case CommaYear => Discarded
      case Title(title, year) =>
        ReadCastFieldsSucceed(elements);
        match ReadCast(elements[1..])
        case Failure(e) => Failed(e)
        case Success(cast) =>
          ReadCastFieldsMembers(elements);
          Kept(Movie(title, year, cast))
  }

  /** The `forEach` lambda for one line: `split("/")`, then its elements read. */
  function ReadLine(line: string): (r: LineOutcome)
    ensures
      var elements := JavaSplit(line, "/");
      r.Discarded? <==> |elements| > 0 && HasYearText(elements[0]) && ',' in YearText(elements[0])
    ensures
      var elements := JavaSplit(line, "/");
      r == Failed(NumberFormat) <==>
        |elements| > 0 && HasYearText(elements[0]) && ',' !in YearText(elements[0]) && ParseInt(YearText(elements[0])).None?
    ensures
      var elements := JavaSplit(line, "/");
      r.Kept? <==>
        && |elements| > 0 && HasYearText(elements[0]) && ParseInt(YearText(elements[0])).Some?
        && ActorsReadable(elements)
    ensures
      var elements := JavaSplit(line, "/");
      r.Kept? ==>
        && |elements| > 0 && HasYearText(elements[0])
        && r.movie.title == TitleText(elements[0])
        && ParseInt(YearText(elements[0])) == Some(r.movie.releaseYear)
        && IsCastOf(r.movie.actors, elements)
  {
    ReadElements(JavaSplit(line, "/"))
  }

  /** Every field after the header reads as an actor. */
  predicate ActorsReadable(elements: seq<string>) {
    forall i | 1 <= i < |elements| :: ReadActor(elements[i]).Success?
  }

  /** `cast` holds exactly the actors read from the fields after the header. */
  ghost predicate IsCastOf(cast: set<Actor>, elements: seq<string>) {
    forall a :: a in cast <==> exists i | 1 <= i < |elements| :: ReadActor(elements[i]) == Success(a)
  }

  /** The cast after the header is read exactly when every later field reads as an actor. */
  lemma ReadCastFieldsSucceed(elements: seq<string>)
    requires |elements| > 0
    ensures ReadCast(elements[1..]).Success? <==> ActorsReadable(elements)
  {
    var fields := elements[1..];
    assert forall i | 1 <= i < |elements| :: elements[i] == fields[i - 1];
  }

  /** The cast after the header holds exactly the actors read from the later fields. */
  lemma ReadCastFieldsMembers(elements: seq<string>)
    requires |elements| > 0 && ReadCast(elements[1..]).Success?
    ensures IsCastOf(ReadCast(elements[1..]).value, elements)
  {
    var fields := elements[1..];
    forall a
      ensures (exists i | 0 <= i < |fields| :: ReadActor(fields[i]) == Success(a))
        <==> exists i | 1 <= i < |elements| :: ReadActor(elements[i]) == Success(a)
    {
      if i :| 0 <= i < |fields| && ReadActor(fields[i]) == Success(a) {
        assert ReadActor(elements[i + 1]) == Success(a);
      }
      if i :| 1 <= i < |elements| && ReadActor(elements[i]) == Success(a) {
        assert ReadActor(fields[i - 1]) == Success(a);
      }
    }
  }

  /**
   * `lines.forEach(...)` into the `HashSet<Movie>`, given each line's
   * outcome: the kept movies in line order, a movie equal to one already
   * collected added only once; the first exception aborts the whole read.
   */
  function CollectMovies(outcomes: seq<LineOutcome>): (r: Result<seq<Movie>, ParseError>)
    ensures r.Failure? <==> exists i | 0 <= i < |outcomes| :: outcomes[i].Failed?
    ensures r.Failure? ==> exists i | 0 <= i < |outcomes| :: outcomes[i] == Failed(r.error) && forall j | 0 <= j < i :: !outcomes[j].Failed?
    ensures r.Success? ==> |r.value| <= |outcomes|
    ensures r.Success? ==> Distinct(r.value)
    ensures r.Success? ==> forall k | 0 <= k < |r.value| :: Kept(r.value[k]) in outcomes
    ensures r.Success? ==> forall i | 0 <= i < |outcomes| && outcomes[i].Kept? :: outcomes[i].movie in r.value
  {
    if |outcomes| == 0 then Success([])
    else
      var init := outcomes[..|outcomes| - 1];
      var last := outcomes[|outcomes| - 1];
      assert outcomes == init + [last];
      match CollectMovies(init)
      case Failure(e) => Failure(e)
      case Success(movies) =>
        match last
        case Failed(e) => Failure(e)
        case Discarded => Success(movies)
        case Kept(m) => if m in movies then Success(movies) else Success(movies + [m])
  }

  /**
   * Reading every line of the movie file: it fails exactly when some line
   * throws, with the first such line's exception; otherwise it holds each
   * kept line's movie once and nothing else.
   */
  function ReadMovies(lines: seq<string>): (r: Result<seq<Movie>, ParseError>)
    ensures r.Failure? <==> exists i | 0 <= i < |lines| :: ReadLine(lines[i]).Failed?
    ensures r.Failure? ==> exists i | 0 <= i < |lines| :: ReadLine(lines[i]) == Failed(r.error) && forall j | 0 <= j < i :: !ReadLine(lines[j]).Failed?
    ensures r.Success? ==> Distinct(r.value)
    ensures r.Success? ==> forall k | 0 <= k < |r.value| :: exists i | 0 <= i < |lines| :: ReadLine(lines[i]) == Kept(r.value[k])
    ensures r.Success? ==> forall i | 0 <= i < |lines| && ReadLine(lines[i]).Kept? :: ReadLine(lines[i]).movie in r.value
  {
    CollectMoviesFailsMapped(lines, ReadLine);
    CollectMoviesKeepsMapped(lines, ReadLine);
    CollectMovies(Mapped(lines, ReadLine))
  }

  /** When collecting the outcomes of `f` fails, and with which exception. */
  lemma CollectMoviesFailsMapped<T>(xs: seq<T>, f: T -> LineOutcome)
    ensures CollectMovies(Mapped(xs, f)).Failure? <==> exists i | 0 <= i < |xs| :: f(xs[i]).Failed?
    ensures CollectMovies(Mapped(xs, f)).Failure? ==>
      exists i | 0 <= i < |xs| :: f(xs[i]) == Failed(CollectMovies(Mapped(xs, f)).error) && forall j | 0 <= j < i :: !f(xs[j]).Failed?
  {
    var outcomes := Mapped(xs, f);
    if exists i | 0 <= i < |xs| :: f(xs[i]).Failed? {
      var i :| 0 <= i < |xs| && f(xs[i]).Failed?;
      assert outcomes[i].Failed?;
    }
    if CollectMovies(outcomes).Failure? {
      var i :| 0 <= i < |outcomes| && outcomes[i] == Failed(CollectMovies(outcomes).error) && forall j | 0 <= j < i :: !outcomes[j].Failed?;
      assert f(xs[i]) == outcomes[i];
    }
  }

  /** The movies collected from the outcomes of `f`: each kept one, once, and nothing else. */
  lemma CollectMoviesKeepsMapped<T>(xs: seq<T>, f: T -> LineOutcome)
    ensures CollectMovies(Mapped(xs, f)).Success? ==>
      && Distinct(CollectMovies(Mapped(xs, f)).value)
      && (forall k | 0 <= k < |CollectMovies(Mapped(xs, f)).value| :: exists i | 0 <= i < |xs| :: f(xs[i]) == Kept(CollectMovies(Mapped(xs, f)).value[k]))
      && (forall i | 0 <= i < |xs| && f(xs[i]).Kept? :: f(xs[i]).movie in CollectMovies(Mapped(xs, f)).value)
  {
    var outcomes := Mapped(xs, f);
    var r := CollectMovies(outcomes);
    if r.Success? {
      forall k | 0 <= k < |r.value|
        ensures exists i | 0 <= i < |xs| :: f(xs[i]) == Kept(r.value[k])
      {
        var i :| 0 <= i < |outcomes| && outcomes[i] == Kept(r.value[k]);
      }
      forall i | 0 <= i < |xs| && f(xs[i]).Kept?
        ensures f(xs[i]).movie in r.value
      {
        assert outcomes[i] == f(xs[i]);
      }
    }
  }
}
