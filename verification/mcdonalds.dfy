/**
 * The McDonald's demo: each CSV line is split on commas and cut into a
 * record (name, address, city, state) by fixed field positions; then the
 * number of distinct cities and the city with the most restaurants.
 *
 * The file's lines look like
 *   -149.95038,61.13712,"McDonalds-Anchorage,AK","3828 W Dimond Blvd, Anchorage,AK, (907) 248-0597"
 * so the quoted name and the quoted address are themselves cut by the split.
 */
module McDonalds {
  import opened Wrappers
  import opened Strings
  import opened Counting

  /** The record the `map` lambda fills in, without latitude and longitude. */
  datatype McDonald = McDonald(name: string, address: string, city: string, state: string)

  /**
   * What the lambda throws: `ArrayIndexOutOfBoundsException` when field
   * `index` does not exist, `StringIndexOutOfBoundsException` when field
   * `index` is empty and a character must be cut off it.
   */
  datatype RecordError = MissingField(index: nat) | EmptyField(index: nat)

  /** The `endsWith("\"")` step: a trailing double quote is removed. */
  function StripQuote(s: string): (r: string)
    ensures |s| > 0 && s[|s| - 1] == '"' ==> s == r + "\""
    ensures !(|s| > 0 && s[|s| - 1] == '"') ==> r == s
  {
    if |s| > 0 && s[|s| - 1] == '"' then s[..|s| - 1] else s
  }

  /** The `contains(" ")` step: the state is cut before its first space. */
  function CutAtSpace(s: string): (r: string)
    ensures ' ' !in r
    ensures |r| <= |s| && r == s[..|r|]
    ensures |r| < |s| ==> s[|r|] == ' '
  {
    var i := IndexOf(s, ' ');
    if i >= 0 then s[..i] else s
  }

  /**
   * The state field after the quote and space rules: the trimmed field up to
   * its first space, or without its closing quote when it has no space.
   */
  function ShortState(field: string): (r: string)
    ensures ' ' !in r
    ensures |r| <= |Trim(field)| && r == Trim(field)[..|r|]
    ensures |r| < |Trim(field)| ==>
      Trim(field)[|r|] == ' ' || (|r| + 1 == |Trim(field)| && Trim(field)[|r|] == '"')
    ensures ' ' !in Trim(field) && |Trim(field)| > 0 && Trim(field)[|Trim(field)| - 1] == '"' ==> |r| + 1 == |Trim(field)|
  {
    CutAtSpace(StripQuote(Trim(field)))
  }

  /**
   * The `map` lambda on the split fields, in its evaluation order: fields
   * 2, 3 and 4 lose a character (and so must not be empty), field 5 is the
   * trimmed city, field 6 the state, and field 7 is read only when the
   * state is still longer than two characters. A missing field is reported
   * at the first index past the end, an empty field at the first of fields
   * 2 to 4 that is empty.
   */
  function ReadFields(f: seq<string>): (r: Result<McDonald, RecordError>)
    ensures r.Success? <==>
      && |f| >= 7 && |f[2]| > 0 && |f[3]| > 0 && |f[4]| > 0
      && (|ShortState(f[6])| <= 2 || |f| >= 8)
    ensures r.Failure? && r.error.MissingField? ==> r.error.index == |f| <= 7
    ensures r.Failure? && r.error.EmptyField? ==> 2 <= r.error.index <= 4 && r.error.index < |f| && f[r.error.index] == ""
    ensures r.Failure? ==> forall j | 2 <= j <= 4 && j < r.error.index :: |f[j]| > 0
    ensures r == Failure(MissingField(7)) ==> |ShortState(f[6])| > 2
    ensures r.Success? ==> r.value.city == Trim(f[5])
  {
    if |f| <= 2 then Failure(MissingField(|f|))
    else if |f[2]| == 0 then Failure(EmptyField(2))
    else if |f| == 3 then Failure(MissingField(3))
    else if |f[3]| == 0 then Failure(EmptyField(3))
    else if |f| == 4 then Failure(MissingField(4))
    else if |f[4]| == 0 then Failure(EmptyField(4))
    else if |f| <= 6 then Failure(MissingField(|f|))
    else
      var state := ShortState(f[6]);
      if |state| > 2 && |f| == 7 then Failure(MissingField(7))
      else Success(Record(f, if |state| > 2 then Trim(f[7]) else state))
  }

  /** The name, address and city cut out of fields 2 to 5, with the state already decided. */
  function Record(f: seq<string>, state: string): McDonald
    requires |f| >= 6 && |f[2]| > 0 && |f[3]| > 0 && |f[4]| > 0
  {
    McDonald(f[2][1..] + f[3][..|f[3]| - 1], f[4][1..], Trim(f[5]), state)
  }

  /** Cutting the outer characters off two strings and joining the rest. */
  lemma CutOuter(a: string, b: string)
    requires |a| > 0 && |b| > 0
    ensures [a[0]] + (a[1..] + b[..|b| - 1]) + [b[|b| - 1]] == a + b
  {
    assert a == [a[0]] + a[1..];
    assert b == b[..|b| - 1] + [b[|b| - 1]];
  }

  /** A short state that neither has spaces nor ends with a quote is kept as it is. */
  lemma ShortStateKeeps(state: string)
    requires Trim(state) == state && |state| <= 2 && ' ' !in state
    requires state == [] || state[|state| - 1] != '"'
    ensures ShortState(state) == state
  {
  }

  /** When the state field cuts down to at most two characters, field 7 is never read. */
  lemma ReadFieldsShortState(f: seq<string>)
    requires |f| >= 7 && |f[2]| > 0 && |f[3]| > 0 && |f[4]| > 0
    requires |ShortState(f[6])| <= 2
    ensures ReadFields(f) == Success(Record(f, ShortState(f[6])))
  {
  }

  /** When the state field is still longer than two characters, field 7 trimmed is the state. */
  lemma ReadFieldsLongState(f: seq<string>)
    requires |f| >= 8 && |f[2]| > 0 && |f[3]| > 0 && |f[4]| > 0
    requires |ShortState(f[6])| > 2
    ensures ReadFields(f) == Success(Record(f, Trim(f[7])))
  {
  }

  /** What `Record` cuts out of each field. */
  lemma RecordParts(f: seq<string>, state: string)
    requires |f| >= 6 && |f[2]| > 0 && |f[3]| > 0 && |f[4]| > 0
    ensures
      var r := Record(f, state);
      && [f[2][0]] + r.name + [f[3][|f[3]| - 1]] == f[2] + f[3]
      && [f[4][0]] + r.address == f[4]
      && r.city == Trim(f[5])
      && r.state == state
  {
    CutOuter(f[2], f[3]);
    assert f[4] == [f[4][0]] + f[4][1..];
  }

  /**
   * The name is fields 2 and 3 run together less their outer characters;
   * the address is field 4 less its first character; the city is field 5
   * trimmed; the state is field 6 cut short when that leaves at most two
   * characters, and field 7 trimmed otherwise.
   */
  lemma ReadFieldsValues(f: seq<string>)
    requires ReadFields(f).Success?
    ensures
      var r := ReadFields(f).value;
      && [f[2][0]] + r.name + [f[3][|f[3]| - 1]] == f[2] + f[3]
      && [f[4][0]] + r.address == f[4]
      && r.city == Trim(f[5])
      && (|ShortState(f[6])| <= 2 ==> r.state == ShortState(f[6]) && ' ' !in r.state)
      && (|ShortState(f[6])| > 2 ==> |f| >= 8 && r.state == Trim(f[7]))
  {
    var state := ShortState(f[6]);
    if |state| <= 2 {
      ReadFieldsShortState(f);
      RecordParts(f, state);
    } else {
      ReadFieldsLongState(f);
      RecordParts(f, Trim(f[7]));
    }
  }

  /**
   * Fields laid out like the file's are read back into their parts: the
   * name loses the comma between the place and its state code, and a short
   * state means the last field is never looked at.
   */
  lemma ReadFieldsRoundTrip(f: seq<string>, place: string, st: string, street: string, city: string, state: string)
    requires |f| >= 7
    requires f[2] == "\"" + place && f[3] == st + "\"" && f[4] == "\"" + street
    requires f[5] == " " + city && f[6] == state
    requires Trim(city) == city
    requires Trim(state) == state && |state| <= 2 && ' ' !in state
    requires state == [] || state[|state| - 1] != '"'
    ensures ReadFields(f) == Success(McDonald(place + st, street, city, state))
  {
    ShortStateKeeps(state);
    ReadFieldsShortState(f);
    TrimPrependSpace(city);
    assert f[2][1..] == place;
    assert f[3][..|f[3]| - 1] == st;
    assert f[4][1..] == street;
  }

  /**
   * The `map` lambda on one line: `s.split(",")` and the field rules. A
   * line without a comma is one field, so field 1 is already missing.
   */
  function ReadLine(line: string): (r: Result<McDonald, RecordError>)
    ensures FindSub(line, ",") < 0 ==> r == Failure(MissingField(1))
    ensures r.Success? ==> |JavaSplit(line, ",")| >= 7 && r.value.city == Trim(JavaSplit(line, ",")[5])
  {
    ReadFields(JavaSplit(line, ","))
  }

  /** No comma inside a field. */
  predicate CommaFree(s: string) {
    ',' !in s
  }

  /** Comma-free fields, the last one not empty, are split back out of the line that joins them. */
  lemma SplitFields(f: seq<string>, lon: string, lat: string, place: string, st: string, street: string, city: string, state: string, phone: string)
    requires f == [lon, lat, "\"" + place, st + "\"", "\"" + street, " " + city, state, phone]
    requires CommaFree(lon) && CommaFree(lat) && CommaFree(place) && CommaFree(st)
    requires CommaFree(street) && CommaFree(city) && CommaFree(state) && CommaFree(phone)
    requires phone != ""
    ensures JavaSplit(Join(f, ","), ",") == f
  {
    assert forall i | 0 <= i < |f| :: ","[0] !in f[i];
    JavaSplitJoin(f, ",");
  }

  /**
   * A whole line in the file's layout, with any comma-free longitude,
   * latitude and trailing phone field, is read back into its parts.
   */
  lemma ReadLineRoundTrip(f: seq<string>, lon: string, lat: string, place: string, st: string, street: string, city: string, state: string, phone: string)
    requires f == [lon, lat, "\"" + place, st + "\"", "\"" + street, " " + city, state, phone]
    requires CommaFree(lon) && CommaFree(lat) && CommaFree(place) && CommaFree(st)
    requires CommaFree(street) && CommaFree(city) && CommaFree(state) && CommaFree(phone)
    requires phone != ""
    requires Trim(city) == city
    requires Trim(state) == state && |state| <= 2 && ' ' !in state
    requires state == [] || state[|state| - 1] != '"'
    ensures ReadLine(Join(f, ",")) == Success(McDonald(place + st, street, city, state))
  {
    ReadFieldsRoundTrip(f, place, st, street, city, state);
    SplitFields(f, lon, lat, place, st, street, city, state, phone);
  }

  /**
   * `lines.map(lambda).collect(toList())`: all lines are read exactly when
   * each one is, and the records are then in line order; otherwise the
   * exception is that of the first line that cannot be read.
   */
  function ReadAll(lines: seq<string>): (r: Result<seq<McDonald>, RecordError>)
    ensures r.Success? <==> forall i | 0 <= i < |lines| :: ReadLine(lines[i]).Success?
    ensures r.Success? ==> |r.value| == |lines| && forall i | 0 <= i < |lines| :: r.value[i] == ReadLine(lines[i]).value
    ensures r.Failure? ==>
      exists i | 0 <= i < |lines| :: ReadLine(lines[i]) == Failure(r.error) && forall j | 0 <= j < i :: ReadLine(lines[j]).Success?
  {
    MappedCollectSucceeds(lines, ReadLine);
    MappedCollectFails(lines, ReadLine);
    CollectAll(Mapped(lines, ReadLine))
  }

  // ---------------------------------------------------------------------
  // Cities

  /** `McDonald::city`. */
  function CityOf(r: McDonald): string {
    r.city
  }

  /** `map(McDonald::city).collect(toSet()).size()`: at most one city per record, none only without records. */
  function CityCount(records: seq<McDonald>): (n: nat)
    ensures n <= |records|
    ensures n == 0 <==> |records| == 0
  {
    var cities := Mapped(records, CityOf);
    if |records| > 0 then
      assert cities[0] in Elements(cities);
      |Elements(cities)|
    else
      |Elements(cities)|
  }

  /** How many records are in `city`, counted from the front (the reference). */
  function RecordsIn(records: seq<McDonald>, city: string): nat {
    if |records| == 0 then 0
    else (if records[0].city == city then 1 else 0) + RecordsIn(records[1..], city)
  }

  /** `groupingBy(McDonald::city, counting())`: a positive count for exactly the cities of the records. */
  function CityCounts(records: seq<McDonald>): (r: map<string, int>)
    ensures forall i | 0 <= i < |records| :: records[i].city in r
    ensures forall c | c in r :: r[c] > 0 && exists i | 0 <= i < |records| :: records[i].city == c
  {
    Histogram(Mapped(records, CityOf))
  }

  /** The histogram counts what the reference counts. */
  lemma {:induction false} RecordsInOccurrences(records: seq<McDonald>, city: string)
    ensures Occurrences(Mapped(records, CityOf), city) == RecordsIn(records, city)
  {
    if |records| > 0 {
      var rest := records[1..];
      RecordsInOccurrences(rest, city);
      assert records == [records[0]] + rest;
      MappedAppend([records[0]], rest, CityOf);
      assert Mapped([records[0]], CityOf) == [records[0].city];
      OccurrencesAppend([records[0].city], Mapped(rest, CityOf), city);
    }
  }

  /**
   * The per-city counts: a key for every city of a record, the number of
   * its records under it, and counts summing to the number of records.
   */
  lemma CityCountsSpec(records: seq<McDonald>)
    ensures forall i | 0 <= i < |records| :: records[i].city in CityCounts(records)
    ensures forall c | c in CityCounts(records) :: CityCounts(records)[c] == RecordsIn(records, c) && RecordsIn(records, c) > 0
    ensures Total(CityCounts(records)) == |records|
  {
    var cities := Mapped(records, CityOf);
    forall i | 0 <= i < |records|
      ensures records[i].city in CityCounts(records)
    {
      assert cities[i] == records[i].city;
    }
    forall c | c in CityCounts(records)
      ensures CityCounts(records)[c] == RecordsIn(records, c) && RecordsIn(records, c) > 0
    {
      RecordsInOccurrences(records, c);
    }
    HistogramTotal(cities);
  }

  /**
   * `entrySet().stream().max(comparingByValue()).get()` in the map's
   * iteration order `order`: `None` (the `get()` failure) for no records,
   * otherwise a city with no fewer records than any other.
   */
  function BusiestCity(records: seq<McDonald>, order: seq<string>): (r: Option<string>)
    requires Enumerates(order, CityCounts(records).Keys)
    ensures r.None? <==> |records| == 0
    ensures r.Some? ==> forall c :: RecordsIn(records, c) <= RecordsIn(records, r.value)
  {
    BusiestCityNone(records, order);
    BusiestCityIsMax(records, order);
    MaxEntry(CityCounts(records), order)
  }

  /** No city is selected exactly when there are no records. */
  lemma BusiestCityNone(records: seq<McDonald>, order: seq<string>)
    requires Enumerates(order, CityCounts(records).Keys)
    ensures MaxEntry(CityCounts(records), order).None? <==> |records| == 0
  {
    CityCountsEmpty(records);
  }

  /** The selected entry's count bounds every city's count. */
  lemma BusiestCityIsMax(records: seq<McDonald>, order: seq<string>)
    requires Enumerates(order, CityCounts(records).Keys)
    ensures
      var r := MaxEntry(CityCounts(records), order);
      r.Some? ==> forall c :: RecordsIn(records, c) <= RecordsIn(records, r.value)
  {
    if MaxEntry(CityCounts(records), order).Some? {
      forall c
        ensures RecordsIn(records, c) <= RecordsIn(records, MaxEntry(CityCounts(records), order).value)
      {
        BusiestCityBound(records, order, c);
      }
    }
  }

  /** There are no counts exactly when there are no records. */
  lemma CityCountsEmpty(records: seq<McDonald>)
    ensures CityCounts(records) == map[] <==> |records| == 0
  {
    if |records| > 0 {
      assert Mapped(records, CityOf)[0] in CityCounts(records);
    }
  }

  /** One city at a time: its count is no more than the selected city's. */
  lemma BusiestCityBound(records: seq<McDonald>, order: seq<string>, c: string)
    requires Enumerates(order, CityCounts(records).Keys)
    requires MaxEntry(CityCounts(records), order).Some?
    ensures RecordsIn(records, c) <= RecordsIn(records, MaxEntry(CityCounts(records), order).value)
  {
    var cities := Mapped(records, CityOf);
    var best := MaxEntry(CityCounts(records), order).value;
    HistogramMax(cities, order);
    assert Occurrences(cities, c) <= Occurrences(cities, best);
    RecordsInOccurrences(records, c);
    RecordsInOccurrences(records, best);
  }

  /** The number of distinct cities is the number of keys of the per-city counts. */
  lemma CityCountIsKeys(records: seq<McDonald>)
    ensures CityCount(records) == |CityCounts(records)|
  {
    assert Elements(Mapped(records, CityOf)) == CityCounts(records).Keys;
  }
}
