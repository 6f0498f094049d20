/**
 * The `java.lang.String` operations the pipelines use, on `seq<char>`:
 * `trim`, `lastIndexOf`/`indexOf`, `split` with a literal separator,
 * ASCII `toLowerCase`, and the lexicographic `compareTo`.
 */
module Strings {

  /** `String.trim` removes every leading and trailing character up to U+0020. */
  predicate IsTrimmed(c: char) {
    c <= ' '
  }

  /** The first loop of `trim`: from `start`, step over trimmable characters. */
  function TrimFront(s: string, start: nat): (r: nat)
    requires start <= |s|
    ensures start <= r <= |s|
    ensures forall k | start <= k < r :: IsTrimmed(s[k])
    ensures r == |s| || !IsTrimmed(s[r])
    decreases |s| - start
  {
    if start < |s| && IsTrimmed(s[start]) then TrimFront(s, start + 1) else start
  }

  /** The second loop of `trim`: step `end` back over trimmable characters, not below `start`. */
  function TrimBack(s: string, start: nat, end: nat): (r: nat)
    requires start <= end <= |s|
    ensures start <= r <= end
    ensures forall k | r <= k < end :: IsTrimmed(s[k])
    ensures r == start || !IsTrimmed(s[r - 1])
  {
    if start < end && IsTrimmed(s[end - 1]) then TrimBack(s, start, end - 1) else end
  }

  /** `r` is `s[i..]` cut short, and only trimmable characters were cut off. */
  predicate TrimmedAt(s: string, r: string, i: int) {
    && 0 <= i <= |s| - |r|
    && r == s[i..i + |r|]
    && (forall k | 0 <= k < i :: IsTrimmed(s[k]))
    && (forall k | i + |r| <= k < |s| :: IsTrimmed(s[k]))
  }

  /** `r` neither starts nor ends with a trimmable character. */
  predicate Untrimmable(r: string) {
    r == [] || (!IsTrimmed(r[0]) && !IsTrimmed(r[|r| - 1]))
  }

  /**
   * `String.trim`: the infix of `s` that neither starts nor ends with a
   * character up to U+0020; everything cut off is such a character.
   */
  function Trim(s: string): (r: string)
    ensures Untrimmable(r)
    ensures exists i :: TrimmedAt(s, r, i)
  {
    var start := TrimFront(s, 0);
    var end := TrimBack(s, start, |s|);
    assert TrimmedAt(s, s[start..end], start);
    s[start..end]
  }

  /** Only one infix of `s` is cut out by trimmable characters and has untrimmable ends. */
  lemma TrimUnique(s: string, r: string, i: int)
    requires TrimmedAt(s, r, i) && Untrimmable(r)
    ensures Trim(s) == r
  {
    var t := Trim(s);
    var j :| TrimmedAt(s, t, j);
    if r != [] && t != [] {
      assert s[i] == r[0] && s[j] == t[0];
      assert s[i + |r| - 1] == r[|r| - 1] && s[j + |t| - 1] == t[|t| - 1];
      assert i == j;
      assert |r| == |t|;
    }
  }

  /** Trimming twice is trimming once. */
  lemma TrimIdempotent(s: string)
    ensures Trim(Trim(s)) == Trim(s)
  {
    var r := Trim(s);
    assert TrimmedAt(r, r, 0);
    TrimUnique(r, r, 0);
  }

  /** Trimming the empty string gives the empty string. */
  lemma TrimEmpty()
    ensures Trim("") == ""
  {
    assert TrimmedAt("", "", 0);
    TrimUnique("", "", 0);
  }

  /** A trailing space is cut off by `trim`. */
  lemma TrimAppendSpace(s: string)
    ensures Trim(s + " ") == Trim(s)
  {
    var r := Trim(s);
    var i :| TrimmedAt(s, r, i);
    TrimmedAtAppend(s, r, i, ' ');
    TrimUnique(s + " ", r, i);
  }

  /** A leading space is cut off by `trim`. */
  lemma TrimPrependSpace(s: string)
    ensures Trim(" " + s) == Trim(s)
  {
    var r := Trim(s);
    var i :| TrimmedAt(s, r, i);
    TrimmedAtPrepend(s, r, i, ' ');
    TrimUnique(" " + s, r, i + 1);
  }

  /** One more trimmable character at the end is cut off too. */
  lemma TrimmedAtAppend(s: string, r: string, i: int, c: char)
    requires TrimmedAt(s, r, i) && IsTrimmed(c)
    ensures TrimmedAt(s + [c], r, i)
  {
    var t := s + [c];
    assert t[i..i + |r|] == s[i..i + |r|];
    forall k | 0 <= k < |t|
      ensures k < |s| ==> t[k] == s[k]
    {
    }
  }

  /** One more trimmable character at the start is cut off too, one position earlier. */
  lemma TrimmedAtPrepend(s: string, r: string, i: int, c: char)
    requires TrimmedAt(s, r, i) && IsTrimmed(c)
    ensures TrimmedAt([c] + s, r, i + 1)
  {
    var t := [c] + s;
    assert t[i + 1..i + 1 + |r|] == s[i..i + |r|];
    forall k | 1 <= k < |t|
      ensures t[k] == s[k - 1]
    {
    }
  }

  /** `Character.toLowerCase` restricted to ASCII: 'A'..'Z' map to 'a'..'z'. */
  function LowerChar(c: char): char {
    if 'A' <= c <= 'Z' then (c as int + 32) as char else c
  }

  /** `String.toLowerCase`, on ASCII letters. */
  function Lower(s: string): (r: string)
    ensures |r| == |s|
    ensures forall i | 0 <= i < |s| :: r[i] == LowerChar(s[i])
  {
    seq(|s|, i requires 0 <= i < |s| => LowerChar(s[i]))
  }

  /** Lower-casing an already lower-cased string changes nothing. */
  lemma LowerIdempotent(s: string)
    ensures Lower(Lower(s)) == Lower(s)
  {
  }

  /** `String.lastIndexOf(c)`: the last position holding `c`, or -1. */
  function LastIndexOf(s: string, c: char): (r: int)
    ensures -1 <= r < |s|
    ensures r >= 0 ==> s[r] == c
    ensures forall i | r < i < |s| :: s[i] != c
  {
    if |s| == 0 then -1
    else if s[|s| - 1] == c then |s| - 1
    else LastIndexOf(s[..|s| - 1], c)
  }

  /** `String.indexOf(c)`: the first position holding `c`, or -1. */
  function IndexOf(s: string, c: char): (r: int)
    ensures -1 <= r < |s|
    ensures r >= 0 ==> s[r] == c
    ensures forall i | 0 <= i < |s| && (r < 0 || i < r) :: s[i] != c
  {
    if |s| == 0 then -1
    else if s[0] == c then 0
    else
      var r := IndexOf(s[1..], c);
      if r < 0 then -1 else r + 1
  }

  /** `sep` occurs in `s` starting at position `i`. */
  predicate OccursAt(s: string, sep: string, i: int) {
    0 <= i && i + |sep| <= |s| && s[i..i + |sep|] == sep
  }

  /** The first position where `sep` occurs in `s`, or -1 (`String.indexOf(String)`). */
  function FindSub(s: string, sep: string): (r: int)
    requires |sep| > 0
    ensures r >= 0 ==> OccursAt(s, sep, r)
    ensures forall i | 0 <= i && (r < 0 || i < r) :: !OccursAt(s, sep, i)
    decreases |s|
  {
    if |s| < |sep| then -1
    else if s[..|sep|] == sep then 0
    else
      var r := FindSub(s[1..], sep);
      ShiftOccurrence(s, sep);
      assert !OccursAt(s, sep, 0) by {
        assert s[0..|sep|] == s[..|sep|];
      }
      if r < 0 then -1 else r + 1
  }

  /** An occurrence in `s[1..]` is an occurrence in `s`, one position later. */
  lemma ShiftOccurrence(s: string, sep: string)
    requires |s| > 0
    ensures forall i | 1 <= i :: OccursAt(s, sep, i) <==> OccursAt(s[1..], sep, i - 1)
  {
    forall i | 1 <= i
      ensures OccursAt(s, sep, i) <==> OccursAt(s[1..], sep, i - 1)
    {
      if i + |sep| <= |s| {
        assert s[1..][i - 1..i - 1 + |sep|] == s[i..i + |sep|];
      }
    }
  }

  /** An occurrence inside a prefix is an occurrence in the whole string. */
  lemma PrefixOccurrence(s: string, sep: string, n: nat)
    requires n <= |s|
    ensures forall i | 0 <= i :: OccursAt(s[..n], sep, i) ==> OccursAt(s, sep, i)
  {
    forall i | 0 <= i && OccursAt(s[..n], sep, i)
      ensures OccursAt(s, sep, i)
    {
      assert s[..n][i..i + |sep|] == s[i..i + |sep|];
    }
  }

  /** The parts joined back with the separator between them. */
  function Join(parts: seq<string>, sep: string): string {
    if |parts| == 0 then ""
    else if |parts| == 1 then parts[0]
    else parts[0] + sep + Join(parts[1..], sep)
  }

  /**
   * The pieces of `s` between the successive left-to-right occurrences of the
   * literal `sep`, before any trailing empty piece is dropped.
   */
  function Split(s: string, sep: string): (parts: seq<string>)
    requires |sep| > 0
    ensures |parts| >= 1
    ensures Join(parts, sep) == s
    ensures forall i | 0 <= i < |parts| :: FindSub(parts[i], sep) < 0
    ensures |parts| == 1 <==> FindSub(s, sep) < 0
    decreases |s|
  {
    var i := FindSub(s, sep);
    if i < 0 then [s]
    else
      var rest := Split(s[i + |sep|..], sep);
      SplitStep(s, sep, i, rest);
      [s[..i]] + rest
  }

  /** The piece before the first occurrence, put in front of the pieces after it. */
  lemma SplitStep(s: string, sep: string, i: int, rest: seq<string>)
    requires |sep| > 0 && i == FindSub(s, sep) && i >= 0
    requires |rest| >= 1 && Join(rest, sep) == s[i + |sep|..]
    requires forall j | 0 <= j < |rest| :: FindSub(rest[j], sep) < 0
    ensures Join([s[..i]] + rest, sep) == s
    ensures forall j | 0 <= j < |[s[..i]] + rest| :: FindSub(([s[..i]] + rest)[j], sep) < 0
  {
    SplitStepJoin(s, sep, i, rest);
    FirstPieceFree(s, sep, i);
    var parts := [s[..i]] + rest;
    forall j | 0 <= j < |parts|
      ensures FindSub(parts[j], sep) < 0
    {
      if j > 0 {
        assert parts[j] == rest[j - 1];
      }
    }
  }

  /** Cutting at an occurrence and joining back. */
  lemma SplitStepJoin(s: string, sep: string, i: int, rest: seq<string>)
    requires OccursAt(s, sep, i)
    requires |rest| >= 1 && Join(rest, sep) == s[i + |sep|..]
    ensures Join([s[..i]] + rest, sep) == s
  {
    assert s == s[..i] + sep + s[i + |sep|..];
    JoinCons(s[..i], rest, sep);
  }

  /** Nothing before the first occurrence holds another one. */
  lemma FirstPieceFree(s: string, sep: string, i: int)
    requires |sep| > 0 && i == FindSub(s, sep) && i >= 0
    ensures FindSub(s[..i], sep) < 0
  {
    PrefixOccurrence(s, sep, i);
  }

  /** Joining a first part onto at least one more puts the separator after it. */
  lemma JoinCons(p: string, rest: seq<string>, sep: string)
    requires |rest| >= 1
    ensures Join([p] + rest, sep) == p + sep + Join(rest, sep)
  {
    assert ([p] + rest)[1..] == rest;
  }

  /** A one-character separator occurs exactly where its character is. */
  lemma OccursAtChar(s: string, sep: string, i: int)
    requires |sep| == 1 && 0 <= i < |s|
    ensures OccursAt(s, sep, i) <==> s[i] == sep[0]
  {
    if s[i] == sep[0] {
      assert s[i..i + 1] == [s[i]];
    }
  }

  /**
   * Splitting parts joined with a one-character separator that none of
   * them contains gives the parts back.
   */
  lemma {:induction false} SplitJoin(parts: seq<string>, sep: string)
    requires |sep| == 1 && |parts| >= 1
    requires forall i | 0 <= i < |parts| :: sep[0] !in parts[i]
    ensures Split(Join(parts, sep), sep) == parts
  {
    var p := parts[0];
    forall i | 0 <= i < |p|
      ensures !OccursAt(p, sep, i)
    {
      OccursAtChar(p, sep, i);
    }
    if |parts| == 1 {
      assert FindSub(p, sep) < 0;
    } else {
      var rest := Join(parts[1..], sep);
      var s := Join(parts, sep);
      assert s == p + sep + rest;
      OccursAtChar(s, sep, |p|);
      forall i | 0 <= i < |p|
        ensures !OccursAt(s, sep, i)
      {
        OccursAtChar(s, sep, i);
        assert s[i] == p[i];
      }
      var r := FindSub(s, sep);
      assert r == |p|;
      assert s[..r] == p;
      assert s[r + |sep|..] == rest;
      SplitJoin(parts[1..], sep);
    }
  }

  /** Drops the empty strings at the end of a list. */
  function DropTrailingEmpty(parts: seq<string>): (r: seq<string>)
    ensures |r| <= |parts| && r == parts[..|r|]
    ensures r == [] || r[|r| - 1] != ""
    ensures forall i | |r| <= i < |parts| :: parts[i] == ""
  {
    if |parts| > 0 && parts[|parts| - 1] == "" then DropTrailingEmpty(parts[..|parts| - 1])
    else parts
  }

  /**
   * `String.split(sep)` with limit 0 for a separator free of regular
   * expression metacharacters: the whole string when `sep` does not occur,
   * and otherwise the pieces with the trailing empty ones removed (so the
   * result can be empty).
   */
  function JavaSplit(s: string, sep: string): (r: seq<string>)
    requires |sep| > 0
    ensures |r| <= |Split(s, sep)| && r == Split(s, sep)[..|r|]
    ensures FindSub(s, sep) < 0 ==> r == [s]
    ensures FindSub(s, sep) >= 0 ==> r == DropTrailingEmpty(Split(s, sep))
    ensures r == [] <==> (|Split(s, sep)| > 1 && forall i | 0 <= i < |Split(s, sep)| :: Split(s, sep)[i] == "")
  {
    var parts := Split(s, sep);
    if |parts| == 1 then parts else DropTrailingEmpty(parts)
  }

  /** `split` gives the parts back when the last one is not empty. */
  lemma JavaSplitJoin(parts: seq<string>, sep: string)
    requires |sep| == 1 && |parts| >= 1 && parts[|parts| - 1] != ""
    requires forall i | 0 <= i < |parts| :: sep[0] !in parts[i]
    ensures JavaSplit(Join(parts, sep), sep) == parts
  {
    SplitJoin(parts, sep);
    var r := JavaSplit(Join(parts, sep), sep);
    if |parts| > 1 {
      assert |r| == |parts|;
    }
  }

  /**
   * `String.compareTo`: the difference of the first differing characters,
   * or of the lengths when one string is a prefix of the other.
   */
  function CompareTo(s: string, t: string): (r: int)
    ensures r == 0 <==> s == t
    ensures s <= t || t <= s ==> r == |s| - |t|
    ensures forall k | 0 <= k < |s| && k < |t| && s[..k] == t[..k] && s[k] != t[k] :: r == s[k] as int - t[k] as int
  {
    if |s| == 0 || |t| == 0 then |s| - |t|
    else if s[0] != t[0] then s[0] as int - t[0] as int
    else
      assert s == [s[0]] + s[1..] && t == [t[0]] + t[1..];
      assert forall k | 0 < k <= |s| && k <= |t| && s[..k] == t[..k] :: s[1..][..k - 1] == t[1..][..k - 1];
      CompareTo(s[1..], t[1..])
  }

  /** Swapping the arguments negates the result. */
  lemma {:induction false} CompareToAntisymmetric(s: string, t: string)
    ensures CompareTo(t, s) == -CompareTo(s, t)
  {
    if |s| > 0 && |t| > 0 && s[0] == t[0] {
      CompareToAntisymmetric(s[1..], t[1..]);
    }
  }

  /** "Compares below" is transitive. */
  lemma {:induction false} CompareToTransitive(s: string, t: string, u: string)
    requires CompareTo(s, t) < 0 && CompareTo(t, u) < 0
    ensures CompareTo(s, u) < 0
  {
    if |s| > 0 && |t| > 0 && |u| > 0 && s[0] == t[0] && t[0] == u[0] {
      CompareToTransitive(s[1..], t[1..], u[1..]);
    }
  }
}
