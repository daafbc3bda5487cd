/** Python's built-in string operations that the summariser relies on:
    substring search, `str.split(sep)`, `sep.join(parts)` and `str(n)` for a
    non-negative integer. Strings are sequences of characters. */
module PyStr {

  datatype Option<T> = None | Some(value: T)

  /** `sep` occurs in `s` starting at index `j`. */
  predicate OccursAt(s: string, sep: string, j: int) {
    0 <= j && j + |sep| <= |s| && s[j..j + |sep|] == sep
  }

  /** Python's `sep in s`. */
  predicate Contains(s: string, sep: string) {
    exists j :: 0 <= j <= |s| && OccursAt(s, sep, j)
  }

  /** `i` is the leftmost occurrence of `sep` in `s`. */
  predicate FirstOccurrence(s: string, sep: string, i: int) {
    OccursAt(s, sep, i) && forall j :: 0 <= j < i ==> !OccursAt(s, sep, j)
  }

  lemma OccursAtTail(s: string, sep: string, j: nat)
    requires |s| > 0
    ensures OccursAt(s[1..], sep, j) <==> OccursAt(s, sep, j + 1)
  {
    if j + 1 + |sep| <= |s| {
      assert s[1..][j..j + |sep|] == s[j + 1..j + 1 + |sep|];
    }
  }

  /** An occurrence in a suffix `s[k..]` is an occurrence in `s`, shifted by `k`. */
  lemma OccursAtDrop(s: string, sep: string, k: nat, j: nat)
    requires k <= |s|
    ensures OccursAt(s[k..], sep, j) <==> OccursAt(s, sep, k + j)
  {
    if k + j + |sep| <= |s| {
      assert s[k..][j..j + |sep|] == s[k + j..k + j + |sep|];
    }
  }

  /** An occurrence in a prefix `s[..m]` is an occurrence in `s`. */
  lemma OccursAtTake(s: string, sep: string, m: nat, j: int)
    requires m <= |s|
    ensures OccursAt(s[..m], sep, j) ==> OccursAt(s, sep, j) && j + |sep| <= m
  {
    if OccursAt(s[..m], sep, j) {
      assert s[..m][j..j + |sep|] == s[j..j + |sep|];
    }
  }

  /** Adjacent occurrences of `x` and `y` form an occurrence of `x + y`. */
  lemma OccursAtAppend(s: string, x: string, y: string, i: nat)
    requires OccursAt(s, x, i) && OccursAt(s, y, i + |x|)
    ensures OccursAt(s, x + y, i)
  {
    assert s[i..i + |x| + |y|] == s[i..i + |x|] + s[i + |x|..i + |x| + |y|];
  }

  /** A prefix of a string without `sep` has no `sep` either. */
  lemma NotContainsTake(s: string, sep: string, m: nat)
    requires m <= |s| && !Contains(s, sep)
    ensures !Contains(s[..m], sep)
  {
    forall j | OccursAt(s[..m], sep, j) ensures false {
      OccursAtTake(s, sep, m, j);
    }
  }

  /** A string that lacks the first character of `sep` does not contain `sep`. */
  lemma MissingFirstChar(s: string, sep: string)
    requires |sep| > 0 && sep[0] !in s
    ensures !Contains(s, sep)
  {
    forall j | OccursAt(s, sep, j) ensures false {
    }
  }

  /** Python's `s.find(sep)`: the leftmost occurrence, `None` standing for -1. */
  function Find(s: string, sep: string): (r: Option<nat>)
    ensures r.Some? ==> FirstOccurrence(s, sep, r.value)
    ensures r.None? ==> !Contains(s, sep)
    decreases |s|
  {
    if |s| < |sep| then None
    else if s[..|sep|] == sep then Some(0)
    else
      var rest := Find(s[1..], sep);
      assert forall j :: 1 <= j ==> (OccursAt(s, sep, j) <==> OccursAt(s[1..], sep, j - 1)) by {
        forall j | 1 <= j ensures OccursAt(s, sep, j) <==> OccursAt(s[1..], sep, j - 1) {
          OccursAtTail(s, sep, j - 1);
        }
      }
      assert !OccursAt(s, sep, 0);
      match rest
      case None => None
      case Some(i) => Some(i + 1)
  }

  /** The leftmost occurrence is unique, so `Find` yields it. */
  lemma FindFirst(s: string, sep: string, i: int)
    requires FirstOccurrence(s, sep, i)
    ensures Find(s, sep) == Some(i)
  {
  }

  /** Python's `s.split(sep)` for a non-empty separator (an empty one raises
      `ValueError`): the pieces between non-overlapping occurrences of `sep`,
      scanning from the left. */
  function Split(s: string, sep: string): (r: seq<string>)
    requires |sep| > 0
    ensures |r| >= 1
    decreases |s|
  {
    match Find(s, sep)
    case None => [s]
    case Some(i) => [s[..i]] + Split(s[i + |sep|..], sep)
  }

  /** A split has a single piece exactly when the separator does not occur. */
  lemma SplitSingle(s: string, sep: string)
    requires |sep| > 0
    ensures |Split(s, sep)| == 1 <==> !Contains(s, sep)
  {
    match Find(s, sep)
    case None =>
    case Some(i) => SplitUnfold(s, sep, i);
  }

  /** What precedes the leftmost occurrence holds no occurrence. */
  lemma BeforeFirstOccurrence(s: string, sep: string, i: nat)
    requires |sep| > 0 && FirstOccurrence(s, sep, i)
    ensures !Contains(s[..i], sep)
  {
    forall j | OccursAt(s[..i], sep, j) ensures false {
      OccursAtTake(s, sep, i, j);
    }
  }

  /** No piece of a split contains the separator. */
  lemma {:induction false} SplitPiecesFree(s: string, sep: string)
    requires |sep| > 0
    ensures forall k :: 0 <= k < |Split(s, sep)| ==> !Contains(Split(s, sep)[k], sep)
    decreases |s|
  {
    match Find(s, sep)
    case None =>
    case Some(i) =>
      BeforeFirstOccurrence(s, sep, i);
      SplitPiecesFree(s[i + |sep|..], sep);
      SplitUnfold(s, sep, i);
  }

  /** The first piece of a split: a prefix of `s` without `sep`, which is
      either all of `s` or followed by an occurrence of `sep`. */
  lemma SplitHead(s: string, sep: string)
    requires |sep| > 0
    ensures var h := Split(s, sep)[0];
      && |h| <= |s| && s[..|h|] == h
      && !Contains(h, sep)
      && (h == s || OccursAt(s, sep, |h|))
  {
    match Find(s, sep)
    case None =>
    case Some(i) => BeforeFirstOccurrence(s, sep, i);
  }

  /** When `sep` occurs in `s`, the second piece is what lies between the first
      occurrence and the next one (or the end). */
  lemma SplitSecond(s: string, sep: string, i: int)
    requires |sep| > 0 && FirstOccurrence(s, sep, i)
    ensures |Split(s, sep)| >= 2
    ensures Split(s, sep)[1] == Split(s[i + |sep|..], sep)[0]
  {
    FindFirst(s, sep, i);
    SplitUnfold(s, sep, i);
  }

  lemma SplitUnfold(s: string, sep: string, i: nat)
    requires |sep| > 0 && Find(s, sep) == Some(i)
    ensures Split(s, sep) == [s[..i]] + Split(s[i + |sep|..], sep)
  {
  }

  /** Python's `sep.join(parts)`. */
  function Join(parts: seq<string>, sep: string): (r: string)
    ensures |parts| == 0 ==> r == ""
    ensures |parts| >= 1 ==> |r| >= |parts[0]| && r[..|parts[0]|] == parts[0]
    decreases |parts|
  {
    if |parts| == 0 then ""
    else if |parts| == 1 then parts[0]
    else parts[0] + sep + Join(parts[1..], sep)
  }

  /** Joining the pieces of a split with the same separator restores the string. */
  lemma {:induction false} JoinSplit(s: string, sep: string)
    requires |sep| > 0
    ensures Join(Split(s, sep), sep) == s
    decreases |s|
  {
    var f := Find(s, sep);
    if f.Some? {
      var i := f.value;
      var tail := s[i + |sep|..];
      JoinSplit(tail, sep);
      SplitUnfold(s, sep, i);
      JoinCons(s[..i], Split(tail, sep), sep);
      SliceThree(s, i, i + |sep|);
    }
  }

  lemma SliceThree(s: string, a: nat, b: nat)
    requires a <= b <= |s|
    ensures s == s[..a] + s[a..b] + s[b..]
  {
  }

  lemma JoinCons(head: string, rest: seq<string>, sep: string)
    requires |rest| >= 1
    ensures Join([head] + rest, sep) == head + sep + Join(rest, sep)
  {
    assert ([head] + rest)[1..] == rest;
  }

  /** Appending a piece extends a non-empty join by the separator and that
      piece: the pieces appear in the join in list order. */
  lemma {:induction false} JoinSnoc(parts: seq<string>, p: string, sep: string)
    requires |parts| >= 1
    ensures Join(parts + [p], sep) == Join(parts, sep) + sep + p
    decreases |parts|
  {
    if |parts| == 1 {
      assert parts + [p] == [parts[0]] + [p];
      JoinCons(parts[0], [p], sep);
    } else {
      var rest := parts[1..];
      assert parts + [p] == [parts[0]] + (rest + [p]);
      assert parts == [parts[0]] + rest;
      JoinCons(parts[0], rest + [p], sep);
      JoinSnoc(rest, p, sep);
      JoinCons(parts[0], rest, sep);
    }
  }

  /** Total length of the pieces. */
  function TotalLength(parts: seq<string>): nat {
    if |parts| == 0 then 0 else |parts[0]| + TotalLength(parts[1..])
  }

  /** A join of n >= 1 pieces is as long as the pieces plus n - 1 separators. */
  lemma {:induction false} JoinLength(parts: seq<string>, sep: string)
    requires |parts| >= 1
    ensures |Join(parts, sep)| == TotalLength(parts) + (|parts| - 1) * |sep|
    decreases |parts|
  {
    if |parts| > 1 {
      JoinLength(parts[1..], sep);
      assert TotalLength(parts) == |parts[0]| + TotalLength(parts[1..]);
    }
  }

  /** Number of occurrences of the character `c` in `s`. */
  function Count(s: string, c: char): nat {
    if |s| == 0 then 0 else (if s[0] == c then 1 else 0) + Count(s[1..], c)
  }

  lemma {:induction false} CountAppend(a: string, b: string, c: char)
    ensures Count(a + b, c) == Count(a, c) + Count(b, c)
    decreases |a|
  {
    if |a| == 0 {
      assert a + b == b;
    } else {
      assert (a + b)[1..] == a[1..] + b;
      CountAppend(a[1..], b, c);
    }
  }

  lemma {:induction false} CountAbsent(s: string, c: char)
    requires c !in s
    ensures Count(s, c) == 0
    decreases |s|
  {
    if |s| > 0 {
      assert s[1..][0..] == s[1..];
      assert forall k :: 0 <= k < |s[1..]| ==> s[1..][k] == s[k + 1];
      CountAbsent(s[1..], c);
    }
  }

  /** Joining n >= 1 pieces that are free of the character `c` with `c`
      inserts exactly n - 1 copies of `c`. */
  lemma {:induction false} JoinCountsSeparators(parts: seq<string>, c: char)
    requires |parts| >= 1
    requires forall k :: 0 <= k < |parts| ==> c !in parts[k]
    ensures Count(Join(parts, [c]), c) == |parts| - 1
    decreases |parts|
  {
    CountAbsent(parts[0], c);
    if |parts| > 1 {
      JoinCountsSeparators(parts[1..], c);
      CountAppend(parts[0], [c], c);
      CountAppend(parts[0] + [c], Join(parts[1..], [c]), c);
    }
  }

  /** A one-character separator occurs exactly where that character stands. */
  lemma OccursAtChar(s: string, c: char, j: int)
    ensures OccursAt(s, [c], j) <==> 0 <= j < |s| && s[j] == c
  {
    if 0 <= j < |s| {
      assert s[j..j + 1] == [s[j]];
    }
  }

  /** Splitting a join on a character that no piece contains gives back the
      pieces, in order. */
  lemma {:induction false} SplitJoin(parts: seq<string>, c: char)
    requires |parts| >= 1
    requires forall k :: 0 <= k < |parts| ==> c !in parts[k]
    ensures Split(Join(parts, [c]), [c]) == parts
    decreases |parts|
  {
    var s := Join(parts, [c]);
    if |parts| == 1 {
      forall j | OccursAt(s, [c], j) ensures false { OccursAtChar(s, c, j); }
    } else {
      var p := parts[0];
      var rest := Join(parts[1..], [c]);
      assert s == p + [c] + rest;
      OccursAtChar(s, c, |p|);
      forall j | 0 <= j < |p| ensures !OccursAt(s, [c], j) {
        OccursAtChar(s, c, j);
        assert s[j] == p[j];
      }
      FindFirst(s, [c], |p|);
      assert s[|p| + 1..] == rest;
      SplitJoin(parts[1..], c);
    }
  }

  /** The ASCII digit for `d`. */
  function DigitChar(d: nat): (c: char)
    requires d < 10
    ensures '0' <= c <= '9'
  {
    "0123456789"[d]
  }

  /** Value of an ASCII digit. */
  function DigitValue(c: char): nat
    requires '0' <= c <= '9'
  {
    (c as int - '0' as int) as nat
  }

  predicate AllDigits(s: string) {
    forall k :: 0 <= k < |s| ==> '0' <= s[k] <= '9'
  }

  /** Python's `str(n)` for a non-negative integer: decimal digits, no leading
      zero except for `n == 0` itself. */
  function DecimalString(n: nat): (r: string)
    ensures |r| >= 1 && AllDigits(r)
    ensures r[0] == '0' ==> n == 0
    decreases n
  {
    if n < 10 then [DigitChar(n)] else DecimalString(n / 10) + [DigitChar(n % 10)]
  }

  /** Reads a string of decimal digits back as a number. */
  function ParseDecimal(s: string): nat
    requires AllDigits(s)
    decreases |s|
  {
    if |s| == 0 then 0 else 10 * ParseDecimal(s[..|s| - 1]) + DigitValue(s[|s| - 1])
  }

  lemma {:induction false} ParseDecimalString(n: nat)
    ensures ParseDecimal(DecimalString(n)) == n
    decreases n
  {
    var r := DecimalString(n);
    if n < 10 {
      assert r == [DigitChar(n)];
      assert r[..0] == [];
    } else {
      ParseDecimalString(n / 10);
      assert r[..|r| - 1] == DecimalString(n / 10);
    }
  }

  /** Different numbers have different decimal renderings. */
  lemma DecimalStringInjective(n: nat, m: nat)
    requires DecimalString(n) == DecimalString(m)
    ensures n == m
  {
    ParseDecimalString(n);
    ParseDecimalString(m);
  }
}
