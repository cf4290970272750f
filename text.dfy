/**
 * The Python string operations the source relies on, as functions on `string`
 * (`seq<char>`): `p in s`, `s.startswith(p)`, `s.replace(a, b)`, `s.split(sep)`,
 * `sep.join(parts)`, `s.lower()`, `c * n` and decimal formatting of integers,
 * with the facts about them that the rest of the model uses.
 */
module Text {

  /** `s.startswith(p)`. */
  predicate StartsWith(s: string, p: string) {
    |p| <= |s| && s[..|p|] == p
  }

  /** Python's `p in s`: `p` occurs in `s` at some position. */
  predicate Contains(s: string, p: string) {
    exists i | 0 <= i <= |s| :: StartsWith(s[i..], p)
  }

  /** `s.replace(pat, rep)`: every non-overlapping occurrence of `pat`, scanned left to right, becomes `rep`. */
  function ReplaceAll(s: string, pat: string, rep: string): string
    requires pat != []
    decreases |s|
  {
    if StartsWith(s, pat) then rep + ReplaceAll(s[|pat|..], pat, rep)
    else if s == [] then []
    else [s[0]] + ReplaceAll(s[1..], pat, rep)
  }

  /** `s.split(sep)` with an explicit, non-empty separator. */
  function Split(s: string, sep: string): (parts: seq<string>)
    requires sep != []
    ensures |parts| >= 1
    decreases |s|
  {
    if StartsWith(s, sep) then [[]] + Split(s[|sep|..], sep)
    else if s == [] then [[]]
    else
      var rest := Split(s[1..], sep);
      [[s[0]] + rest[0]] + rest[1..]
  }

  /** `sep.join(parts)`. */
  function Join(parts: seq<string>, sep: string): string {
    if |parts| == 0 then []
    else if |parts| == 1 then parts[0]
    else parts[0] + sep + Join(parts[1..], sep)
  }

  /** `c.lower()` for one character; only ASCII capitals change. */
  function LowerChar(c: char): char {
    if 'A' <= c <= 'Z' then (c as int + 32) as char else c
  }

  /** `s.lower()`, on ASCII letters. */
  function Lower(s: string): (r: string)
    ensures |r| == |s| && forall i | 0 <= i < |s| :: r[i] == LowerChar(s[i])
  {
    seq(|s|, i requires 0 <= i < |s| => LowerChar(s[i]))
  }

  /** `c * n`: `n` copies of `c`; empty when `n` is zero or negative. */
  function Repeat(c: char, n: int): (r: string)
    ensures |r| == if n <= 0 then 0 else n
    ensures forall i | 0 <= i < |r| :: r[i] == c
    decreases n
  {
    if n <= 0 then [] else [c] + Repeat(c, n - 1)
  }

  /** `str.isdigit` on one character (ASCII digits). */
  predicate IsDigit(c: char) {
    '0' <= c <= '9'
  }

  /** Every character is a digit (`all(c.isdigit() for c in s)`; true of the empty string). */
  predicate AllDigits(s: string) {
    forall i | 0 <= i < |s| :: IsDigit(s[i])
  }

  /** `f"{n}"` for a non-negative integer. */
  function Decimal(n: nat): (r: string)
    decreases n
  {
    if n < 10 then [('0' as int + n) as char]
    else Decimal(n / 10) + [('0' as int + n % 10) as char]
  }

  /** The number a string of digits denotes (leading zeros allowed). */
  function DigitsValue(s: string): nat
    requires AllDigits(s)
  {
    if s == [] then 0
    else DigitsValue(s[..|s| - 1]) * 10 + (s[|s| - 1] as int - '0' as int)
  }

  // ---------------------------------------------------------------------------
  // Occurrences

  lemma ContainsAt(s: string, p: string, i: nat)
    requires i <= |s| && StartsWith(s[i..], p)
    ensures Contains(s, p)
  {
  }

  /** A string contains every string it contains a piece of: containment is transitive. */
  lemma {:induction false} ContainsTransitive(s: string, x: string, p: string)
    requires Contains(s, x) && Contains(x, p)
    ensures Contains(s, p)
  {
    var i :| 0 <= i <= |s| && StartsWith(s[i..], x);
    var j :| 0 <= j <= |x| && StartsWith(x[j..], p);
    assert StartsWith(s[i + j..], p) by {
      forall k | 0 <= k < |p|
        ensures s[i + j..][k] == p[k]
      {
        assert x[j..][k] == p[k];
        assert s[i..][j + k] == x[j + k];
      }
    }
    ContainsAt(s, p, i + j);
  }

  /** What occurs in a suffix occurs in the whole string. */
  lemma ContainsInSuffix(s: string, k: nat, p: string)
    requires k <= |s| && Contains(s[k..], p)
    ensures Contains(s, p)
  {
    var i :| 0 <= i <= |s[k..]| && StartsWith(s[k..][i..], p);
    assert s[k..][i..] == s[k + i..];
    ContainsAt(s, p, k + i);
  }

  /** Both operands of a concatenation occur in it. */
  lemma ContainsParts(a: string, b: string)
    ensures Contains(a + b, a) && Contains(a + b, b)
  {
    assert (a + b)[0..] == a + b;
    ContainsAt(a + b, a, 0);
    assert (a + b)[|a|..] == b;
    ContainsAt(a + b, b, |a|);
  }

  /** Lower-casing keeps occurrences. */
  lemma ContainsLower(s: string, x: string)
    requires Contains(s, x)
    ensures Contains(Lower(s), Lower(x))
  {
    var i :| 0 <= i <= |s| && StartsWith(s[i..], x);
    assert StartsWith(Lower(s)[i..], Lower(x)) by {
      forall k | 0 <= k < |x|
        ensures Lower(s)[i..][k] == Lower(x)[k]
      {
        assert s[i..][k] == x[k];
      }
    }
    ContainsAt(Lower(s), Lower(x), i);
  }

  lemma LowerConcat(a: string, b: string)
    ensures Lower(a + b) == Lower(a) + Lower(b)
  {
  }

  /** A string with no ASCII capitals is its own lower-case form. */
  lemma LowerOfLowercase(s: string)
    requires forall i | 0 <= i < |s| :: !('A' <= s[i] <= 'Z')
    ensures Lower(s) == s
  {
  }

  /** An occurrence of `pat` in `a + b` lies in `a`, in `b`, or across the seam. */
  lemma ConcatFree(a: string, b: string, pat: string)
    requires pat != []
    requires !Contains(a, pat) && !Contains(b, pat)
    requires forall i | 0 <= i < |a| < i + |pat| :: !StartsWith((a + b)[i..], pat)
    ensures !Contains(a + b, pat)
  {
    forall i | 0 <= i <= |a + b|
      ensures !StartsWith((a + b)[i..], pat)
    {
      if i + |pat| <= |a| {
        assert (a + b)[i..][..|pat|] == a[i..][..|pat|];
      } else if i >= |a| {
        assert (a + b)[i..] == b[i - |a|..];
      }
    }
  }

  /**
   * `glue` cannot take part in an occurrence of `pat` across a seam: it is at least
   * as long as `pat`, holds no `pat`, and no proper prefix of it ends `pat` and no
   * proper suffix of it begins `pat`.
   */
  predicate SeamFree(glue: string, pat: string) {
    && |pat| <= |glue|
    && !Contains(glue, pat)
    && (forall k | 0 < k < |pat| :: glue[..k] != pat[|pat| - k..])
    && (forall k | 0 < k < |pat| :: glue[|glue| - k..] != pat[..k])
  }

  /** A string lacking one of the characters of `p` does not contain `p`. */
  lemma MissingChar(s: string, p: string, j: nat)
    requires j < |p| && p[j] !in s
    ensures !Contains(s, p)
  {
    forall i | 0 <= i <= |s|
      ensures !StartsWith(s[i..], p)
    {
      if |p| <= |s[i..]| {
        assert s[i..][..|p|][j] == s[i + j];
      }
    }
  }

  /**
   * Seam-freedom from the two characters at each end of `glue`: the first two
   * never line up with a proper suffix of `pat`, the last two never with a proper prefix.
   */
  lemma SeamFreeByEnds(glue: string, pat: string, missing: nat)
    requires 2 <= |pat| <= |glue| && missing < |pat| && pat[missing] !in glue
    requires forall j | 1 <= j < |pat| :: pat[j] != glue[0] || (j + 1 < |pat| && pat[j + 1] != glue[1])
    requires forall j | 0 <= j < |pat| - 1 :: pat[j] != glue[|glue| - 1] || (1 <= j && pat[j - 1] != glue[|glue| - 2])
    ensures SeamFree(glue, pat)
  {
    MissingChar(glue, pat, missing);
    forall k | 0 < k < |pat|
      ensures glue[..k] != pat[|pat| - k..]
    {
      assert glue[..k][0] == glue[0];
      assert pat[|pat| - k..][0] == pat[|pat| - k];
      if k >= 2 {
        assert glue[..k][1] == glue[1];
        assert pat[|pat| - k..][1] == pat[|pat| - k + 1];
      }
    }
    forall k | 0 < k < |pat|
      ensures glue[|glue| - k..] != pat[..k]
    {
      assert glue[|glue| - k..][k - 1] == glue[|glue| - 1];
      assert pat[..k][k - 1] == pat[k - 1];
      if k >= 2 {
        assert glue[|glue| - k..][k - 2] == glue[|glue| - 2];
        assert pat[..k][k - 2] == pat[k - 2];
      }
    }
  }

  /** Putting seam-free glue after a string without `pat` creates no `pat`, whatever follows. */
  lemma {:induction false} JoinSeam(a: string, b: string, glue: string, pat: string)
    requires pat != [] && SeamFree(glue, pat)
    requires !Contains(a, pat) && !Contains(glue + b, pat)
    ensures !Contains(a + (glue + b), pat)
  {
    var c := glue + b;
    forall i | 0 <= i < |a| < i + |pat|
      ensures !StartsWith((a + c)[i..], pat)
    {
      var x := (a + c)[i..];
      var m := |a| - i;
      var k := |pat| - m;
      assert x[m..|pat|] == glue[..k] by {
        assert forall j | 0 <= j < k :: x[m + j] == c[j] == glue[j];
      }
      assert pat[m..] == pat[|pat| - k..];
      assert |pat| <= |x| ==> x[m..|pat|] == x[..|pat|][m..];
    }
    ConcatFree(a, c, pat);
  }

  /** Seam-free glue in front of a string without `pat` creates no `pat`. */
  lemma {:induction false} GlueBefore(glue: string, b: string, pat: string)
    requires pat != [] && SeamFree(glue, pat)
    requires !Contains(b, pat)
    ensures !Contains(glue + b, pat)
  {
    forall i | 0 <= i < |glue| < i + |pat|
      ensures !StartsWith((glue + b)[i..], pat)
    {
      var x := (glue + b)[i..];
      var m := |glue| - i;
      assert x[..m] == glue[|glue| - m..];
      assert |pat| <= |x| ==> x[..m] == x[..|pat|][..m];
    }
    ConcatFree(glue, b, pat);
  }

  /** Joining strings without `pat` by seam-free glue gives a string without `pat`. */
  lemma {:induction false} JoinFree(parts: seq<string>, glue: string, pat: string)
    requires pat != [] && SeamFree(glue, pat)
    requires forall i | 0 <= i < |parts| :: !Contains(parts[i], pat)
    ensures !Contains(Join(parts, glue), pat)
  {
    if |parts| == 0 {
      assert !StartsWith([], pat);
    } else if |parts| > 1 {
      JoinFree(parts[1..], glue, pat);
      GlueBefore(glue, Join(parts[1..], glue), pat);
      JoinSeam(parts[0], Join(parts[1..], glue), glue, pat);
      assert Join(parts, glue) == parts[0] + (glue + Join(parts[1..], glue));
    }
  }

  /** A join of at least two parts contains its separator. */
  lemma JoinContainsSep(parts: seq<string>, sep: string)
    requires |parts| >= 2
    ensures Contains(Join(parts, sep), sep)
  {
    var rest := Join(parts[1..], sep);
    assert Join(parts, sep) == parts[0] + (sep + rest);
    ContainsParts(parts[0], sep + rest);
    ContainsParts(sep, rest);
    ContainsTransitive(Join(parts, sep), sep + rest, sep);
  }

  // ---------------------------------------------------------------------------
  // split and join

  lemma JoinConsFirst(c: char, xs: seq<string>, sep: string)
    requires |xs| >= 1
    ensures Join([[c] + xs[0]] + xs[1..], sep) == [c] + Join(xs, sep)
  {
    var ys := [[c] + xs[0]] + xs[1..];
    assert ys[1..] == xs[1..];
  }

  /** Joining a list with a part in front puts that part and a separator in front. */
  lemma JoinCons(x: string, xs: seq<string>, sep: string)
    requires |xs| >= 1
    ensures Join([x] + xs, sep) == x + sep + Join(xs, sep)
  {
    assert ([x] + xs)[1..] == xs;
  }

  /** Joining one more part appends the separator and the part. */
  lemma {:induction false} JoinSnoc(parts: seq<string>, last: string, sep: string)
    requires |parts| >= 1
    ensures Join(parts + [last], sep) == Join(parts, sep) + sep + last
  {
    if |parts| == 1 {
      assert (parts + [last])[1..] == [last];
    } else {
      assert (parts + [last])[1..] == parts[1..] + [last];
      JoinSnoc(parts[1..], last, sep);
    }
  }

  /** `sep.join(s.split(sep)) == s`. */
  lemma {:induction false} SplitJoin(s: string, sep: string)
    requires sep != []
    ensures Join(Split(s, sep), sep) == s
    decreases |s|
  {
    if StartsWith(s, sep) {
      var rest := Split(s[|sep|..], sep);
      SplitJoin(s[|sep|..], sep);
      assert ([[]] + rest)[1..] == rest;
      assert s == sep + s[|sep|..];
    } else if s != [] {
      SplitJoin(s[1..], sep);
      JoinConsFirst(s[0], Split(s[1..], sep), sep);
      assert s == [s[0]] + s[1..];
    }
  }

  /** `s.replace(pat, rep) == rep.join(s.split(pat))`. */
  lemma {:induction false} ReplaceIsSplitJoin(s: string, pat: string, rep: string)
    requires pat != []
    ensures ReplaceAll(s, pat, rep) == Join(Split(s, pat), rep)
    decreases |s|
  {
    if StartsWith(s, pat) {
      var rest := Split(s[|pat|..], pat);
      ReplaceIsSplitJoin(s[|pat|..], pat, rep);
      assert ([[]] + rest)[1..] == rest;
    } else if s != [] {
      ReplaceIsSplitJoin(s[1..], pat, rep);
      JoinConsFirst(s[0], Split(s[1..], pat), rep);
    }
  }

  /** Replacing a pattern that does not occur changes nothing. */
  lemma ReplaceAbsent(s: string, pat: string, rep: string)
    requires pat != [] && !Contains(s, pat)
    ensures ReplaceAll(s, pat, rep) == s
  {
    ReplaceIsSplitJoin(s, pat, rep);
    SplitSingle(s, pat);
  }

  /** Lower-casing a join lower-cases the parts and the separator. */
  lemma {:induction false} LowerJoin(parts: seq<string>, sep: string)
    ensures Lower(Join(parts, sep)) == Join(seq(|parts|, i requires 0 <= i < |parts| => Lower(parts[i])), Lower(sep))
  {
    var lowered := seq(|parts|, i requires 0 <= i < |parts| => Lower(parts[i]));
    if |parts| > 1 {
      LowerJoin(parts[1..], sep);
      var rest := seq(|parts| - 1, i requires 0 <= i < |parts| - 1 => Lower(parts[1..][i]));
      assert lowered[1..] == rest;
      LowerConcat(parts[0] + sep, Join(parts[1..], sep));
      LowerConcat(parts[0], sep);
    }
  }

  /** The first piece of a split is a prefix of the string. */
  lemma {:induction false} SplitFirstIsPrefix(s: string, sep: string)
    requires sep != []
    ensures StartsWith(s, Split(s, sep)[0])
    decreases |s|
  {
    if !StartsWith(s, sep) && s != [] {
      SplitFirstIsPrefix(s[1..], sep);
    }
  }

  /** No piece of `s.split(sep)` contains `sep`. */
  lemma {:induction false} SplitPartsFree(s: string, sep: string)
    requires sep != []
    ensures forall i | 0 <= i < |Split(s, sep)| :: !Contains(Split(s, sep)[i], sep)
    decreases |s|
  {
    var parts := Split(s, sep);
    if StartsWith(s, sep) {
      var rest := Split(s[|sep|..], sep);
      SplitPartsFree(s[|sep|..], sep);
      assert parts == [[]] + rest;
      assert !Contains([], sep) by {
        assert forall i | 0 <= i <= 0 :: !StartsWith([][i..], sep);
      }
    } else if s == [] {
      assert !Contains([], sep) by {
        assert forall i | 0 <= i <= 0 :: !StartsWith([][i..], sep);
      }
    } else {
      var rest := Split(s[1..], sep);
      SplitPartsFree(s[1..], sep);
      SplitFirstIsPrefix(s[1..], sep);
      var q := [s[0]] + rest[0];
      assert parts == [q] + rest[1..];
      forall j | 0 <= j <= |q|
        ensures !StartsWith(q[j..], sep)
      {
        if j == 0 {
          assert s == [s[0]] + s[1..];
          assert s[1..][..|rest[0]|] == rest[0];
          assert |sep| <= |q| ==> s[..|sep|] == q[..|sep|];
        } else {
          assert q[j..] == rest[0][j - 1..];
        }
      }
      assert forall i | 1 <= i < |parts| :: parts[i] == rest[i];
    }
  }

  /** Every piece of `s.split(sep)` occurs in `s`. */
  lemma {:induction false} SplitPartsOccur(s: string, sep: string)
    requires sep != []
    ensures forall i | 0 <= i < |Split(s, sep)| :: Contains(s, Split(s, sep)[i])
    decreases |s|
  {
    var parts := Split(s, sep);
    if StartsWith(s, sep) {
      var rest := Split(s[|sep|..], sep);
      SplitPartsOccur(s[|sep|..], sep);
      assert parts == [[]] + rest;
      ContainsAt(s, [], 0);
      forall i | 1 <= i < |parts|
        ensures Contains(s, parts[i])
      {
        assert parts[i] == rest[i - 1];
        ContainsInSuffix(s, |sep|, parts[i]);
      }
    } else if s == [] {
      ContainsAt(s, [], 0);
    } else {
      var rest := Split(s[1..], sep);
      SplitPartsOccur(s[1..], sep);
      SplitFirstIsPrefix(s[1..], sep);
      var q := [s[0]] + rest[0];
      assert parts == [q] + rest[1..];
      assert StartsWith(s, q) by {
        assert s == [s[0]] + s[1..];
        assert s[1..][..|rest[0]|] == rest[0];
      }
      assert s[0..] == s;
      ContainsAt(s, q, 0);
      forall i | 1 <= i < |parts|
        ensures Contains(s, parts[i])
      {
        assert parts[i] == rest[i];
        ContainsInSuffix(s, 1, parts[i]);
      }
    }
  }

  /** A string without `sep` splits into itself. */
  lemma {:induction false} SplitSingle(p: string, sep: string)
    requires sep != [] && !Contains(p, sep)
    ensures Split(p, sep) == [p]
    decreases |p|
  {
    assert !StartsWith(p, sep) by {
      assert p[0..] == p;
    }
    if p != [] {
      assert !Contains(p[1..], sep) by {
        if Contains(p[1..], sep) {
          ContainsInSuffix(p, 1, sep);
        }
      }
      SplitSingle(p[1..], sep);
      assert p == [p[0]] + p[1..];
    }
  }

  /** No non-empty proper prefix of `sep` is also a suffix of it. */
  predicate NoBorder(sep: string) {
    forall k | 0 < k < |sep| :: sep[..k] != sep[|sep| - k..]
  }

  /** A first piece without `sep`, then `sep`, splits off exactly that piece. */
  lemma {:induction false} SplitCons(p: string, sep: string, rest: string)
    requires sep != [] && NoBorder(sep) && !Contains(p, sep)
    ensures Split(p + sep + rest, sep) == [p] + Split(rest, sep)
    decreases |p|
  {
    var s := p + sep + rest;
    if p == [] {
      assert s == sep + rest;
      assert s[|sep|..] == rest;
    } else {
      assert !StartsWith(s, sep) by {
        if |p| >= |sep| {
          assert p[..|sep|] == s[..|sep|];
          assert p[0..] == p;
        } else {
          var k := |sep| - |p|;
          assert s[|p|..|sep|] == sep[..k];
          assert s[|p|..|sep|] == s[..|sep|][|p|..];
          assert sep[|p|..] == sep[|sep| - k..];
        }
      }
      assert !Contains(p[1..], sep) by {
        if Contains(p[1..], sep) {
          ContainsInSuffix(p, 1, sep);
        }
      }
      SplitCons(p[1..], sep, rest);
      assert s[1..] == p[1..] + sep + rest;
      assert [p[0]] + p[1..] == p;
    }
  }

  /** Splitting a join of pieces without `sep` gives the pieces back. */
  lemma {:induction false} JoinSplit(parts: seq<string>, sep: string)
    requires sep != [] && NoBorder(sep) && |parts| >= 1
    requires forall i | 0 <= i < |parts| :: !Contains(parts[i], sep)
    ensures Split(Join(parts, sep), sep) == parts
  {
    if |parts| == 1 {
      SplitSingle(parts[0], sep);
    } else {
      JoinSplit(parts[1..], sep);
      SplitCons(parts[0], sep, Join(parts[1..], sep));
      assert [parts[0]] + parts[1..] == parts;
    }
  }

  // ---------------------------------------------------------------------------
  // Single characters

  /** Replacing a character by another leaves no copy of the first. */
  lemma {:induction false} ReplaceCharRemoves(s: string, c: char, d: char)
    requires c != d
    ensures c !in ReplaceAll(s, [c], [d])
    decreases |s|
  {
    if s != [] {
      ReplaceCharRemoves(s[1..], c, d);
      if !StartsWith(s, [c]) {
        assert s[..1] == [s[0]];
      }
    }
  }

  // ---------------------------------------------------------------------------
  // Decimal numbers

  /** `f"{n}"` is made of digits and reads back as `n`. */
  lemma {:induction false} DecimalRoundTrip(n: nat)
    ensures AllDigits(Decimal(n)) && |Decimal(n)| >= 1
    ensures DigitsValue(Decimal(n)) == n
    decreases n
  {
    if n >= 10 {
      DecimalRoundTrip(n / 10);
      var d := Decimal(n);
      assert d[..|d| - 1] == Decimal(n / 10);
    }
  }

  /** Distinct numbers print differently. */
  lemma DecimalDistinct(m: nat, n: nat)
    requires m != n
    ensures Decimal(m) != Decimal(n)
  {
    DecimalRoundTrip(m);
    DecimalRoundTrip(n);
  }

  /** Leading zeros do not change the value of a digit string. */
  lemma {:induction false} LeadingZeros(z: nat, s: string)
    requires AllDigits(s)
    ensures AllDigits(Repeat('0', z) + s)
    ensures DigitsValue(Repeat('0', z) + s) == DigitsValue(s)
    decreases z, |s|
  {
    var t := Repeat('0', z) + s;
    if s == [] {
      if z > 0 {
        assert Repeat('0', z) == Repeat('0', z - 1) + ['0'] by {
          RepeatSnoc('0', z);
        }
        assert t[..|t| - 1] == Repeat('0', z - 1) + [];
        LeadingZeros(z - 1, []);
      }
    } else {
      LeadingZeros(z, s[..|s| - 1]);
      assert t[..|t| - 1] == Repeat('0', z) + s[..|s| - 1];
    }
  }

  lemma {:induction false} RepeatSnoc(c: char, n: nat)
    requires n > 0
    ensures Repeat(c, n) == Repeat(c, n - 1) + [c]
    decreases n
  {
    if n > 1 {
      RepeatSnoc(c, n - 1);
    }
  }
}
