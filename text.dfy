/**
 * String helpers shared by the model. Each one has the semantics of the
 * standard-library routine it stands for:
 *   - GetlineSplit: repeated `std::getline(stream, item, delim)`
 *   - Split: `folly::split(delim, s, out)`, with empty pieces kept
 *   - SplitStep: `folly::split_step(piece, delim)`
 *   - Find: `std::string::find(pattern)`
 *   - Decimal: `std::to_string` on an unsigned value
 */
module Text {
  import opened Wrappers

  /** Index of the first occurrence of `c` in `s`. */
  function IndexOf(s: string, c: char): (i: nat)
    requires c in s
    ensures i < |s| && s[i] == c && c !in s[..i]
  {
    if s[0] == c then 0 else 1 + IndexOf(s[1..], c)
  }

  /**
   * The items that repeated `std::getline(ss, item, d)` produce. An empty
   * string gives no items, and a trailing delimiter does not give a trailing
   * empty item.
   */
  function GetlineSplit(s: string, d: char): (items: seq<string>)
    decreases |s|
  {
    if s == [] then []
    else if d !in s then [s]
    else
      var i := IndexOf(s, d);
      [s[..i]] + GetlineSplit(s[i + 1..], d)
  }

  /**
   * `folly::split(d, s, out)` without `ignoreEmpty`. Every delimiter separates
   * two pieces, so the empty string gives one empty piece.
   */
  function Split(s: string, d: char): (pieces: seq<string>)
    decreases |s|
  {
    if d !in s then [s]
    else
      var i := IndexOf(s, d);
      [s[..i]] + Split(s[i + 1..], d)
  }

  /** `folly::split(d, s, out, true)`: the pieces of Split that are not empty. */
  function SplitNonEmpty(s: string, d: char): (pieces: seq<string>)
  {
    NonEmpty(Split(s, d))
  }

  function NonEmpty(xs: seq<string>): (ys: seq<string>)
    ensures forall y :: y in ys ==> y != [] && y in xs
  {
    if xs == [] then []
    else if xs[0] == [] then NonEmpty(xs[1..])
    else [xs[0]] + NonEmpty(xs[1..])
  }

  /** `folly::split_step(piece, d)`: the text before the first `d`, and what follows it. */
  function SplitStep(s: string, d: char): (r: (string, string))
    ensures d in s ==> r.0 + [d] + r.1 == s && d !in r.0
    ensures d !in s ==> r == (s, [])
  {
    if d in s then
      var i := IndexOf(s, d);
      assert s == s[..i] + [d] + s[i + 1..];
      (s[..i], s[i + 1..])
    else (s, [])
  }

  /** The items joined with `d` between consecutive items. */
  function Join(xs: seq<string>, d: char): string
  {
    if |xs| == 0 then []
    else if |xs| == 1 then xs[0]
    else xs[0] + [d] + Join(xs[1..], d)
  }

  /** Appending one item to a join appends the delimiter and the item. */
  lemma {:induction false} JoinSnoc(xs: seq<string>, y: string, d: char)
    ensures Join(xs + [y], d) == if xs == [] then y else Join(xs, d) + [d] + y
    decreases |xs|
  {
    if |xs| == 1 {
      assert xs + [y] == [xs[0], y];
      assert ([xs[0], y])[1..] == [y];
    } else if |xs| > 1 {
      assert (xs + [y])[1..] == xs[1..] + [y];
      JoinSnoc(xs[1..], y, d);
    }
  }

  predicate NoneContains(xs: seq<string>, d: char)
  {
    forall i :: 0 <= i < |xs| ==> d !in xs[i]
  }

  /** An item free of the delimiter, then the delimiter: both splits take that item first. */
  lemma SplitCons(a: string, d: char, b: string)
    requires d !in a
    ensures Split(a + [d] + b, d) == [a] + Split(b, d)
    ensures GetlineSplit(a + [d] + b, d) == [a] + GetlineSplit(b, d)
  {
    var s := a + [d] + b;
    IndexOfAfterFree(a, d, b);
    assert s[..|a|] == a && s[|a| + 1..] == b;
  }

  /** Splitting a join gives back the items, provided none contains the delimiter. */
  lemma {:induction false} SplitJoin(xs: seq<string>, d: char)
    requires |xs| > 0 && NoneContains(xs, d)
    ensures Split(Join(xs, d), d) == xs
    decreases |xs|
  {
    if |xs| == 1 {
      assert Join(xs, d) == xs[0];
    } else {
      SplitCons(xs[0], d, Join(xs[1..], d));
      SplitJoin(xs[1..], d);
      assert [xs[0]] + xs[1..] == xs;
    }
  }

  /** getline gives the items back too, provided the last one is not empty. */
  lemma {:induction false} GetlineSplitJoin(xs: seq<string>, d: char)
    requires |xs| > 0 && NoneContains(xs, d) && xs[|xs| - 1] != []
    ensures GetlineSplit(Join(xs, d), d) == xs
    decreases |xs|
  {
    if |xs| == 1 {
      assert Join(xs, d) == xs[0];
    } else {
      var rest := xs[1..];
      assert rest[|rest| - 1] == xs[|xs| - 1];
      assert NoneContains(rest, d) by {
        forall i | 0 <= i < |rest| ensures d !in rest[i] {
          assert rest[i] == xs[i + 1];
        }
      }
      assert Join(xs, d) == xs[0] + [d] + Join(rest, d);
      SplitCons(xs[0], d, Join(rest, d));
      GetlineSplitJoin(rest, d);
      assert [xs[0]] + xs[1..] == xs;
    }
  }

  lemma IndexOfAfterFree(a: string, d: char, b: string)
    requires d !in a
    ensures d in a + [d] + b && IndexOf(a + [d] + b, d) == |a|
  {
    var s := a + [d] + b;
    assert s[|a|] == d;
  }

  /**
   * Whether `std::mismatch(p.begin(), p.end(), s.begin())` runs to the end of
   * `p`. The scan reads `s` through `c_str()`, so past its last character it
   * meets the terminating NUL, which a `p` free of NUL never matches.
   */
  function MismatchReachesEnd(p: string, s: string): (r: bool)
    requires '\0' !in p
    ensures r <==> p <= s
  {
    MismatchFrom(p, s + ['\0'], 0) == |p|
  }

  /** The first index from `i` on where `p` and `t` differ, or `|p|`. */
  function MismatchFrom(p: string, t: string, i: nat): (k: nat)
    requires '\0' !in p && |t| > 0 && t[|t| - 1] == '\0'
    requires i <= |p| && i < |t| && p[..i] == t[..i]
    ensures i <= k <= |p| && k < |t| && p[..k] == t[..k]
    ensures k < |p| ==> p[k] != t[k]
    decreases |p| - i
  {
    if i == |p| then i
    else if p[i] != t[i] then i
    else
      assert p[..i + 1] == t[..i + 1];
      MismatchFrom(p, t, i + 1)
  }

  /** Whether `pat` occurs in `s` starting at index `i`. */
  predicate OccursAt(s: string, pat: string, i: nat)
  {
    i + |pat| <= |s| && s[i..i + |pat|] == pat
  }

  /** `s.find(pat)`: the first index where `pat` occurs, if any (`npos` is None). */
  function Find(s: string, pat: string): (r: Option<nat>)
    ensures r.Some? ==> OccursAt(s, pat, r.value) &&
                        forall j :: 0 <= j < r.value ==> !OccursAt(s, pat, j)
    ensures r.None? ==> forall j :: 0 <= j <= |s| ==> !OccursAt(s, pat, j)
  {
    FindFrom(s, pat, 0)
  }

  function FindFrom(s: string, pat: string, k: nat): (r: Option<nat>)
    requires k <= |s| + 1
    ensures r.Some? ==> k <= r.value && OccursAt(s, pat, r.value) &&
                        forall j :: k <= j < r.value ==> !OccursAt(s, pat, j)
    ensures r.None? ==> forall j :: k <= j <= |s| ==> !OccursAt(s, pat, j)
    decreases |s| + 1 - k
  {
    if k + |pat| > |s| then None
    else if s[k..k + |pat|] == pat then Some(k)
    else FindFrom(s, pat, k + 1)
  }

  /** `std::to_string` of an unsigned value: decimal digits, no leading zeros. */
  function Decimal(n: nat): (s: string)
    ensures |s| > 0 && forall i :: 0 <= i < |s| ==> '0' <= s[i] <= '9'
  {
    if n < 10 then [DigitChar(n)] else Decimal(n / 10) + [DigitChar(n % 10)]
  }

  function DigitChar(n: nat): (c: char)
    requires n < 10
    ensures '0' <= c <= '9'
  {
    (('0' as int) + n) as char
  }
}
