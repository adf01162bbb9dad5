/**
 * The parts of java.lang.String and java.util.StringTokenizer that the
 * field-reference resolver relies on, stated over `seq<char>`.
 */
module JavaStrings {

  /** `s.indexOf(c, from)`: the first position at or after `from` (a negative
      `from` counts as 0) that holds `c`, or -1 when there is none. */
  function IndexOf(s: string, c: char, from: int): (r: int)
    ensures r == -1 || ((if from < 0 then 0 else from) <= r < |s| && s[r] == c)
    ensures r != -1 ==> forall k :: (if from < 0 then 0 else from) <= k < r ==> s[k] != c
    ensures r == -1 ==> forall k :: (if from < 0 then 0 else from) <= k < |s| ==> s[k] != c
    decreases |s| - from
  {
    if from < 0 then IndexOf(s, c, 0)
    else if from >= |s| then -1
    else if s[from] == c then from
    else IndexOf(s, c, from + 1)
  }

  /** `s.lastIndexOf(c)`: the last position holding `c`, or -1. */
  function LastIndexOf(s: string, c: char): (r: int)
    ensures -1 <= r < |s|
    ensures r >= 0 ==> s[r] == c
    ensures forall k :: r < k < |s| ==> s[k] != c
  {
    LastIndexBefore(s, c, |s|)
  }

  /** The last position before `end` that holds `c`, or -1. */
  function LastIndexBefore(s: string, c: char, end: int): (r: int)
    requires 0 <= end <= |s|
    ensures -1 <= r < end
    ensures r >= 0 ==> s[r] == c
    ensures forall k :: r < k < end ==> s[k] != c
  {
    if end == 0 then -1
    else if s[end - 1] == c then end - 1
    else LastIndexBefore(s, c, end - 1)
  }

  /** `s.startsWith(p)`. */
  predicate StartsWith(s: string, p: string) {
    |p| <= |s| && s[..|p|] == p
  }

  /** `s.trim()` drops every leading and trailing character whose code is at most a space. */
  predicate IsTrimmed(c: char) {
    c <= ' '
  }

  /** The number of trimmed characters at the start of `s[from..]`. */
  function LeadingTrimmed(s: string, from: int): (n: int)
    requires 0 <= from <= |s|
    ensures from <= n <= |s|
    ensures n == |s| || !IsTrimmed(s[n])
    ensures forall k :: from <= k < n ==> IsTrimmed(s[k])
    decreases |s| - from
  {
    if from == |s| || !IsTrimmed(s[from]) then from else LeadingTrimmed(s, from + 1)
  }

  /** The end of `s[..end]` once its trailing trimmed characters are dropped. */
  function TrailingKept(s: string, end: int): (n: int)
    requires 0 <= end <= |s|
    ensures 0 <= n <= end
    ensures n == 0 || !IsTrimmed(s[n - 1])
    ensures forall k :: n <= k < end ==> IsTrimmed(s[k])
  {
    if end == 0 || !IsTrimmed(s[end - 1]) then end else TrailingKept(s, end - 1)
  }

  /** `s.trim()`: what lies between the leading and the trailing trimmed characters. */
  function Trim(s: string): string
  {
    var i := LeadingTrimmed(s, 0);
    var j := TrailingKept(s, |s|);
    if j <= i then [] else s[i..j]
  }

  /** The positions of every '.' in `s`, from left to right. */
  function Dots(s: string): seq<int> {
    DotsBefore(s, |s|)
  }

  /** The positions of every '.' before `end`, from left to right. */
  function DotsBefore(s: string, end: int): seq<int>
    requires 0 <= end <= |s|
  {
    if end == 0 then []
    else DotsBefore(s, end - 1) + (if s[end - 1] == '.' then [end - 1] else [])
  }

  /** Every entry of `DotsBefore(s, end)` is the position of a dot before `end`. */
  lemma {:induction false} DotsBeforeAreDots(s: string, end: int)
    requires 0 <= end <= |s|
    ensures forall j :: 0 <= j < |DotsBefore(s, end)| ==>
              0 <= DotsBefore(s, end)[j] < end && s[DotsBefore(s, end)[j]] == '.'
  {
    if end > 0 {
      DotsBeforeAreDots(s, end - 1);
      var t := DotsBefore(s, end - 1);
      var d := DotsBefore(s, end);
      assert forall j :: 0 <= j < |t| ==> d[j] == t[j];
    }
  }

  /** The entries of `DotsBefore(s, end)` increase strictly. */
  lemma {:induction false} DotsBeforeIncrease(s: string, end: int)
    requires 0 <= end <= |s|
    ensures forall j, k :: 0 <= j < k < |DotsBefore(s, end)| ==> DotsBefore(s, end)[j] < DotsBefore(s, end)[k]
  {
    if end > 0 {
      DotsBeforeIncrease(s, end - 1);
      DotsBeforeAreDots(s, end - 1);
      var t := DotsBefore(s, end - 1);
      var d := DotsBefore(s, end);
      assert forall j :: 0 <= j < |t| ==> d[j] == t[j];
    }
  }

  /** Every dot before `end` is listed in `DotsBefore(s, end)`. */
  lemma {:induction false} DotsBeforeComplete(s: string, end: int)
    requires 0 <= end <= |s|
    ensures forall p :: 0 <= p < end && s[p] == '.' ==> p in DotsBefore(s, end)
  {
    if end > 0 {
      DotsBeforeComplete(s, end - 1);
      var t := DotsBefore(s, end - 1);
      var d := DotsBefore(s, end);
      assert d[..|t|] == t;
      forall p | 0 <= p < end && s[p] == '.' ensures p in d {
        if p < end - 1 {
          var j :| 0 <= j < |t| && t[j] == p;
          assert d[j] == p;
        } else {
          assert d[|d| - 1] == p;
        }
      }
    }
  }

  /** `Dots(s)` lists exactly the positions of the dots of `s`, in increasing order. */
  lemma DotsSpec(s: string)
    ensures forall j :: 0 <= j < |Dots(s)| ==> 0 <= Dots(s)[j] < |s| && s[Dots(s)[j]] == '.'
    ensures forall j, k :: 0 <= j < k < |Dots(s)| ==> Dots(s)[j] < Dots(s)[k]
    ensures forall p :: 0 <= p < |s| && s[p] == '.' ==> p in Dots(s)
  {
    DotsBeforeAreDots(s, |s|);
    DotsBeforeIncrease(s, |s|);
    DotsBeforeComplete(s, |s|);
  }

  /** Position `k` begins a token of `new StringTokenizer(s, ".")`. */
  predicate StartsToken(s: string, k: int)
    requires 0 <= k < |s|
  {
    s[k] != '.' && (k == 0 || s[k - 1] == '.')
  }

  /** `new StringTokenizer(s, ".").countTokens()`: the number of maximal runs of
      characters other than '.'; empty runs are skipped. */
  function CountTokens(s: string): nat {
    TokensBefore(s, |s|)
  }

  /** The number of tokens that begin before `end`. */
  function TokensBefore(s: string, end: int): nat
    requires 0 <= end <= |s|
  {
    if end == 0 then 0
    else TokensBefore(s, end - 1) + (if StartsToken(s, end - 1) then 1 else 0)
  }

  /** A dotted name whose segments are all non-empty: no leading, trailing or doubled dot. */
  predicate WellFormed(s: string) {
    && |s| > 0
    && s[0] != '.'
    && s[|s| - 1] != '.'
    && forall k :: 0 <= k < |s| - 1 && s[k] == '.' ==> s[k + 1] != '.'
  }

  /** Before any `end`, there are never more tokens than dots plus one, and
      no more than dots when the character before `end` is a dot. */
  lemma {:induction false} TokensBeforeBound(s: string, end: int)
    requires 0 <= end <= |s|
    ensures TokensBefore(s, end) <= |DotsBefore(s, end)| + (if end > 0 && s[end - 1] != '.' then 1 else 0)
  {
    if end > 0 {
      TokensBeforeBound(s, end - 1);
    }
  }

  /** There are never more tokens than dots plus one; a name that ends in a dot
      has at most as many tokens as dots. */
  lemma TokensBound(s: string)
    ensures CountTokens(s) <= |Dots(s)| + (if |s| > 0 && s[|s| - 1] != '.' then 1 else 0)
  {
    TokensBeforeBound(s, |s|);
  }

  /** For a name with no leading and no doubled dot, every dot closes exactly one token. */
  lemma {:induction false} TokensOfSegmentedName(s: string, end: int)
    requires 0 < end <= |s| && s[0] != '.'
    requires forall k :: 0 <= k < |s| - 1 && s[k] == '.' ==> s[k + 1] != '.'
    ensures TokensBefore(s, end) == |DotsBefore(s, end)| + (if s[end - 1] != '.' then 1 else 0)
  {
    if end > 1 {
      TokensOfSegmentedName(s, end - 1);
    }
  }

  /** A well-formed name with d dots has exactly d + 1 tokens. */
  lemma TokensOfWellFormed(s: string)
    requires WellFormed(s)
    ensures CountTokens(s) == |Dots(s)| + 1
  {
    TokensOfSegmentedName(s, |s|);
  }

  /** Scanning for the next '.' just after one dot finds the following dot. */
  lemma NextDot(s: string, k: int)
    requires -1 <= k < |Dots(s)| - 1
    ensures IndexOf(s, '.', (if k < 0 then -1 else Dots(s)[k]) + 1) == Dots(s)[k + 1]
  {
    DotsSpec(s);
    var d := Dots(s);
    var from := (if k < 0 then -1 else d[k]) + 1;
    var r := IndexOf(s, '.', from);
    assert from <= d[k + 1] by {
      if k >= 0 {
        assert d[k] < d[k + 1];
      }
    }
    assert r != -1;
    assert r in d;
    var j :| 0 <= j < |d| && d[j] == r;
  }

  /** `String.join(".", segs)`. */
  function Join(segs: seq<string>): string
    requires |segs| >= 1
  {
    if |segs| == 1 then segs[0] else Join(segs[..|segs| - 1]) + "." + segs[|segs| - 1]
  }
}
