/**
 * The java.lang.String operations the tool window uses, stated on Dafny strings:
 * indexOf answers -1 when the needle is absent, and substring aborts with
 * StringIndexOutOfBoundsException, which is modelled as the OutOfBounds result.
 */
module JavaStrings {

  /** A Java reference that may be null. */
  datatype Option<+T> = None | Some(value: T)

  /** The outcome of a computation that Java may abort with StringIndexOutOfBoundsException. */
  datatype Result<+T> = Ok(value: T) | OutOfBounds

  /** `pat` occurs in `s` starting at index `k`. */
  predicate OccursAt(s: string, pat: string, k: int) {
    0 <= k && k + |pat| <= |s| && s[k..k + |pat|] == pat
  }

  /** The first occurrence of `pat` in `s` at or after `from`, or -1. */
  function IndexOfFrom(s: string, pat: string, from: nat): (r: int)
    ensures r == -1 || (from <= r && OccursAt(s, pat, r))
    ensures forall j :: from <= j && (r == -1 || j < r) ==> !OccursAt(s, pat, j)
    decreases |s| - from
  {
    if from + |pat| > |s| then -1
    else if s[from..from + |pat|] == pat then from
    else IndexOfFrom(s, pat, from + 1)
  }

  /** s.indexOf(pat) */
  function IndexOf(s: string, pat: string): (r: int)
    ensures r == -1 <==> forall j :: !OccursAt(s, pat, j)
    ensures r != -1 ==> OccursAt(s, pat, r) && forall j :: 0 <= j < r ==> !OccursAt(s, pat, j)
  {
    IndexOfFrom(s, pat, 0)
  }

  /** For a one-character needle, indexOf is the position of the first occurrence of that character. */
  lemma IndexOfChar(s: string, c: char)
    ensures var r := IndexOf(s, [c]);
      && (r == -1 <==> c !in s)
      && (r != -1 ==> 0 <= r < |s| && s[r] == c && c !in s[..r])
  {
    forall j | 0 <= j < |s|
      ensures OccursAt(s, [c], j) <==> s[j] == c
    {
      assert s[j..j + 1] == [s[j]];
    }
    var r := IndexOf(s, [c]);
    if c in s {
      var j :| 0 <= j < |s| && s[j] == c;
      assert OccursAt(s, [c], j);
    }
    if r != -1 {
      forall k | 0 <= k < r
        ensures s[..r][k] != c
      {
        assert !OccursAt(s, [c], k);
      }
    }
  }

  /** s.substring(b, e) */
  function Substring(s: string, b: int, e: int): (r: Result<string>)
    ensures r.Ok? <==> 0 <= b <= e <= |s|
    ensures r.Ok? ==> |r.value| == e - b && forall k :: 0 <= k < e - b ==> r.value[k] == s[b + k]
  {
    if 0 <= b <= e <= |s| then Ok(s[b..e]) else OutOfBounds
  }

  /** s.substring(b) */
  function SubstringFrom(s: string, b: int): (r: Result<string>)
    ensures r.Ok? <==> 0 <= b <= |s|
    ensures r.Ok? ==> s == s[..b] + r.value
  {
    Substring(s, b, |s|)
  }

  /** s.startsWith(prefix) */
  predicate StartsWith(s: string, prefix: string)
    ensures StartsWith(s, prefix) <==> |prefix| <= |s| && forall k :: 0 <= k < |prefix| ==> s[k] == prefix[k]
  {
    prefix <= s
  }

  /** s.endsWith(suffix) */
  predicate EndsWith(s: string, suffix: string)
    ensures EndsWith(s, suffix) <==> |suffix| <= |s| && forall k :: 0 <= k < |suffix| ==> s[|s| - |suffix| + k] == suffix[k]
  {
    |suffix| <= |s| && s[|s| - |suffix|..] == suffix
  }

  /** The number of occurrences of `c` in `s`. */
  function Count(s: string, c: char): nat {
    if s == [] then 0 else (if s[0] == c then 1 else 0) + Count(s[1..], c)
  }

  /** s.replace(target, replacement) for a one-character target: every occurrence is replaced. */
  function Replace(s: string, target: char, replacement: string): (r: string)
    ensures |r| + Count(s, target) == |s| + Count(s, target) * |replacement|
    ensures target !in replacement ==> target !in r
  {
    if s == [] then []
    else (if s[0] == target then replacement else [s[0]]) + Replace(s[1..], target, replacement)
  }

  /** Replacing works piece by piece. */
  lemma {:induction false} ReplaceConcat(a: string, b: string, target: char, replacement: string)
    ensures Replace(a + b, target, replacement) == Replace(a, target, replacement) + Replace(b, target, replacement)
  {
    if a == [] {
      assert a + b == b;
    } else {
      assert (a + b)[0] == a[0];
      assert (a + b)[1..] == a[1..] + b;
      ReplaceConcat(a[1..], b, target, replacement);
    }
  }
}
