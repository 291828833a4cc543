/**
 * The Python `str` operations the backend relies on, over strings as
 * sequences of code points: `strip()`, `lower()`, `startswith`,
 * `split(sep)` with a one-character separator, and `sep.join(parts)`.
 */
module PyStr {

  /** `c.isspace()`: the code points Python treats as whitespace. */
  predicate IsSpace(c: char)
  {
    var n := c as int;
    (9 <= n <= 13) || (28 <= n <= 32) || n == 0x85 || n == 0xA0 || n == 0x1680
    || (0x2000 <= n <= 0x200A) || n == 0x2028 || n == 0x2029 || n == 0x202F
    || n == 0x205F || n == 0x3000
  }

  predicate AllSpace(s: string)
  {
    forall i :: 0 <= i < |s| ==> IsSpace(s[i])
  }

  /** Neither end of `s` is whitespace: what `strip()` guarantees. */
  predicate IsStripped(s: string)
  {
    s == [] || (!IsSpace(s[0]) && !IsSpace(s[|s| - 1]))
  }

  /** Where `lstrip()` stops: the first position at or after `i` that is not
      whitespace, or `|s|`. */
  function SpaceRunEnd(s: string, i: nat): (k: nat)
    requires i <= |s|
    ensures i <= k <= |s|
    ensures forall j :: i <= j < k ==> IsSpace(s[j])
    ensures k == |s| || !IsSpace(s[k])
    decreases |s| - i
  {
    if i < |s| && IsSpace(s[i]) then SpaceRunEnd(s, i + 1) else i
  }

  /** Where `rstrip()` stops when it may not pass `lo`: the end of `s[lo..j]`
      once its trailing whitespace is dropped. */
  function SpaceRunStart(s: string, lo: nat, j: nat): (k: nat)
    requires lo <= j <= |s|
    ensures lo <= k <= j
    ensures forall i :: k <= i < j ==> IsSpace(s[i])
    ensures k == lo || !IsSpace(s[k - 1])
    decreases j
  {
    if lo < j && IsSpace(s[j - 1]) then SpaceRunStart(s, lo, j - 1) else j
  }

  /** A scan over whitespace stops at the first character that is not. */
  lemma {:induction false} SpaceRunEndAt(s: string, i: nat, k: nat)
    requires i <= k <= |s|
    requires forall j :: i <= j < k ==> IsSpace(s[j])
    requires k == |s| || !IsSpace(s[k])
    ensures SpaceRunEnd(s, i) == k
    decreases k - i
  {
    if i < k {
      SpaceRunEndAt(s, i + 1, k);
    }
  }

  lemma {:induction false} SpaceRunStartAt(s: string, lo: nat, j: nat, k: nat)
    requires lo <= k <= j <= |s|
    requires forall i :: k <= i < j ==> IsSpace(s[i])
    requires k == lo || !IsSpace(s[k - 1])
    ensures SpaceRunStart(s, lo, j) == k
    decreases j - k
  {
    if k < j {
      SpaceRunStartAt(s, lo, j - 1, k);
    }
  }

  /** How many whitespace characters `strip()` drops at the front of `s`. */
  function LeadingSpace(s: string): (k: nat)
    ensures k <= |s|
    ensures AllSpace(s[..k])
  {
    var k := SpaceRunEnd(s, 0);
    assert forall j :: 0 <= j < k ==> s[..k][j] == s[j];
    k
  }

  /** `s.strip()`: `lstrip()`, then `rstrip()` of what is left. */
  function Strip(s: string): (r: string)
    ensures |r| <= |s|
    ensures IsStripped(r)
    ensures r == [] <==> AllSpace(s)
  {
    var start := SpaceRunEnd(s, 0);
    var end := SpaceRunStart(s, start, |s|);
    assert start < end ==> s[start..end][0] == s[start] && s[start..end][end - start - 1] == s[end - 1];
    s[start..end]
  }

  /** `strip()` removes whitespace only at the ends: the result is the slice
      of `s` between a whitespace prefix and a whitespace suffix. */
  lemma StripSlice(s: string)
    ensures LeadingSpace(s) + |Strip(s)| <= |s|
    ensures s[LeadingSpace(s)..LeadingSpace(s) + |Strip(s)|] == Strip(s)
    ensures AllSpace(s[..LeadingSpace(s)])
    ensures AllSpace(s[LeadingSpace(s) + |Strip(s)|..])
  {
    var k := LeadingSpace(s);
    var n := |Strip(s)|;
    var tail := s[k + n..];
    assert forall j :: 0 <= j < |tail| ==> tail[j] == s[k + n + j];
  }

  /** `strip()` is determined by its characterisation: whatever is left
      between a whitespace prefix and a whitespace suffix, with no whitespace
      at either end of its own, is what `strip()` returns. */
  lemma {:induction false} StripUnique(a: string, m: string, b: string)
    requires AllSpace(a) && AllSpace(b) && IsStripped(m)
    ensures Strip(a + m + b) == m
  {
    var s := a + m + b;
    assert forall j :: 0 <= j < |a| ==> s[j] == a[j];
    assert forall j :: |a| + |m| <= j < |s| ==> s[j] == b[j - |a| - |m|];
    if m == [] {
      SpaceRunEndAt(s, 0, |s|);
      SpaceRunStartAt(s, |s|, |s|, |s|);
    } else {
      assert s[|a|] == m[0] && s[|a| + |m| - 1] == m[|m| - 1];
      SpaceRunEndAt(s, 0, |a|);
      SpaceRunStartAt(s, |a|, |s|, |a| + |m|);
      assert s[|a|..|a| + |m|] == m;
    }
  }

  /** Stripping twice is stripping once. */
  lemma {:induction false} StripIdempotent(s: string)
    ensures Strip(Strip(s)) == Strip(s)
  {
    var r := Strip(s);
    assert [] + r + [] == r;
    StripUnique([], r, []);
  }

  /** `c.lower()` for the ASCII capitals; every other code point is kept. */
  function LowerChar(c: char): char
  {
    if 'A' <= c <= 'Z' then (c as int + 32) as char else c
  }

  /** `s.lower()`, code point by code point. */
  function Lower(s: string): (r: string)
    ensures |r| == |s|
    ensures forall i :: 0 <= i < |s| ==> r[i] == LowerChar(s[i])
  {
    seq(|s|, i requires 0 <= i < |s| => LowerChar(s[i]))
  }

  /** Lower-casing leaves every separator where it was. */
  lemma LowerKeepsSeparator(s: string, sep: char)
    requires !('A' <= sep <= 'Z') && !('a' <= sep <= 'z')
    ensures sep in Lower(s) <==> sep in s
  {
    if sep in s {
      var i :| 0 <= i < |s| && s[i] == sep;
      assert Lower(s)[i] == sep;
    }
    if sep in Lower(s) {
      var i :| 0 <= i < |s| && Lower(s)[i] == sep;
      assert s[i] == sep;
    }
  }

  /** `s.startswith(prefix)`: `s` agrees with `prefix` character by character. */
  predicate StartsWith(s: string, prefix: string)
    ensures StartsWith(s, prefix) <==> |prefix| <= |s| && forall i :: 0 <= i < |prefix| ==> s[i] == prefix[i]
  {
    |prefix| <= |s| && s[..|prefix|] == prefix
  }

  /** `s.split(sep)`: the pieces between separators, empty ones included;
      there is always at least one piece. */
  function Split(s: string, sep: char): (parts: seq<string>)
    ensures |parts| >= 1
    ensures forall i :: 0 <= i < |parts| ==> sep !in parts[i]
  {
    if s == [] then [[]]
    else
      var rest := Split(s[1..], sep);
      if s[0] == sep then [[]] + rest
      else [[s[0]] + rest[0]] + rest[1..]
  }

  /** The total length of the pieces. */
  function Width(parts: seq<string>): nat
  {
    if parts == [] then 0 else |parts[0]| + Width(parts[1..])
  }

  /** `sep.join(parts)`. */
  function Join(sep: char, parts: seq<string>): (s: string)
  {
    if |parts| == 0 then []
    else if |parts| == 1 then parts[0]
    else parts[0] + [sep] + Join(sep, parts[1..])
  }

  /** `sep.join(parts)` adds exactly one separator between neighbouring pieces. */
  lemma {:induction false} JoinLength(sep: char, parts: seq<string>)
    requires |parts| > 0
    ensures |Join(sep, parts)| == Width(parts) + |parts| - 1
    decreases |parts|
  {
    if |parts| > 1 {
      JoinLength(sep, parts[1..]);
    }
  }

  /** Joining the pieces of a split gives back the original string. */
  lemma {:induction false} JoinSplit(s: string, sep: char)
    ensures Join(sep, Split(s, sep)) == s
    decreases |s|
  {
    if s != [] {
      var rest := Split(s[1..], sep);
      JoinSplit(s[1..], sep);
      if s[0] == sep {
        assert Join(sep, [[]] + rest) == [] + [sep] + Join(sep, rest);
      } else {
        var parts := [[s[0]] + rest[0]] + rest[1..];
        if |rest| == 1 {
          assert Join(sep, parts) == [s[0]] + rest[0];
        } else {
          assert parts[1..] == rest[1..];
          assert Join(sep, rest) == rest[0] + [sep] + Join(sep, rest[1..]);
        }
      }
    }
  }

  /** A string with no separator splits into itself alone. */
  lemma {:induction false} SplitWithoutSeparator(s: string, sep: char)
    requires sep !in s
    ensures Split(s, sep) == [s]
    decreases |s|
  {
    if s != [] {
      SplitWithoutSeparator(s[1..], sep);
      assert [s[0]] + s[1..] == s;
    }
  }

  /** Splitting distributes over a separator between two strings. */
  lemma {:induction false} SplitAround(a: string, b: string, sep: char)
    ensures Split(a + [sep] + b, sep) == Split(a, sep) + Split(b, sep)
    decreases |a|
  {
    var s := a + [sep] + b;
    if a == [] {
      assert s[1..] == b;
    } else {
      assert s[1..] == a[1..] + [sep] + b;
      SplitAround(a[1..], b, sep);
    }
  }

  /** Splitting the join of separator-free pieces gives the pieces back. */
  lemma {:induction false} SplitJoin(parts: seq<string>, sep: char)
    requires |parts| >= 1
    requires forall i :: 0 <= i < |parts| ==> sep !in parts[i]
    ensures Split(Join(sep, parts), sep) == parts
    decreases |parts|
  {
    SplitWithoutSeparator(parts[0], sep);
    if |parts| > 1 {
      SplitJoin(parts[1..], sep);
      SplitAround(parts[0], Join(sep, parts[1..]), sep);
      assert [parts[0]] + parts[1..] == parts;
    }
  }

  /** Joining with one more piece at the end adds a separator and that piece. */
  lemma {:induction false} JoinSnoc(sep: char, parts: seq<string>, last: string)
    requires |parts| >= 1
    ensures Join(sep, parts + [last]) == Join(sep, parts) + [sep] + last
    decreases |parts|
  {
    if |parts| > 1 {
      assert (parts + [last])[1..] == parts[1..] + [last];
      JoinSnoc(sep, parts[1..], last);
    }
  }
}
