/**
 * String helpers shared by both front ends: an optional value, trimming by a
 * whitespace predicate, blankness, prefixes and joining.
 *
 * Java's `String.trim()` removes every leading and trailing character whose
 * code is at most U+0020, so it gets a fixed predicate (`JavaTrimmable`).
 * Java's `isBlank()` and Python's `str.strip()` use Unicode whitespace
 * classes; those are passed in as a predicate `ws` wherever they are used.
 */
module Text {

  datatype Option<+T> = None | Some(value: T)

  /** The characters `String.trim()` removes: every code point up to the space. */
  predicate JavaTrimmable(c: char) {
    c <= ' '
  }

  /** Index of the first occurrence of `c` in `s`, or -1 (`String.indexOf`, `str.find`). */
  function IndexOf(s: string, c: char): (i: int)
    ensures -1 <= i < |s|
    ensures i >= 0 ==> s[i] == c && forall k :: 0 <= k < i ==> s[k] != c
    ensures i == -1 ==> forall k :: 0 <= k < |s| ==> s[k] != c
  {
    if s == [] then -1
    else if s[0] == c then 0
    else var i := IndexOf(s[1..], c); if i == -1 then -1 else i + 1
  }

  /** Index of the last occurrence of `c` in `s`, or -1. */
  function LastIndexOf(s: string, c: char): (i: int)
    ensures -1 <= i < |s|
    ensures i >= 0 ==> s[i] == c && forall k :: i < k < |s| ==> s[k] != c
    ensures i == -1 ==> forall k :: 0 <= k < |s| ==> s[k] != c
  {
    if s == [] then -1
    else if s[|s| - 1] == c then |s| - 1
    else LastIndexOf(s[..|s| - 1], c)
  }

  /** `s` is empty or made only of characters satisfying `ws`. */
  predicate IsBlank(s: string, ws: char -> bool) {
    forall i :: 0 <= i < |s| ==> ws(s[i])
  }

  predicate StartsWith(s: string, prefix: string) {
    |prefix| <= |s| && s[..|prefix|] == prefix
  }

  predicate EndsWith(s: string, suffix: string) {
    |suffix| <= |s| && s[|s| - |suffix|..] == suffix
  }

  /** Number of leading characters of `s` that satisfy `ws`. */
  function LeadingCount(s: string, ws: char -> bool): (n: nat)
    ensures n <= |s|
    ensures forall i :: 0 <= i < n ==> ws(s[i])
    ensures n < |s| ==> !ws(s[n])
  {
    if s == [] || !ws(s[0]) then 0 else 1 + LeadingCount(s[1..], ws)
  }

  /** Leading characters satisfying `ws`, followed by one that does not, are counted exactly. */
  lemma {:induction false} LeadingCountOfRun(a: string, b: string, ws: char -> bool)
    requires forall i :: 0 <= i < |a| ==> ws(a[i])
    requires b == [] || !ws(b[0])
    ensures LeadingCount(a + b, ws) == |a|
  {
    if a != [] {
      assert (a + b)[1..] == a[1..] + b;
      LeadingCountOfRun(a[1..], b, ws);
    }
  }

  /** A leading run that ends inside `a` is not extended by what follows `a`. */
  lemma {:induction false} LeadingCountExtends(a: string, b: string, ws: char -> bool)
    requires LeadingCount(a, ws) < |a|
    ensures LeadingCount(a + b, ws) == LeadingCount(a, ws)
  {
    if ws(a[0]) {
      assert (a + b)[1..] == a[1..] + b;
      LeadingCountExtends(a[1..], b, ws);
    }
  }

  /**
   * End of `s[lo..hi]` once its trailing characters that satisfy `ws` are
   * dropped.
   */
  function TrimEnd(s: string, lo: nat, hi: nat, ws: char -> bool): (e: nat)
    requires lo <= hi <= |s|
    ensures lo <= e <= hi
    ensures forall i :: e <= i < hi ==> ws(s[i])
    ensures lo < e ==> !ws(s[e - 1])
    decreases hi
  {
    if hi == lo || !ws(s[hi - 1]) then hi else TrimEnd(s, lo, hi - 1, ws)
  }

  /**
   * Bounds of the trimmed part of `s`: everything outside `[lo, hi)` satisfies
   * `ws`, and the part is either empty or starts and ends with a character that
   * does not.
   */
  function TrimBounds(s: string, ws: char -> bool): (b: (nat, nat))
    ensures b.0 <= b.1 <= |s|
    ensures forall i :: 0 <= i < b.0 ==> ws(s[i])
    ensures forall i :: b.1 <= i < |s| ==> ws(s[i])
    ensures b.0 < b.1 ==> !ws(s[b.0]) && !ws(s[b.1 - 1])
    ensures b.0 == b.1 ==> IsBlank(s, ws)
  {
    var lo := LeadingCount(s, ws);
    (lo, TrimEnd(s, lo, |s|, ws))
  }

  /** Removes leading and trailing characters that satisfy `ws`. */
  function Trim(s: string, ws: char -> bool): (r: string)
    ensures |r| <= |s|
    ensures r == [] || (!ws(r[0]) && !ws(r[|r| - 1]))
    ensures r == [] <==> IsBlank(s, ws)
  {
    var b := TrimBounds(s, ws);
    s[b.0..b.1]
  }

  /** Java's `String.trim()`. */
  function JavaTrim(s: string): string {
    Trim(s, JavaTrimmable)
  }

  /** Trimming removes whitespace padding around a part with no whitespace at either end, and nothing else. */
  lemma TrimPadded(pre: string, m: string, post: string, ws: char -> bool)
    requires IsBlank(pre, ws) && IsBlank(post, ws)
    requires m == [] || (!ws(m[0]) && !ws(m[|m| - 1]))
    ensures Trim(pre + m + post, ws) == m
  {
    var s := pre + m + post;
    if m == [] {
      assert IsBlank(s, ws) by {
        assert s == pre + post;
      }
    } else {
      assert s == pre + (m + post);
      LeadingCountOfRun(pre, m + post, ws);
      var e := |pre| + |m|;
      assert s[e - 1] == m[|m| - 1];
      assert forall i :: e <= i < |s| ==> s[i] == post[i - e];
      TrimEndStopsAt(s, |pre|, e, |s|, ws);
      assert s[|pre|..e] == m;
    }
  }

  /** Scanning back from `hi` over whitespace stops right after the last other character. */
  lemma {:induction false} TrimEndStopsAt(s: string, lo: nat, e: nat, hi: nat, ws: char -> bool)
    requires lo < e <= hi <= |s| && !ws(s[e - 1])
    requires forall i :: e <= i < hi ==> ws(s[i])
    ensures TrimEnd(s, lo, hi, ws) == e
    decreases hi
  {
    if hi > e {
      TrimEndStopsAt(s, lo, e, hi - 1, ws);
    }
  }

  /** Trimming a string that has no whitespace at either end changes nothing. */
  lemma TrimOfTrimmed(s: string, ws: char -> bool)
    requires s == [] || (!ws(s[0]) && !ws(s[|s| - 1]))
    ensures Trim(s, ws) == s
  {
    var b := TrimBounds(s, ws);
    if s != [] {
      assert b.0 == 0 && b.1 == |s|;
    }
  }

  /** Trimming is idempotent. */
  lemma TrimIdempotent(s: string, ws: char -> bool)
    ensures Trim(Trim(s, ws), ws) == Trim(s, ws)
  {
    TrimOfTrimmed(Trim(s, ws), ws);
  }

  /**
   * The trimmed string is the contiguous slice of the original left once the
   * leading and trailing characters satisfying `ws` are removed, and only those.
   */
  lemma TrimIsSlice(s: string, ws: char -> bool) returns (lo: nat, hi: nat)
    ensures lo <= hi <= |s| && Trim(s, ws) == s[lo..hi]
    ensures forall i :: 0 <= i < lo ==> ws(s[i])
    ensures forall i :: hi <= i < |s| ==> ws(s[i])
  {
    var b := TrimBounds(s, ws);
    lo, hi := b.0, b.1;
  }

  /**
   * Two strings built from the same frame `a`, `b`, `c` around parts of the
   * same sizes have the same parts.
   */
  lemma FramedPartsDetermined(a: string, b: string, c: string, x1: string, y1: string, x2: string, y2: string)
    requires a + x1 + b + y1 + c == a + x2 + b + y2 + c && |x1| == |x2|
    ensures x1 == x2 && y1 == y2
  {
    var p1, p2 := a + x1 + b + y1 + c, a + x2 + b + y2 + c;
    var i := |a| + |x1| + |b|;
    assert x1 == p1[|a|..|a| + |x1|];
    assert x2 == p2[|a|..|a| + |x2|];
    assert y1 == p1[i..i + |y1|];
    assert y2 == p2[i..i + |y2|];
  }

  /** The characters of `s` that do not satisfy `p`, in order. */
  function Without(s: string, p: char -> bool): string {
    if s == [] then [] else (if p(s[0]) then [] else [s[0]]) + Without(s[1..], p)
  }

  lemma {:induction false} WithoutAppend(a: string, b: string, p: char -> bool)
    ensures Without(a + b, p) == Without(a, p) + Without(b, p)
  {
    if a == [] {
      assert a + b == b;
    } else {
      assert (a + b)[1..] == a[1..] + b;
      WithoutAppend(a[1..], b, p);
    }
  }

  lemma {:induction false} WithoutAll(s: string, p: char -> bool)
    requires forall i :: 0 <= i < |s| ==> p(s[i])
    ensures Without(s, p) == []
  {
    if s != [] {
      WithoutAll(s[1..], p);
    }
  }

  /**
   * Length in UTF-16 code units, as Java's `String.length()` counts it: a
   * character above U+FFFF is a surrogate pair and counts twice.
   */
  function Utf16Length(s: string): (n: nat)
    ensures |s| <= n <= 2 * |s|
  {
    if s == [] then 0
    else (if s[0] as int > 0xFFFF then 2 else 1) + Utf16Length(s[1..])
  }

  /** One character is one code unit, or a surrogate pair above U+FFFF. */
  lemma Utf16LengthOfChar(c: char)
    ensures Utf16Length([c]) == if c as int > 0xFFFF then 2 else 1
  {
    assert [c][1..] == [];
  }

  /** The UTF-16 length of a concatenation is the sum of the parts' lengths. */
  lemma {:induction false} Utf16LengthAppend(a: string, b: string)
    ensures Utf16Length(a + b) == Utf16Length(a) + Utf16Length(b)
  {
    if a == [] {
      assert a + b == b;
    } else {
      assert (a + b)[0] == a[0] && (a + b)[1..] == a[1..] + b;
      Utf16LengthAppend(a[1..], b);
    }
  }

  /** Text in the Basic Multilingual Plane has one code unit per character. */
  lemma {:induction false} Utf16LengthOfBasic(s: string)
    requires forall c :: c in s ==> c as int <= 0xFFFF
    ensures Utf16Length(s) == |s|
  {
    if s != [] {
      assert s[0] in s;
      assert forall c :: c in s[1..] ==> c in s;
      Utf16LengthOfBasic(s[1..]);
    }
  }

  /** Text outside the Basic Multilingual Plane has two code units per character. */
  lemma {:induction false} Utf16LengthOfSupplementary(s: string)
    requires forall c :: c in s ==> c as int > 0xFFFF
    ensures Utf16Length(s) == 2 * |s|
  {
    if s != [] {
      assert s[0] in s;
      assert forall c :: c in s[1..] ==> c in s;
      Utf16LengthOfSupplementary(s[1..]);
    }
  }

  /** `parts` joined with `sep` between consecutive elements (Python's `sep.join`). */
  function Join(sep: string, parts: seq<string>): (r: string)
  {
    if parts == [] then ""
    else if |parts| == 1 then parts[0]
    else parts[0] + sep + Join(sep, parts[1..])
  }

  /** Joining one more part adds the separator and the part at the end. */
  lemma {:induction false} JoinSnoc(sep: string, parts: seq<string>, p: string)
    requires parts != []
    ensures Join(sep, parts + [p]) == Join(sep, parts) + sep + p
  {
    if |parts| == 1 {
      assert parts + [p] == [parts[0], p];
    } else {
      assert (parts + [p])[1..] == parts[1..] + [p];
      JoinSnoc(sep, parts[1..], p);
    }
  }

  /** A join of non-empty parts starts with the first part. */
  lemma JoinStartsWithFirst(sep: string, parts: seq<string>)
    requires parts != []
    ensures StartsWith(Join(sep, parts), parts[0])
  {
    if |parts| > 1 {
      var r := parts[0] + sep + Join(sep, parts[1..]);
      assert r[..|parts[0]|] == parts[0];
    }
  }

  /** A join of non-empty parts ends with the last part. */
  lemma {:induction false} JoinEndsWithLast(sep: string, parts: seq<string>)
    requires parts != []
    ensures EndsWith(Join(sep, parts), parts[|parts| - 1])
  {
    if |parts| > 1 {
      var tail := Join(sep, parts[1..]);
      var last := parts[|parts| - 1];
      JoinEndsWithLast(sep, parts[1..]);
      assert last == parts[1..][|parts[1..]| - 1];
      var r := parts[0] + sep + tail;
      assert r[|r| - |tail|..] == tail;
      assert r[|r| - |last|..] == tail[|tail| - |last|..];
    }
  }
}
