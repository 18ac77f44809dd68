/**
 * The two string helpers at the head of the Streamlit app: `_clean_text`, the
 * light whitespace normalisation applied to extracted text, and `_safe_str`,
 * the bounded error message shown in the results table.
 *
 * The two regular-expression substitutions of `_clean_text` are written out
 * as recursive functions over the string: a run of tabs, carriage returns and
 * spaces becomes one space, and a run of three or more line feeds becomes two.
 */
module AppStrings {
  import opened Text

  /** The class `[\t\r ]` of the first substitution. */
  predicate IsBlankRunChar(c: char) {
    c == '\t' || c == '\r' || c == ' '
  }

  predicate IsLineFeed(c: char) {
    c == '\n'
  }

  /** No two adjacent spaces. */
  predicate NoDoubleSpace(s: string) {
    forall i :: 0 <= i < |s| - 1 ==> !(s[i] == ' ' && s[i + 1] == ' ')
  }

  /** No three consecutive line feeds. */
  predicate NoTripleLineFeed(s: string) {
    forall i :: 0 <= i < |s| - 2 ==> !(s[i] == '\n' && s[i + 1] == '\n' && s[i + 2] == '\n')
  }

  /** Neither NUL, tab nor carriage return occurs. */
  predicate NoControlChars(s: string) {
    forall i :: 0 <= i < |s| ==> s[i] != '\0' && s[i] != '\t' && s[i] != '\r'
  }

  /** What `_clean_text` promises of its output, apart from the stripped ends. */
  predicate Normalised(s: string) {
    NoControlChars(s) && NoDoubleSpace(s) && NoTripleLineFeed(s)
  }

  /** `text.replace("\x00", " ")`. */
  function ReplaceNul(s: string): (r: string)
    ensures |r| == |s|
    ensures forall i :: 0 <= i < |s| ==> r[i] != '\0'
    ensures forall i :: 0 <= i < |s| && s[i] != '\0' ==> r[i] == s[i]
    ensures forall i :: 0 <= i < |s| && s[i] == '\0' ==> r[i] == ' '
  {
    seq(|s|, i requires 0 <= i < |s| => if s[i] == '\0' then ' ' else s[i])
  }

  /** `re.sub(r"[\t\r ]+", " ", text)`. */
  function CollapseBlankRuns(s: string): (r: string)
    ensures forall i :: 0 <= i < |r| ==> r[i] != '\t' && r[i] != '\r'
    ensures forall i :: 0 <= i < |r| ==> r[i] == ' ' || r[i] in s
    ensures NoDoubleSpace(r)
    ensures s != [] ==> r != [] && (r[0] == ' ' <==> IsBlankRunChar(s[0]))
    decreases |s|
  {
    if s == [] then []
    else if IsBlankRunChar(s[0]) then
      var n := LeadingCount(s, IsBlankRunChar);
      var rest := CollapseBlankRuns(s[n..]);
      assert forall i :: 0 <= i < |rest| ==> rest[i] == ' ' || rest[i] in s by {
        forall i | 0 <= i < |rest| && rest[i] != ' ' ensures rest[i] in s {
          var j :| 0 <= j < |s[n..]| && s[n..][j] == rest[i];
          assert s[n + j] == rest[i];
        }
      }
      [' '] + rest
    else
      var rest := CollapseBlankRuns(s[1..]);
      assert forall i :: 0 <= i < |rest| ==> rest[i] == ' ' || rest[i] in s by {
        forall i | 0 <= i < |rest| && rest[i] != ' ' ensures rest[i] in s {
          var j :| 0 <= j < |s[1..]| && s[1..][j] == rest[i];
          assert s[1 + j] == rest[i];
        }
      }
      [s[0]] + rest
  }

  /** `re.sub(r"\n{3,}", "\n\n", text)`. */
  function CollapseLineFeedRuns(s: string): (r: string)
    ensures s != [] ==> r != [] && r[0] == s[0]
    decreases |s|
  {
    if s == [] then []
    else if s[0] == '\n' then
      var n := LeadingCount(s, IsLineFeed);
      (if n >= 3 then "\n\n" else s[..n]) + CollapseLineFeedRuns(s[n..])
    else [s[0]] + CollapseLineFeedRuns(s[1..])
  }

  /**
   * One step of the substitution: the leading run of line feeds (at most two
   * kept) or the first other character, then the rest from index `n`.
   */
  lemma LineFeedStep(s: string) returns (run: string, n: nat)
    requires s != []
    ensures 1 <= n <= |s| && |run| <= 2
    ensures CollapseLineFeedRuns(s) == run + CollapseLineFeedRuns(s[n..])
    ensures s[0] == '\n' ==> ((forall c :: c in run ==> c == '\n') && (forall i :: 0 <= i < n ==> s[i] == '\n')
                              && (n < |s| ==> s[n] != '\n'))
    ensures s[0] != '\n' ==> run == [s[0]] && n == 1
    ensures n < 3 ==> run == s[..n]
  {
    if s[0] == '\n' {
      n := LeadingCount(s, IsLineFeed);
      run := if n >= 3 then "\n\n" else s[..n];
    } else {
      n := 1;
      run := [s[0]];
    }
  }

  /** A suffix of a string without three consecutive line feeds has none either. */
  lemma NoTripleLineFeedSuffix(s: string, n: nat)
    requires n <= |s| && NoTripleLineFeed(s)
    ensures NoTripleLineFeed(s[n..])
  {
    var t := s[n..];
    assert forall i :: 0 <= i < |t| ==> t[i] == s[n + i];
  }

  /** A suffix of a string without double spaces has none either. */
  lemma NoDoubleSpaceSuffix(s: string, n: nat)
    requires n <= |s| && NoDoubleSpace(s)
    ensures NoDoubleSpace(s[n..])
  {
    var t := s[n..];
    assert forall i :: 0 <= i < |t| ==> t[i] == s[n + i];
  }

  /** Every character of the result is a line feed or comes from the input. */
  lemma {:induction false} CollapseLineFeedRunsChars(s: string)
    ensures forall c :: c in CollapseLineFeedRuns(s) ==> c == '\n' || c in s
    decreases |s|
  {
    if s != [] {
      var run, n := LineFeedStep(s);
      CollapseLineFeedRunsChars(s[n..]);
      assert forall c :: c in s[n..] ==> c in s;
      assert forall c :: c in run ==> c == '\n' || c in s;
    }
  }

  lemma NoTripleAfterShortRun(run: string, rest: string)
    requires |run| <= 2 && NoTripleLineFeed(rest) && (rest == [] || rest[0] != '\n')
    ensures NoTripleLineFeed(run + rest)
  {
    var r := run + rest;
    forall i | 0 <= i < |r| - 2 ensures !(r[i] == '\n' && r[i + 1] == '\n' && r[i + 2] == '\n') {
      if i >= |run| {
        assert r[i] == rest[i - |run|] && r[i + 1] == rest[i - |run| + 1] && r[i + 2] == rest[i - |run| + 2];
      } else {
        assert r[|run|] == rest[0];
      }
    }
  }

  lemma NoTripleAfterChar(c: char, rest: string)
    requires c != '\n' && NoTripleLineFeed(rest)
    ensures NoTripleLineFeed([c] + rest)
  {
    var r := [c] + rest;
    assert r[0] == c;
    forall i | 1 <= i < |r| - 2 ensures !(r[i] == '\n' && r[i + 1] == '\n' && r[i + 2] == '\n') {
      assert r[i] == rest[i - 1] && r[i + 1] == rest[i] && r[i + 2] == rest[i + 1];
    }
  }

  /** The result never holds three consecutive line feeds. */
  lemma {:induction false} CollapseLineFeedRunsNoTriple(s: string)
    ensures NoTripleLineFeed(CollapseLineFeedRuns(s))
    decreases |s|
  {
    if s != [] {
      var run, n := LineFeedStep(s);
      var rest := CollapseLineFeedRuns(s[n..]);
      CollapseLineFeedRunsNoTriple(s[n..]);
      if s[0] == '\n' {
        NoTripleAfterShortRun(run, rest);
      } else {
        NoTripleAfterChar(s[0], rest);
      }
    }
  }

  lemma NoDoubleSpaceAfterRun(run: string, rest: string)
    requires (forall c :: c in run ==> c != ' ') && NoDoubleSpace(rest)
    ensures NoDoubleSpace(run + rest)
  {
    var r := run + rest;
    forall i | 0 <= i < |r| - 1 ensures !(r[i] == ' ' && r[i + 1] == ' ') {
      if i >= |run| {
        assert r[i] == rest[i - |run|] && r[i + 1] == rest[i - |run| + 1];
      } else {
        assert r[i] == run[i] && run[i] in run;
      }
    }
  }

  lemma NoDoubleSpaceAfterChar(c: char, rest: string)
    requires NoDoubleSpace(rest) && (c == ' ' ==> rest == [] || rest[0] != ' ')
    ensures NoDoubleSpace([c] + rest)
  {
    var r := [c] + rest;
    assert r[0] == c;
    forall i | 1 <= i < |r| - 1 ensures !(r[i] == ' ' && r[i + 1] == ' ') {
      assert r[i] == rest[i - 1] && r[i + 1] == rest[i];
    }
  }

  /** Collapsing line feeds creates no double space. */
  lemma {:induction false} CollapseLineFeedRunsKeepsNoDoubleSpace(s: string)
    requires NoDoubleSpace(s)
    ensures NoDoubleSpace(CollapseLineFeedRuns(s))
    decreases |s|
  {
    if s != [] {
      var run, n := LineFeedStep(s);
      var rest := CollapseLineFeedRuns(s[n..]);
      NoDoubleSpaceSuffix(s, n);
      CollapseLineFeedRunsKeepsNoDoubleSpace(s[n..]);
      if s[0] == '\n' {
        NoDoubleSpaceAfterRun(run, rest);
      } else {
        if |s| > 1 {
          assert rest[0] == s[1];
          assert !(s[0] == ' ' && s[1] == ' ');
        }
        NoDoubleSpaceAfterChar(s[0], rest);
      }
    }
  }

  /** Every character other than a tab, carriage return or space is kept, in order. */
  lemma {:induction false} CollapseBlankRunsKeepsOthers(s: string)
    ensures Without(CollapseBlankRuns(s), IsBlankRunChar) == Without(s, IsBlankRunChar)
    decreases |s|
  {
    if s != [] {
      var r := CollapseBlankRuns(s);
      if IsBlankRunChar(s[0]) {
        var n := LeadingCount(s, IsBlankRunChar);
        CollapseBlankRunsKeepsOthers(s[n..]);
        DropRun(s, n, [' '], CollapseBlankRuns(s[n..]), IsBlankRunChar);
      } else {
        CollapseBlankRunsKeepsOthers(s[1..]);
        assert r[1..] == CollapseBlankRuns(s[1..]);
      }
    }
  }

  /**
   * Replacing a leading run of `s` by another run, both made of characters
   * satisfying `p`, leaves the characters outside `p` as they were.
   */
  lemma DropRun(s: string, n: nat, run: string, rest: string, p: char -> bool)
    requires n <= |s| && forall i :: 0 <= i < n ==> p(s[i])
    requires forall i :: 0 <= i < |run| ==> p(run[i])
    requires Without(rest, p) == Without(s[n..], p)
    ensures Without(run + rest, p) == Without(s, p)
  {
    WithoutAppend(run, rest, p);
    WithoutAll(run, p);
    assert s == s[..n] + s[n..];
    WithoutAppend(s[..n], s[n..], p);
    WithoutAll(s[..n], p);
  }

  /** A text that starts with a blank run: one space, then the rest after the run. */
  lemma BlankRunFirst(run: string, y: string)
    requires run != [] && forall i :: 0 <= i < |run| ==> IsBlankRunChar(run[i])
    requires y == [] || !IsBlankRunChar(y[0])
    ensures CollapseBlankRuns(run + y) == " " + CollapseBlankRuns(y)
  {
    LeadingCountOfRun(run, y, IsBlankRunChar);
    assert (run + y)[|run|..] == y;
  }

  /** A leading blank run that ends inside `x` is handled the same whatever follows `x`. */
  lemma BlankRunInside(x: string, t: string) returns (m: nat)
    requires x != [] && IsBlankRunChar(x[0]) && !IsBlankRunChar(x[|x| - 1])
    ensures 0 < m < |x| && !IsBlankRunChar(x[m..][|x[m..]| - 1])
    ensures CollapseBlankRuns(x) == " " + CollapseBlankRuns(x[m..])
    ensures CollapseBlankRuns(x + t) == " " + CollapseBlankRuns(x[m..] + t)
  {
    m := LeadingCount(x, IsBlankRunChar);
    assert m < |x|;
    LeadingCountExtends(x, t, IsBlankRunChar);
    assert (x + t)[m..] == x[m..] + t;
  }

  /** A leading character that is not blank is kept whatever follows `x`. */
  lemma OtherFirst(x: string, t: string)
    requires x != [] && !IsBlankRunChar(x[0])
    ensures CollapseBlankRuns(x + t) == [x[0]] + CollapseBlankRuns(x[1..] + t)
  {
    assert (x + t)[1..] == x[1..] + t;
  }

  /** If `whole` is `head` then `rest`, and `longer` is `head` then `rest` and `tail`, then `longer` is `whole` then `tail`. */
  lemma HeadConcat(head: string, rest: string, restTail: string, tail: string, whole: string, longer: string)
    requires whole == head + rest && longer == head + restTail && restTail == rest + tail
    ensures longer == whole + tail
  {
  }

  lemma Regroup(a: string, b: string, c: string, bc: string, whole: string)
    requires bc == b + c && whole == a + bc
    ensures whole == a + b + c
  {
  }

  /** Text that ends in a character other than a blank is collapsed on its own, apart from what follows. */
  lemma {:induction false} CollapseBlankRunsAppend(x: string, t: string)
    requires x == [] || !IsBlankRunChar(x[|x| - 1])
    ensures CollapseBlankRuns(x + t) == CollapseBlankRuns(x) + CollapseBlankRuns(t)
    decreases |x|
  {
    if x == [] {
      assert x + t == t;
    } else if IsBlankRunChar(x[0]) {
      var m := BlankRunInside(x, t);
      CollapseBlankRunsAppend(x[m..], t);
      HeadConcat(" ", CollapseBlankRuns(x[m..]), CollapseBlankRuns(x[m..] + t), CollapseBlankRuns(t),
                 CollapseBlankRuns(x), CollapseBlankRuns(x + t));
    } else {
      OtherFirst(x, t);
      assert x[1..] == [] || x[1..][|x[1..]| - 1] == x[|x| - 1];
      CollapseBlankRunsAppend(x[1..], t);
      HeadConcat([x[0]], CollapseBlankRuns(x[1..]), CollapseBlankRuns(x[1..] + t), CollapseBlankRuns(t),
                 CollapseBlankRuns(x), CollapseBlankRuns(x + t));
    }
  }

  /**
   * A run of tabs, carriage returns and spaces between two other characters
   * (or an end of the text) becomes exactly one space; the text on either side
   * is processed on its own.
   */
  lemma CollapseBlankRunsSplit(x: string, run: string, y: string)
    requires run != [] && forall i :: 0 <= i < |run| ==> IsBlankRunChar(run[i])
    requires x == [] || !IsBlankRunChar(x[|x| - 1])
    requires y == [] || !IsBlankRunChar(y[0])
    ensures CollapseBlankRuns(x + run + y) == CollapseBlankRuns(x) + " " + CollapseBlankRuns(y)
  {
    var rest := run + y;
    assert x + run + y == x + rest;
    CollapseBlankRunsAppend(x, rest);
    BlankRunFirst(run, y);
    Regroup(CollapseBlankRuns(x), " ", CollapseBlankRuns(y), CollapseBlankRuns(rest), CollapseBlankRuns(x + rest));
  }

  /** Every character other than a line feed is kept, in order. */
  lemma {:induction false} CollapseLineFeedRunsKeepsOthers(s: string)
    ensures Without(CollapseLineFeedRuns(s), IsLineFeed) == Without(s, IsLineFeed)
    decreases |s|
  {
    if s != [] {
      var run, n := LineFeedStep(s);
      CollapseLineFeedRunsKeepsOthers(s[n..]);
      if s[0] == '\n' {
        assert forall i :: 0 <= i < |run| ==> run[i] in run;
        DropRun(s, n, run, CollapseLineFeedRuns(s[n..]), IsLineFeed);
      } else {
        assert CollapseLineFeedRuns(s)[1..] == CollapseLineFeedRuns(s[1..]);
      }
    }
  }

  /** What a run of line feeds becomes: two line feeds for three or more, otherwise the run itself. */
  function LineFeedRunImage(run: string): string {
    if |run| >= 3 then "\n\n" else run
  }

  /** A text that starts with a run of line feeds: that run's image, then the rest after the run. */
  lemma LineFeedRunFirst(run: string, y: string)
    requires run != [] && forall i :: 0 <= i < |run| ==> run[i] == '\n'
    requires y == [] || y[0] != '\n'
    ensures CollapseLineFeedRuns(run + y) == LineFeedRunImage(run) + CollapseLineFeedRuns(y)
  {
    LeadingCountOfRun(run, y, IsLineFeed);
    assert (run + y)[..|run|] == run;
    assert (run + y)[|run|..] == y;
  }

  /** A leading line-feed run that ends inside `x` is handled the same whatever follows `x`. */
  lemma LineFeedRunInside(x: string, t: string) returns (m: nat)
    requires x != [] && x[0] == '\n' && x[|x| - 1] != '\n'
    ensures 0 < m < |x| && x[m..][|x[m..]| - 1] != '\n'
    ensures CollapseLineFeedRuns(x) == LineFeedRunImage(x[..m]) + CollapseLineFeedRuns(x[m..])
    ensures CollapseLineFeedRuns(x + t) == LineFeedRunImage(x[..m]) + CollapseLineFeedRuns(x[m..] + t)
  {
    m := LeadingCount(x, IsLineFeed);
    assert m < |x|;
    LeadingCountExtends(x, t, IsLineFeed);
    assert (x + t)[..m] == x[..m];
    assert (x + t)[m..] == x[m..] + t;
  }

  /** A leading character that is not a line feed is kept whatever follows `x`. */
  lemma NonLineFeedFirst(x: string, t: string)
    requires x != [] && x[0] != '\n'
    ensures CollapseLineFeedRuns(x + t) == [x[0]] + CollapseLineFeedRuns(x[1..] + t)
  {
    assert (x + t)[1..] == x[1..] + t;
  }

  /** Text that ends in a character other than a line feed is collapsed on its own, apart from what follows. */
  lemma {:induction false} CollapseLineFeedRunsAppend(x: string, t: string)
    requires x == [] || x[|x| - 1] != '\n'
    ensures CollapseLineFeedRuns(x + t) == CollapseLineFeedRuns(x) + CollapseLineFeedRuns(t)
    decreases |x|
  {
    if x == [] {
      assert x + t == t;
    } else if x[0] == '\n' {
      var m := LineFeedRunInside(x, t);
      CollapseLineFeedRunsAppend(x[m..], t);
      HeadConcat(LineFeedRunImage(x[..m]), CollapseLineFeedRuns(x[m..]), CollapseLineFeedRuns(x[m..] + t),
                 CollapseLineFeedRuns(t), CollapseLineFeedRuns(x), CollapseLineFeedRuns(x + t));
    } else {
      NonLineFeedFirst(x, t);
      assert x[1..] == [] || x[1..][|x[1..]| - 1] == x[|x| - 1];
      CollapseLineFeedRunsAppend(x[1..], t);
      HeadConcat([x[0]], CollapseLineFeedRuns(x[1..]), CollapseLineFeedRuns(x[1..] + t),
                 CollapseLineFeedRuns(t), CollapseLineFeedRuns(x), CollapseLineFeedRuns(x + t));
    }
  }

  /**
   * A run of line feeds between two other characters (or an end of the text)
   * becomes exactly two line feeds when it has three or more, and is kept
   * otherwise; the text on either side is processed on its own.
   */
  lemma CollapseLineFeedRunsSplit(x: string, run: string, y: string)
    requires run != [] && forall i :: 0 <= i < |run| ==> run[i] == '\n'
    requires x == [] || x[|x| - 1] != '\n'
    requires y == [] || y[0] != '\n'
    ensures CollapseLineFeedRuns(x + run + y)
            == CollapseLineFeedRuns(x) + (if |run| >= 3 then "\n\n" else run) + CollapseLineFeedRuns(y)
  {
    var rest := run + y;
    assert x + run + y == x + rest;
    CollapseLineFeedRunsAppend(x, rest);
    LineFeedRunFirst(run, y);
    Regroup(CollapseLineFeedRuns(x), LineFeedRunImage(run), CollapseLineFeedRuns(y),
            CollapseLineFeedRuns(rest), CollapseLineFeedRuns(x + rest));
  }

  /**
   * `_clean_text`: NUL to space, runs of blanks to one space, runs of three or
   * more line feeds to two, then `strip()` with the whitespace class `isSpace`.
   */
  function CleanText(text: string, isSpace: char -> bool): string {
    Trim(CollapseLineFeedRuns(CollapseBlankRuns(ReplaceNul(text))), isSpace)
  }

  /** A slice of a normalised string is normalised. */
  lemma SliceNormalised(s: string, lo: nat, hi: nat)
    requires lo <= hi <= |s| && Normalised(s)
    ensures Normalised(s[lo..hi])
  {
    var t := s[lo..hi];
    assert forall i :: 0 <= i < |t| ==> t[i] == s[lo + i];
  }

  /**
   * The cleaned text holds no NUL, tab or carriage return, no two adjacent
   * spaces, no three consecutive line feeds, and no leading or trailing
   * whitespace.
   */
  lemma CleanTextIsNormalised(text: string, isSpace: char -> bool)
    ensures Normalised(CleanText(text, isSpace))
    ensures var r := CleanText(text, isSpace); r == [] || (!isSpace(r[0]) && !isSpace(r[|r| - 1]))
  {
    var a := ReplaceNul(text);
    var b := CollapseBlankRuns(a);
    var c := CollapseLineFeedRuns(b);
    CollapseLineFeedRunsChars(b);
    CollapseLineFeedRunsNoTriple(b);
    CollapseLineFeedRunsKeepsNoDoubleSpace(b);
    assert NoControlChars(c) by {
      forall i | 0 <= i < |c| ensures c[i] != '\0' && c[i] != '\t' && c[i] != '\r' {
        if c[i] != '\n' {
          assert c[i] in c;
          var j :| 0 <= j < |b| && b[j] == c[i];
          if b[j] != ' ' {
            var k :| 0 <= k < |a| && a[k] == b[j];
          }
        }
      }
    }
    var lo, hi := TrimIsSlice(c, isSpace);
    SliceNormalised(c, lo, hi);
  }

  /** On a string without NUL, the first substitution changes nothing. */
  lemma ReplaceNulIdentity(s: string)
    requires NoControlChars(s)
    ensures ReplaceNul(s) == s
  {
  }

  /** On a string without tabs, carriage returns or double spaces, collapsing blank runs changes nothing. */
  lemma {:induction false} CollapseBlankRunsIdentity(s: string)
    requires NoControlChars(s) && NoDoubleSpace(s)
    ensures CollapseBlankRuns(s) == s
    decreases |s|
  {
    if s != [] {
      var rest := s[1..];
      assert NoControlChars(rest) && NoDoubleSpace(rest) by {
        assert forall i :: 0 <= i < |rest| ==> rest[i] == s[i + 1];
      }
      if IsBlankRunChar(s[0]) {
        assert LeadingCount(s, IsBlankRunChar) == 1 by {
          assert |s| > 1 ==> !IsBlankRunChar(s[1]);
        }
      }
      CollapseBlankRunsIdentity(rest);
    }
  }

  /** On a string without three consecutive line feeds, collapsing line-feed runs changes nothing. */
  lemma {:induction false} CollapseLineFeedRunsIdentity(s: string)
    requires NoTripleLineFeed(s)
    ensures CollapseLineFeedRuns(s) == s
    decreases |s|
  {
    if s != [] {
      var run, n := LineFeedStep(s);
      if |s| > 2 {
        assert !(s[0] == '\n' && s[1] == '\n' && s[2] == '\n');
      }
      assert n < 3;
      NoTripleLineFeedSuffix(s, n);
      CollapseLineFeedRunsIdentity(s[n..]);
      assert s == s[..n] + s[n..];
    }
  }

  /** Cleaning is idempotent: cleaned text is left as it is. */
  lemma CleanTextIdempotent(text: string, isSpace: char -> bool)
    ensures CleanText(CleanText(text, isSpace), isSpace) == CleanText(text, isSpace)
  {
    var r := CleanText(text, isSpace);
    CleanTextIsNormalised(text, isSpace);
    ReplaceNulIdentity(r);
    CollapseBlankRunsIdentity(r);
    CollapseLineFeedRunsIdentity(r);
    TrimOfTrimmed(r, isSpace);
  }

  /** Longest error message kept by `_safe_str`. */
  const SafeStrLimit := 4000

  /** `_safe_str`: "<exception type>: <message>", cut to its first 4000 characters. */
  function SafeStr(typeName: string, message: string): (r: string)
    ensures |r| <= SafeStrLimit
    ensures var msg := typeName + ": " + message;
            StartsWith(msg, r) && (|msg| <= SafeStrLimit ==> r == msg)
            && (|msg| > SafeStrLimit ==> |r| == SafeStrLimit)
  {
    var msg := typeName + ": " + message;
    if |msg| <= SafeStrLimit then msg else msg[..SafeStrLimit]
  }
}
