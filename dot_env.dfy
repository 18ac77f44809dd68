/**
 * The `.env` reader of the command-line bot: KEY=VALUE lines gathered into a
 * map. Reading the file is not modelled; the lines are an input (an absent file
 * gives no lines).
 */
module DotEnv {
  import opened Text

  /** What one line contributes. */
  datatype LineEffect =
    | Skip                          // blank, a comment, or no '=' after the first character
    | Entry(key: string, val: string)
    | Throws                        // `substring(1, 0)` on a value that is a lone quote

  /** The value starts and ends with the same quote character. */
  predicate Quoted(v: string) {
    (StartsWith(v, "\"") && EndsWith(v, "\"")) || (StartsWith(v, "'") && EndsWith(v, "'"))
  }

  /**
   * Removes one pair of matching surrounding quotes. A value that is a lone
   * quote character makes `substring(1, 0)` throw, given here as `None`.
   */
  function Unquote(val: string): (r: Option<string>)
    ensures r.None? <==> val == "\"" || val == "'"
    ensures r.Some? && Quoted(val) ==> val == [val[0]] + r.value + [val[0]]
    ensures r.Some? && !Quoted(val) ==> r.value == val
  {
    if Quoted(val) then
      if |val| == 1 then None else Some(val[1..|val| - 1])
    else Some(val)
  }

  /** The body of the read loop for one line. */
  function ParseLine(line: string): LineEffect
  {
    var t := JavaTrim(line);
    if t == [] || t[0] == '#' then Skip
    else
      var eq := IndexOf(t, '=');
      if eq <= 0 then Skip
      else match Unquote(JavaTrim(t[eq + 1..]))
        case None => Throws
        case Some(v) => Entry(JavaTrim(t[..eq]), v)
  }

  /**
   * Which lines are skipped: after trimming, a blank line, a comment, a line
   * that starts with '=' and a line without '='.
   */
  lemma ParseLineSkips(line: string)
    ensures var t := JavaTrim(line);
            ParseLine(line).Skip? <==> t == [] || t[0] == '#' || t[0] == '=' || '=' !in t
  {
    var t := JavaTrim(line);
    if t != [] && t[0] != '#' {
      var eq := IndexOf(t, '=');
      if '=' in t {
        var k :| 0 <= k < |t| && t[k] == '=';
        assert eq >= 0;
      }
    }
  }

  /**
   * A line `key=value`, padded with whitespace before and after the key and
   * the value, where the key holds no '=' and does not start with '#': the key
   * is stored with the value less its padding and less one pair of matching
   * surrounding quotes, and a value that is a lone quote throws.
   */
  lemma ParseLineEntry(p0: string, key: string, p1: string, p2: string, val: string, p3: string)
    requires IsBlank(p0, JavaTrimmable) && IsBlank(p1, JavaTrimmable)
    requires IsBlank(p2, JavaTrimmable) && IsBlank(p3, JavaTrimmable)
    requires key != [] && '=' !in key && key[0] != '#'
    requires !JavaTrimmable(key[0]) && !JavaTrimmable(key[|key| - 1])
    requires val == [] || (!JavaTrimmable(val[0]) && !JavaTrimmable(val[|val| - 1]))
    ensures ParseLine(p0 + key + p1 + "=" + p2 + val + p3) == match Unquote(val)
                                                           case None => Throws
                                                           case Some(v) => Entry(key, v)
  {
    var line := p0 + key + p1 + "=" + p2 + val + p3;
    PaddedLineTrims(p0, key, p1, p2, val, p3);
    PaddedKey(key, p1);
    PaddedValue(p2, val);
    ParseSplitLine(line, key + p1, if val == [] then "" else p2 + val);
  }

  /** A key followed by whitespace holds no '=' and trims to the key. */
  lemma PaddedKey(key: string, p1: string)
    requires IsBlank(p1, JavaTrimmable)
    requires key != [] && '=' !in key && !JavaTrimmable(key[0]) && !JavaTrimmable(key[|key| - 1])
    ensures '=' !in key + p1 && (key + p1)[0] == key[0]
    ensures JavaTrim(key + p1) == key
  {
    var k := key + p1;
    assert forall i :: 0 <= i < |p1| ==> k[|key| + i] == p1[i];
    assert k == [] + key + p1;
    TrimPadded([], key, p1, JavaTrimmable);
  }

  /** A value preceded by whitespace trims to the value. */
  lemma PaddedValue(p2: string, val: string)
    requires IsBlank(p2, JavaTrimmable)
    requires val == [] || (!JavaTrimmable(val[0]) && !JavaTrimmable(val[|val| - 1]))
    ensures JavaTrim(if val == [] then "" else p2 + val) == val
  {
    if val != [] {
      assert p2 + val == p2 + val + [];
      TrimPadded(p2, val, [], JavaTrimmable);
    }
  }

  /** A line whose trimmed form is `k=rest`, with `k` free of '=' and not starting with '#'. */
  lemma ParseSplitLine(line: string, k: string, rest: string)
    requires JavaTrim(line) == k + "=" + rest
    requires k != [] && '=' !in k && k[0] != '#'
    ensures ParseLine(line) == match Unquote(JavaTrim(rest))
                               case None => Throws
                               case Some(v) => Entry(JavaTrim(k), v)
  {
    EqualsAfterKey(k, rest);
    assert (k + "=" + rest)[0] == k[0];
  }

  /** The trimmed padded line runs from the key through the value, or through '=' when the value is empty. */
  lemma PaddedLineTrims(p0: string, key: string, p1: string, p2: string, val: string, p3: string)
    requires IsBlank(p0, JavaTrimmable) && IsBlank(p2, JavaTrimmable) && IsBlank(p3, JavaTrimmable)
    requires key != [] && !JavaTrimmable(key[0])
    requires val == [] || !JavaTrimmable(val[|val| - 1])
    ensures JavaTrim(p0 + key + p1 + "=" + p2 + val + p3)
            == key + p1 + "=" + (if val == [] then "" else p2 + val)
  {
    var m := key + p1 + "=" + (if val == [] then "" else p2 + val);
    var post := if val == [] then p2 + p3 else p3;
    assert p0 + key + p1 + "=" + p2 + val + p3 == p0 + m + post;
    assert m[0] == key[0];
    assert IsBlank(post, JavaTrimmable) by {
      assert forall i :: 0 <= i < |p2 + p3| ==> (p2 + p3)[i] in p2 || (p2 + p3)[i] in p3;
    }
    TrimPadded(p0, m, post, JavaTrimmable);
  }

  lemma EqualsAfterKey(key: string, val: string)
    requires '=' !in key
    ensures var line := key + "=" + val;
            IndexOf(line, '=') == |key| && line[..|key|] == key && line[|key| + 1..] == val
  {
    var line := key + "=" + val;
    assert line[|key|] == '=';
    assert line[..|key|] == key;
    assert line[|key| + 1..] == val;
  }

  /** A double-quoted value is stored without its quotes. */
  lemma DoubleQuotedValueIsUnquoted(key: string, v: string)
    requires key != [] && '=' !in key && key[0] != '#'
    requires !JavaTrimmable(key[0]) && !JavaTrimmable(key[|key| - 1])
    ensures ParseLine(key + "=\"" + v + "\"") == Entry(key, v)
  {
    var val := "\"" + v + "\"";
    var line := key + "=" + val;
    assert key + "=\"" + v + "\"" == line;
    assert JavaTrim(line) == line by {
      assert line[0] == key[0] && line[|line| - 1] == '"';
      TrimOfTrimmed(line, JavaTrimmable);
    }
    assert JavaTrim(val) == val by {
      assert val[0] == '"' && val[|val| - 1] == '"';
      TrimOfTrimmed(val, JavaTrimmable);
    }
    TrimOfTrimmed(key, JavaTrimmable);
    UnquoteDoubleQuoted(v);
    ParseSplitLine(line, key, val);
  }

  lemma UnquoteDoubleQuoted(v: string)
    ensures Unquote("\"" + v + "\"") == Some(v)
  {
    var val := "\"" + v + "\"";
    assert val[..1] == "\"" && val[|val| - 1..] == "\"";
    assert val[1..|val| - 1] == v;
  }

  /**
   * A stored key is never empty, holds no '=' and has no surrounding
   * whitespace: the first '=' of a trimmed line is past its first character.
   */
  lemma EntryKeyWellFormed(line: string)
    requires ParseLine(line).Entry?
    ensures var k := ParseLine(line).key;
            k != [] && '=' !in k && JavaTrim(k) == k
  {
    var t := JavaTrim(line);
    var eq := IndexOf(t, '=');
    KeyBeforeFirstEquals(t, eq);
  }

  /** The trimmed text before the first '=' of a trimmed line that does not start with '='. */
  lemma KeyBeforeFirstEquals(t: string, eq: int)
    requires 0 < eq <= |t| && !JavaTrimmable(t[0])
    requires forall i :: 0 <= i < eq ==> t[i] != '='
    ensures var k := JavaTrim(t[..eq]);
            k != [] && '=' !in k && JavaTrim(k) == k
  {
    var raw := t[..eq];
    var k := JavaTrim(raw);
    assert !IsBlank(raw, JavaTrimmable) by {
      assert raw[0] == t[0];
    }
    var lo, hi := TrimIsSlice(raw, JavaTrimmable);
    forall i | 0 <= i < |k| ensures k[i] != '=' {
      assert k[i] == raw[lo + i] == t[lo + i];
    }
    TrimIdempotent(raw, JavaTrimmable);
  }

  /** What each line contributes, in file order. */
  function Effects(lines: seq<string>): (e: seq<LineEffect>)
    ensures |e| == |lines| && forall i :: 0 <= i < |lines| ==> e[i] == ParseLine(lines[i])
  {
    seq(|lines|, i requires 0 <= i < |lines| => ParseLine(lines[i]))
  }

  /** The read loop from a given map on: entries overwrite, a throw ends reading. */
  function Gather(m: map<string, string>, effects: seq<LineEffect>): map<string, string>
    decreases effects
  {
    if effects == [] then m
    else match effects[0]
      case Skip => Gather(m, effects[1..])
      case Throws => m
      case Entry(k, v) => Gather(m[k := v], effects[1..])
  }

  /**
   * `loadDotEnv`: trims each line; skips blank lines, comments and lines
   * without a key; stores the trimmed key and the trimmed value with one pair
   * of surrounding quotes removed. A lone quote as the value throws, and the
   * outer catch keeps what was gathered so far.
   */
  method LoadDotEnv(lines: seq<string>) returns (m: map<string, string>)
    ensures m == Gather(map[], Effects(lines))
  {
    m := map[];
    var i := 0;
    while i < |lines|
      invariant 0 <= i <= |lines|
      invariant Gather(m, Effects(lines)[i..]) == Gather(map[], Effects(lines))
    {
      assert Effects(lines)[i..][1..] == Effects(lines)[i + 1..];
      var effect := ParseLine(lines[i]);
      match effect {
        case Skip =>
        case Throws =>
          return;
        case Entry(k, v) =>
          m := m[k := v];
      }
      i := i + 1;
    }
  }

  /**
   * Reference definition: the value stored for `key` by the last entry with
   * that key before any line that throws.
   */
  function LastValue(effects: seq<LineEffect>, key: string): Option<string>
  {
    if effects == [] then None
    else match effects[0]
      case Throws => None
      case Skip => LastValue(effects[1..], key)
      case Entry(k, v) =>
        match LastValue(effects[1..], key)
        case Some(w) => Some(w)
        case None => if k == key then Some(v) else None
  }

  lemma {:induction false} GatherLookup(m: map<string, string>, effects: seq<LineEffect>, key: string)
    ensures key in Gather(m, effects) <==> LastValue(effects, key).Some? || key in m
    ensures key in Gather(m, effects) ==>
              Gather(m, effects)[key] == if LastValue(effects, key).Some? then LastValue(effects, key).value else m[key]
    decreases effects
  {
    if effects != [] {
      match effects[0]
      case Skip => GatherLookup(m, effects[1..], key);
      case Throws =>
      case Entry(k, v) => GatherLookup(m[k := v], effects[1..], key);
    }
  }

  /** A later duplicate key overwrites an earlier one: the map holds each key's last value. */
  lemma LoadedValueIsLast(lines: seq<string>, key: string)
    ensures key in Gather(map[], Effects(lines)) <==> LastValue(Effects(lines), key).Some?
    ensures key in Gather(map[], Effects(lines)) ==>
              Gather(map[], Effects(lines))[key] == LastValue(Effects(lines), key).value
  {
    GatherLookup(map[], Effects(lines), key);
  }

  /** Nothing after a line that throws is read. */
  lemma {:induction false} ThrowStopsReading(m: map<string, string>, before: seq<LineEffect>, after: seq<LineEffect>)
    ensures Gather(m, before + [Throws] + after) == Gather(m, before + [Throws])
    decreases before
  {
    if before == [] {
      assert (before + [Throws] + after)[0] == Throws;
      assert (before + [Throws])[0] == Throws;
    } else {
      assert (before + [Throws] + after)[1..] == before[1..] + [Throws] + after;
      assert (before + [Throws])[1..] == before[1..] + [Throws];
      match before[0]
      case Skip => ThrowStopsReading(m, before[1..], after);
      case Throws =>
      case Entry(k, v) => ThrowStopsReading(m[k := v], before[1..], after);
    }
  }

  /** A value that is one quote character makes the line throw, which ends reading. */
  lemma LoneQuoteThrows()
    ensures ParseLine("KEY='") == Throws
  {
    TrimOfTrimmed("KEY='", JavaTrimmable);
    assert IndexOf("KEY='", '=') == 3;
    TrimOfTrimmed("'", JavaTrimmable);
  }
}
