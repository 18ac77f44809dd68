/**
 * The answer locator of the command-line bot: a depth-first search of a parsed
 * response body for the first string stored under a key equal to "text",
 * ignoring case, and the choice between that string and the raw body when the
 * report is printed.
 *
 * An object is a sequence of key/value pairs. The order in which the JSON
 * library hands out an object's keys is not specified, so every statement
 * below is about "first in the given pair order".
 */
module AnswerLocator {
  import opened Text

  datatype Json =
    | JNull
    | JBool(b: bool)
    | JNum(n: int)
    | JStr(s: string)
    | JArr(items: seq<Json>)
    | JObj(pairs: seq<Member>)

  /** One key/value pair of an object. */
  datatype Member = Member(key: string, value: Json)

  /** The field name the locator looks for. */
  const TextKey := "text"

  /** ASCII lower-casing of one character. */
  function LowerAscii(c: char): char {
    if 'A' <= c <= 'Z' then (c as int - 'A' as int + 'a' as int) as char else c
  }

  /**
   * `String.equalsIgnoreCase` against the ASCII word "text": same length and
   * equal characters after case folding. No character outside ASCII folds to
   * 't', 'e' or 'x', so ASCII folding decides this comparison.
   */
  predicate IsTextKey(key: string) {
    |key| == |TextKey| && forall i :: 0 <= i < |key| ==> LowerAscii(key[i]) == TextKey[i]
  }

  /** A pair whose value is returned as soon as the search reaches it. */
  predicate IsHit(p: Member) {
    IsTextKey(p.key) && p.value.JStr?
  }

  /** The search over one node (`findTextInJson`). */
  function FindText(j: Json): Option<string>
  {
    match j
    case JObj(pairs) => FindInPairs(pairs)
    case JArr(items) => FindInItems(items)
    case _ => None
  }

  /** The loop over an object's pairs: a hit returns, anything else is searched into. */
  function FindInPairs(pairs: seq<Member>): Option<string>
  {
    if pairs == [] then None
    else if IsHit(pairs[0]) then Some(pairs[0].value.s)
    else match FindText(pairs[0].value)
      case Some(v) => Some(v)
      case None => FindInPairs(pairs[1..])
  }

  /** The loop over an array's elements, in index order. */
  function FindInItems(items: seq<Json>): Option<string>
  {
    if items == [] then None
    else match FindText(items[0])
      case Some(v) => Some(v)
      case None => FindInItems(items[1..])
  }

  /**
   * Reference definition: every string that the search could return, in
   * depth-first pre-order over pair and element order. A hit contributes its
   * string; any other value contributes what lies inside it.
   */
  function Candidates(j: Json): seq<string>
  {
    match j
    case JObj(pairs) => PairCandidates(pairs)
    case JArr(items) => ItemCandidates(items)
    case _ => []
  }

  function PairCandidates(pairs: seq<Member>): seq<string>
  {
    if pairs == [] then []
    else (if IsHit(pairs[0]) then [pairs[0].value.s] else Candidates(pairs[0].value))
         + PairCandidates(pairs[1..])
  }

  function ItemCandidates(items: seq<Json>): seq<string>
  {
    if items == [] then [] else Candidates(items[0]) + ItemCandidates(items[1..])
  }

  /** The first element of a sequence, if any. */
  function First(s: seq<string>): Option<string> {
    if s == [] then None else Some(s[0])
  }

  /**
   * First match wins: the search returns the first candidate in pre-order,
   * and reports nothing exactly when there is no candidate anywhere.
   */
  lemma {:induction false} FindTextIsFirstCandidate(j: Json)
    ensures FindText(j) == First(Candidates(j))
  {
    match j
    case JObj(pairs) => FindInPairsIsFirst(pairs);
    case JArr(items) => FindInItemsIsFirst(items);
    case _ =>
  }

  lemma {:induction false} FindInPairsIsFirst(pairs: seq<Member>)
    ensures FindInPairs(pairs) == First(PairCandidates(pairs))
  {
    if pairs != [] && !IsHit(pairs[0]) {
      FindTextIsFirstCandidate(pairs[0].value);
      FindInPairsIsFirst(pairs[1..]);
    }
  }

  lemma {:induction false} FindInItemsIsFirst(items: seq<Json>)
    ensures FindInItems(items) == First(ItemCandidates(items))
  {
    if items != [] {
      FindTextIsFirstCandidate(items[0]);
      FindInItemsIsFirst(items[1..]);
    }
  }

  /** A value stored under a "text" key somewhere in the tree, at any depth. */
  predicate HasTextString(j: Json, v: string)
  {
    match j
    case JObj(pairs) => exists k :: 0 <= k < |pairs| &&
                          ((IsHit(pairs[k]) && pairs[k].value.s == v) || HasTextString(pairs[k].value, v))
    case JArr(items) => exists k :: 0 <= k < |items| && HasTextString(items[k], v)
    case _ => false
  }

  /** The candidates are exactly the strings stored under a "text" key. */
  lemma {:induction false} CandidatesAreTextStrings(j: Json, v: string)
    ensures v in Candidates(j) <==> HasTextString(j, v)
  {
    match j
    case JObj(pairs) => PairCandidatesAreTextStrings(pairs, v);
    case JArr(items) => ItemCandidatesAreTextStrings(items, v);
    case _ =>
  }

  lemma {:induction false} PairCandidatesAreTextStrings(pairs: seq<Member>, v: string)
    ensures v in PairCandidates(pairs) <==>
            exists k :: 0 <= k < |pairs| &&
              ((IsHit(pairs[k]) && pairs[k].value.s == v) || HasTextString(pairs[k].value, v))
  {
    if pairs != [] {
      CandidatesAreTextStrings(pairs[0].value, v);
      PairCandidatesAreTextStrings(pairs[1..], v);
      if IsHit(pairs[0]) {
        // a string value holds no nested candidates
        assert !HasTextString(pairs[0].value, v);
      }
      var rest := pairs[1..];
      assert forall k :: 0 < k < |pairs| ==> pairs[k] == rest[k - 1];
      if exists k :: 0 <= k < |pairs| &&
           ((IsHit(pairs[k]) && pairs[k].value.s == v) || HasTextString(pairs[k].value, v)) {
        var k :| 0 <= k < |pairs| &&
           ((IsHit(pairs[k]) && pairs[k].value.s == v) || HasTextString(pairs[k].value, v));
        if k > 0 {
          assert (IsHit(rest[k - 1]) && rest[k - 1].value.s == v) || HasTextString(rest[k - 1].value, v);
        }
      }
    }
  }

  lemma {:induction false} ItemCandidatesAreTextStrings(items: seq<Json>, v: string)
    ensures v in ItemCandidates(items) <==> exists k :: 0 <= k < |items| && HasTextString(items[k], v)
  {
    if items != [] {
      CandidatesAreTextStrings(items[0], v);
      ItemCandidatesAreTextStrings(items[1..], v);
      var rest := items[1..];
      assert forall k :: 0 < k < |items| ==> items[k] == rest[k - 1];
      if exists k :: 0 <= k < |items| && HasTextString(items[k], v) {
        var k :| 0 <= k < |items| && HasTextString(items[k], v);
        if k > 0 {
          assert HasTextString(rest[k - 1], v);
        }
      }
    }
  }

  /** Nothing is found exactly when no "text" key holds a string anywhere. */
  lemma NotFoundIffNoTextString(j: Json)
    ensures FindText(j) == None <==> forall v :: !HasTextString(j, v)
  {
    FindTextIsFirstCandidate(j);
    if Candidates(j) != [] {
      CandidatesAreTextStrings(j, Candidates(j)[0]);
    }
    forall v | HasTextString(j, v) ensures Candidates(j) != [] {
      CandidatesAreTextStrings(j, v);
    }
  }

  /** What the search returns is stored under a "text" key of the tree. */
  lemma FoundIsTextString(j: Json)
    requires FindText(j).Some?
    ensures HasTextString(j, FindText(j).value)
  {
    FindTextIsFirstCandidate(j);
    CandidatesAreTextStrings(j, Candidates(j)[0]);
  }

  /**
   * An earlier pair wins over a later sibling hit even when its match is
   * nested deeper.
   */
  lemma EarlierNestedMatchWins(inner: Json, later: string)
    requires FindText(inner).Some?
    ensures FindText(JObj([Member("a", inner), Member("text", JStr(later))])) == FindText(inner)
  {
  }

  /** `tryExtractTextField`: a body that does not parse yields no answer. */
  function TryExtractTextField(parsed: Option<Json>): (r: Option<string>)
    ensures parsed == None ==> r == None
    ensures parsed.Some? ==> r == First(Candidates(parsed.value))
  {
    match parsed
    case None => None
    case Some(j) => FindTextIsFirstCandidate(j); FindText(j)
  }

  /**
   * The report printed by `main`: the located string when it exists and is
   * not empty, otherwise the raw body.
   */
  function ReportText(body: string, parsed: Option<Json>): (out: string)
    ensures parsed.Some? && Candidates(parsed.value) != [] && Candidates(parsed.value)[0] != ""
            ==> out == Candidates(parsed.value)[0]
    ensures parsed.None? || Candidates(parsed.value) == [] || Candidates(parsed.value)[0] == ""
            ==> out == body
  {
    match TryExtractTextField(parsed)
    case Some(v) => if v != "" then v else body
    case None => body
  }

  /** An empty first "text" value shadows every later one: the raw body is printed. */
  lemma EmptyFirstTextShadowsLater(body: string, later: string)
    ensures ReportText(body, Some(JObj([Member("text", JStr("")), Member("more", JObj([Member("Text", JStr(later))]))]))) == body
  {
    var pairs := [Member("text", JStr("")), Member("more", JObj([Member("Text", JStr(later))]))];
    assert IsHit(pairs[0]);
    assert FindText(JObj(pairs)) == Some("");
  }
}
