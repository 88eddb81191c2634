/** main.py, `BubbleSheetValidator.validate_results`: the service accepts a scan only
    when every question in it has exactly four detected bubbles. The scan result is
    taken as the JSON-like Python value it is. */
module Validator {
  import opened Basics
  import opened QuestionFiles
  import opened Dicts
  import BubbleScanner

  /** `REQUIRED_BUBBLES_PER_QUESTION`. */
  const RequiredBubbles: real := 4.0

  /** A Python value made of None, booleans, numbers (ints and floats, compared by
      value), strings, lists and dictionaries; a dictionary keeps its items in
      insertion order. */
  datatype Json =
    | JNull
    | JBool(b: bool)
    | JNum(n: real)
    | JStr(s: string)
    | JArray(elems: seq<Json>)
    | JObject(items: seq<(string, Json)>)

  /** Python truthiness: None, False, zero and empty containers are false. */
  predicate Truthy(v: Json)
  {
    match v
    case JNull => false
    case JBool(b) => b
    case JNum(n) => n != 0.0
    case JStr(s) => s != []
    case JArray(elems) => elems != []
    case JObject(items) => items != []
  }

  /** A question's data passes: a dictionary whose `bubbles_detected` equals 4. A
      boolean never does, since `True != 4` and `False != 4` in Python. */
  predicate EntryValid(data: Json)
  {
    data.JObject? && Get(data.items, "bubbles_detected") == Some(JNum(RequiredBubbles))
  }

  /** The loop over `results.items()`: keys without the `question_` prefix are
      skipped, and the first failing question ends it with False. */
  function CheckEntries(items: seq<(string, Json)>): bool
  {
    if items == [] then true
    else if !StartsWith(items[0].0, Prefix) then CheckEntries(items[1..])
    else if !EntryValid(items[0].1) then false
    else CheckEntries(items[1..])
  }

  /** `validate_results`: True exactly for a non-empty dictionary whose every
      `question_` item is a dictionary with `bubbles_detected` equal to 4. */
  function ValidateResults(results: Json): (valid: bool)
    ensures valid <==> results.JObject? && results.items != [] && AllQuestionsValid(results.items)
  {
    if !Truthy(results) then false
    else if !results.JObject? then false
    else
      CheckEntriesSpec(results.items);
      CheckEntries(results.items)
  }

  /** Every question item passes. */
  ghost predicate AllQuestionsValid(items: seq<(string, Json)>)
  {
    forall i :: 0 <= i < |items| && StartsWith(items[i].0, Prefix) ==> EntryValid(items[i].1)
  }

  /** The loop with early returns is a for-all over the question items. */
  lemma {:induction false} CheckEntriesSpec(items: seq<(string, Json)>)
    ensures CheckEntries(items) <==> AllQuestionsValid(items)
  {
    if items != [] {
      CheckEntriesSpec(items[1..]);
      assert forall i :: 0 < i < |items| ==> items[i] == items[1..][i - 1];
      if AllQuestionsValid(items) {
        forall i | 0 <= i < |items[1..]| && StartsWith(items[1..][i].0, Prefix)
          ensures EntryValid(items[1..][i].1)
        {
          assert items[1..][i] == items[i + 1];
        }
      }
    }
  }

  /** The verdict does not depend on the order of the items. */
  lemma OrderIrrelevant(items: seq<(string, Json)>, other: seq<(string, Json)>)
    requires multiset(items) == multiset(other)
    ensures ValidateResults(JObject(items)) == ValidateResults(JObject(other))
  {
    if AllQuestionsValid(items) {
      forall i | 0 <= i < |other| && StartsWith(other[i].0, Prefix) ensures EntryValid(other[i].1) {
        assert other[i] in multiset(items);
        var j :| 0 <= j < |items| && items[j] == other[i];
      }
    }
    if AllQuestionsValid(other) {
      forall i | 0 <= i < |items| && StartsWith(items[i].0, Prefix) ensures EntryValid(items[i].1) {
        assert items[i] in multiset(other);
        var j :| 0 <= j < |other| && other[j] == items[i];
      }
    }
    if items == [] {
      assert |other| == |multiset(other)| == 0;
    }
    if other == [] {
      assert |items| == |multiset(items)| == 0;
    }
  }

  /** A single failing question, wherever it stands, makes the result invalid. */
  lemma OneBadQuestion(items: seq<(string, Json)>, i: nat)
    requires i < |items| && StartsWith(items[i].0, Prefix) && !EntryValid(items[i].1)
    ensures !ValidateResults(JObject(items))
  {
  }

  /** A non-empty dictionary without any `question_` key is valid. */
  lemma NoQuestionsIsValid(items: seq<(string, Json)>)
    requires items != [] && forall i :: 0 <= i < |items| ==> !StartsWith(items[i].0, Prefix)
    ensures ValidateResults(JObject(items))
  {
  }

  /** A value that is not a dictionary, or an empty one, is invalid. */
  lemma NonDictionaryIsInvalid(results: Json)
    requires !results.JObject? || results.items == []
    ensures !ValidateResults(results)
  {
  }

  /** The dictionary `process_bubble_sheet` returns, as a Python value. */
  function AnswerJson(answer: Option<seq<nat>>): Json
  {
    match answer
    case None => JNull
    case Some(positions) => JArray(seq(|positions|, k requires 0 <= k < |positions| => JNum(positions[k] as real)))
  }

  function EntryJson(e: BubbleScanner.Entry): Json
  {
    JObject([("answer", AnswerJson(e.answer)),
             ("fill_ratios", JArray(seq(|e.fillRatios|, k requires 0 <= k < |e.fillRatios| => JNum(e.fillRatios[k])))),
             ("bubbles_detected", JNum(e.bubblesDetected as real))])
  }

  function ResultsJson(d: seq<(string, BubbleScanner.Entry)>): (j: Json)
    ensures j.JObject? && |j.items| == |d|
  {
    JObject(seq(|d|, k requires 0 <= k < |d| => (d[k].0, EntryJson(d[k].1))))
  }

  /** A scanner dictionary is accepted exactly when it is non-empty and every
      `question_` entry detected four bubbles. */
  lemma ScanValidation(d: seq<(string, BubbleScanner.Entry)>)
    ensures ValidateResults(ResultsJson(d)) <==>
              d != [] && forall i :: 0 <= i < |d| && StartsWith(d[i].0, Prefix) ==> d[i].1.bubblesDetected == 4
  {
    var j := ResultsJson(d);
    forall i | 0 <= i < |d|
      ensures EntryValid(j.items[i].1) <==> d[i].1.bubblesDetected == 4
    {
      var data := EntryJson(d[i].1);
      assert j.items[i] == (d[i].0, data);
      assert data.items[0].0 != "bubbles_detected" && data.items[1].0 != "bubbles_detected";
      assert data.items[1..][1..] == [data.items[2]];
      assert Get(data.items, "bubbles_detected") == Some(JNum(d[i].1.bubblesDetected as real));
    }
  }
}
