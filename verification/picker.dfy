/** The field picker (`AskUserToPickField`): the merged contact takes, for each
    field, one of the distinct non-blank values the group's members hold. */
module Picker {
  import opened Options
  import opened Text
  import opened Console

  /** Position of the first occurrence of `x` in `s`. */
  function IndexOf(s: seq<string>, x: string): (k: nat)
    requires x in s
    ensures k < |s| && s[k] == x
    ensures forall j :: 0 <= j < k ==> s[j] != x
  {
    if s[0] == x then 0 else 1 + IndexOf(s[1..], x)
  }

  lemma IndexOfInPrefix(s: seq<string>, n: nat, x: string)
    requires n <= |s| && x in s[..n]
    ensures IndexOf(s, x) == IndexOf(s[..n], x)
  {
    var k := IndexOf(s[..n], x);
    assert s[k] == x;
  }

  /** `options.Where(o => !string.IsNullOrWhiteSpace(o)).Distinct()`: the
      non-blank values, each once, in the order of their first occurrence. */
  function Candidates(values: seq<string>): (r: seq<string>)
    decreases |values|
    ensures forall x :: x in r <==> x in values && !IsBlank(x)
    ensures forall a, b :: 0 <= a < b < |r| ==> r[a] != r[b]
    ensures forall a, b :: 0 <= a < b < |r| ==> IndexOf(values, r[a]) < IndexOf(values, r[b])
  {
    if |values| == 0 then []
    else
      var init := values[..|values| - 1];
      var last := values[|values| - 1];
      assert values == init + [last];
      var r := Candidates(init);
      forall x | x in r
        ensures IndexOf(values, x) == IndexOf(init, x) < |init|
      {
        IndexOfInPrefix(values, |init|, x);
      }
      if IsBlank(last) || last in r then r
      else
        assert last !in init;
        assert IndexOf(values, last) == |init|;
        r + [last]
  }

  /** `AskUserToPickField`: no prompt when at most one candidate is left (the
      empty string when none is); otherwise the candidate whose index the
      operator enters, re-prompting until it is in range. */
  function AskUserToPickField(values: seq<string>, script: seq<string>): (r: Option<Reply<string>>)
    ensures |Candidates(values)| <= 1 ==> r.Some? && r.value.rest == script
    ensures r.Some? ==> IsSuffix(r.value.rest, script)
    ensures r.Some? ==> (r.value.value == "" <==> |Candidates(values)| == 0)
    ensures r.Some? && r.value.value != "" ==> r.value.value in Candidates(values)
    ensures |Candidates(values)| >= 2 ==>
              (r.Some? <==> GetOption(script, 0, |Candidates(values)| - 1).Some?)
    ensures r.Some? && |Candidates(values)| >= 2 ==>
              var choice := GetOption(script, 0, |Candidates(values)| - 1).value;
              r.value == Reply(Candidates(values)[choice.value], choice.rest)
  {
    var options := Candidates(values);
    if |options| == 0 then
      Some(Reply("", script))
    else if |options| == 1 then
      assert options[0] in options;
      Some(Reply(options[0], script))
    else
      var choice :- GetOption(script, 0, |options| - 1);
      assert options[choice.value] in options;
      Some(Reply(options[choice.value], choice.rest))
  }

  /** What the picked value means for the values it was picked from: empty
      exactly when every value is blank, otherwise one of the non-blank values,
      and the only one when all non-blank values agree. */
  lemma PickedFieldMeaning(values: seq<string>, script: seq<string>)
    requires AskUserToPickField(values, script).Some?
    ensures var v := AskUserToPickField(values, script).value.value;
            && (v == "" <==> forall k :: 0 <= k < |values| ==> IsBlank(values[k]))
            && (v != "" ==> v in values && !IsBlank(v))
            && (|Candidates(values)| == 1 ==>
                  forall k :: 0 <= k < |values| && !IsBlank(values[k]) ==> values[k] == v)
  {
    var options := Candidates(values);
    var v := AskUserToPickField(values, script).value.value;
    if |options| == 0 {
      assert forall k :: 0 <= k < |values| ==> values[k] in values;
    } else {
      assert v in options;
      assert v != "" && !IsBlank(v) && v in values;
      var k :| 0 <= k < |values| && values[k] == v;
      assert !IsBlank(values[k]);
      if |options| == 1 {
        forall j | 0 <= j < |values| && !IsBlank(values[j])
          ensures values[j] == v
        {
          assert values[j] in options;
          assert options[0] == v;
        }
      }
    }
  }

  /** Entering the number printed next to a candidate picks that candidate. */
  lemma EnteringShownIndexPicksIt(values: seq<string>, k: nat, rest: seq<string>)
    requires 2 <= |Candidates(values)| && k < |Candidates(values)|
    requires |values| <= MaxInt32
    ensures AskUserToPickField(values, [FormatInt(k)] + rest) == Some(Reply(Candidates(values)[k], rest))
  {
    var n := |Candidates(values)|;
    assert forall x :: x in Candidates(values) ==> x in values;
    CandidatesNoLongerThanValues(values);
    TypingShownNumberSelectsIt(k, rest, 0, n - 1);
  }

  lemma {:induction false} CandidatesNoLongerThanValues(values: seq<string>)
    ensures |Candidates(values)| <= |values|
    decreases |values|
  {
    if |values| > 0 {
      CandidatesNoLongerThanValues(values[..|values| - 1]);
    }
  }
}
