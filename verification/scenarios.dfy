/** Concrete scenarios: the marking policy and the suggestion rule on small
    inputs, with a digits-only reading standing in for `int()`. */
module Scenarios {
  import opened Wrappers
  import opened IsoDates
  import opened Text
  import opened Units

  /** `int(t)` on tokens made of decimal digits only. */
  function ParseDigits(t: string): Option<int> {
    if t == [] then None else ReadDigits(t)
  }

  /** "all" marks every unit, whatever was done before. */
  lemma MarkAllScenario()
    ensures MarkUnits([], MarkAllToken, 5, ParseDigits).units == [1, 2, 3, 4, 5]
    ensures MarkUnits([4, 2], MarkAllToken, 3, ParseDigits).units == [1, 2, 3]
  {
  }

  lemma SplitScenario()
    ensures Tokens("1,3,9,3") == ["1", "3", "9", "3"]
  {
    var pieces := ["1", "3", "9", "3"];
    assert Join(pieces, ',') == "1,3,9,3";
    SplitJoin(pieces, ',');
  }

  lemma ParseScenario()
    ensures ParseAll(["1", "3", "9", "3"], ParseDigits) == Some([1, 3, 9, 3])
  {
    var pieces := ["1", "3", "9", "3"];
    assert ParseDigits("1") == Some(1) && ParseDigits("3") == Some(3) && ParseDigits("9") == Some(9);
    assert pieces[0] == "1" && pieces[1] == "3" && pieces[2] == "9" && pieces[3] == "3";
    var parsed := ParseAll(pieces, ParseDigits);
    assert parsed.Some?;
    assert parsed.value == [1, 3, 9, 3];
  }

  lemma MergeTailScenario()
    ensures MergeUnits([2, 1], [3, 9, 3], 5) == [2, 1, 3]
  {
    assert [3, 9, 3][1..] == [9, 3];
    assert [9, 3][1..] == [3];
    assert [3][1..] == [];
  }

  /** The merge skips a unit beyond the total and a unit already listed. */
  lemma MergeLoopScenario()
    ensures MergeUnits([2], [1, 3, 9, 3], 5) == [2, 1, 3]
  {
    assert [1, 3, 9, 3][1..] == [3, 9, 3];
    assert [2] + [1] == [2, 1];
    MergeTailScenario();
  }

  /** A list that parses is merged in order, out-of-range units dropped. */
  lemma MergeScenario()
    ensures MarkUnits([2], "1,3,9,3", 5, ParseDigits) == Marking([2, 1, 3], false)
  {
    SplitScenario();
    ParseScenario();
    MergeLoopScenario();
  }

  /** One token that does not parse discards the whole list. */
  lemma RejectScenario()
    ensures MarkUnits([2], "1,3,x", 5, ParseDigits) == Marking([2], true)
  {
    var pieces := ["1", "3", "x"];
    assert Join(pieces, ',') == "1,3,x";
    SplitJoin(pieces, ',');
    assert ParseDigits("x") == None;
  }

  /** Units 1 and 2 done: study 3, revise 2; everything done: unit 1. */
  lemma SuggestionScenario()
    ensures NextUnit([1, 2], 10) == 3 && ReviewUnit(3) == 2
    ensures NextUnit([3, 1, 2], 3) == 1 && ReviewUnit(1) == 1
    ensures UnitsPerDay(10, 5) == 2 && UnitsPerDay(3, 10) == 1
  {
  }
}
