/** Unit bookkeeping for one exam: units are numbered 1..total, and the
    completed ones are kept as a list of unit numbers (the JSON list of the
    progress store). */
module Units {
  import opened Wrappers
  import opened Text

  /** No unit number occurs twice. */
  predicate NoDup(s: seq<int>) {
    forall i, j :: 0 <= i < j < |s| ==> s[i] != s[j]
  }

  /** Every listed unit is one of 1..total. */
  predicate WithinUnits(s: seq<int>, total: int) {
    forall i :: 0 <= i < |s| ==> 1 <= s[i] <= total
  }

  function Elements(s: seq<int>): set<int> {
    set u | u in s
  }

  /** `list(range(1, total + 1))`: every unit once, in order. */
  function AllUnits(total: int): (r: seq<int>)
    ensures |r| == if total > 0 then total else 0
    ensures NoDup(r) && WithinUnits(r, total)
    ensures forall u :: 1 <= u <= total ==> u in r
  {
    var r := seq(if total > 0 then total else 0, i => i + 1);
    assert forall u :: 1 <= u <= total ==> u in r by {
      forall u | 1 <= u <= total ensures u in r {
        assert r[u - 1] == u;
      }
    }
    r
  }

  // ---------------------------------------------------------------------
  // Daily suggestion

  /** Every unit of from..total is completed. */
  predicate AllDoneFrom(completed: seq<int>, from: int, total: int) {
    forall u :: from <= u <= total ==> u in completed
  }

  /** The scan `for unit in range(from, total + 1)` that stops at the first
      unit not completed, and otherwise leaves the initial value 1. */
  function NextUnitFrom(completed: seq<int>, from: int, total: int): (r: int)
    requires from >= 1
    ensures r >= 1
    ensures AllDoneFrom(completed, from, total) ==> r == 1
    ensures !AllDoneFrom(completed, from, total) ==>
      && from <= r <= total
      && r !in completed
      && forall u :: from <= u < r ==> u in completed
    decreases if from <= total then total - from + 1 else 0
  {
    if from > total then 1
    else if from !in completed then from
    else NextUnitFrom(completed, from + 1, total)
  }

  /** The unit to study next: the least unit of 1..total not completed, or
      unit 1 when there is none (all done, or no units at all). */
  function NextUnit(completed: seq<int>, total: int): (r: int)
    ensures r >= 1
    ensures total >= 1 ==> r <= total
    ensures (forall u :: 1 <= u <= total ==> u in completed) ==> r == 1
    ensures (exists u :: 1 <= u <= total && u !in completed) ==>
      && r <= total
      && r !in completed
      && forall u :: 1 <= u < r ==> u in completed
  {
    NextUnitFrom(completed, 1, total)
  }

  /** The unit to revise: the one before the next unit, or unit 1. */
  function ReviewUnit(next: int): (r: int)
    ensures r >= 1
    ensures next >= 1 ==> r <= next
    ensures next >= 2 ==> r + 1 == next
    ensures next <= 2 ==> r == 1
  {
    if next - 1 > 1 then next - 1 else 1
  }

  /** Floor division by a positive divisor brackets the dividend. */
  lemma FloorDivision(n: int, d: int)
    requires d >= 1
    ensures d * (n / d) <= n < d * (n / d) + d
    ensures n >= d ==> n / d >= 1
    ensures n < d ==> n / d <= 0
  {
    var q := n / d;
    assert n == d * q + n % d;
    assert q <= 0 ==> d * q <= 0;
    assert q >= 1 ==> d * q >= d;
  }

  /** Pacing: `max(1, total // max(1, daysLeft))`. Python's `//` floors;
      the divisor is positive, where Dafny's `/` floors as well. */
  function UnitsPerDay(total: int, daysLeft: int): (r: int)
    ensures r >= 1
    ensures var d := if daysLeft > 1 then daysLeft else 1;
      total >= d ==> r * d <= total < r * d + d
    ensures var d := if daysLeft > 1 then daysLeft else 1;
      total < d ==> r == 1
  {
    var d := if daysLeft > 1 then daysLeft else 1;
    FloorDivision(total, d);
    var q := total / d;
    assert d * q == q * d;
    if q > 1 then q else 1
  }

  // ---------------------------------------------------------------------
  // Marking units complete

  /** Prefixes compose, and so do in-range suffixes. */
  lemma ExtendPrefix(completed: seq<int>, next: seq<int>, r: seq<int>, total: int)
    requires |completed| <= |next| <= |r|
    requires next[..|completed|] == completed && r[..|next|] == next
    requires WithinUnits(next[|completed|..], total) && WithinUnits(r[|next|..], total)
    ensures r[..|completed|] == completed
    ensures WithinUnits(r[|completed|..], total)
  {
    assert r[..|completed|] == r[..|next|][..|completed|];
    forall i | 0 <= i < |r| - |completed|
      ensures 1 <= r[|completed|..][i] <= total
    {
      if |completed| + i < |next| {
        assert r[|completed|..][i] == next[|completed|..][i];
      } else {
        assert r[|completed|..][i] == r[|next|..][i - (|next| - |completed|)];
      }
    }
  }

  /** One step of the merge loop: append `u` when it is in range and new. */
  function MergeStep(completed: seq<int>, u: int, total: int): (next: seq<int>)
    ensures |completed| <= |next| && next[..|completed|] == completed
    ensures WithinUnits(next[|completed|..], total)
    ensures forall v :: v in next <==> v in completed || (v == u && 1 <= u <= total)
    ensures NoDup(completed) ==> NoDup(next)
  {
    if 1 <= u <= total && u !in completed then
      assert (completed + [u])[..|completed|] == completed;
      completed + [u]
    else
      completed
  }

  /** The merge loop: each new unit in 1..total that is not yet listed is
      appended, in input order. */
  function MergeUnits(completed: seq<int>, newUnits: seq<int>, total: int): (r: seq<int>)
    ensures |completed| <= |r| && r[..|completed|] == completed
    ensures WithinUnits(r[|completed|..], total)
    ensures forall u :: u in r <==> u in completed || (u in newUnits && 1 <= u <= total)
    ensures NoDup(completed) ==> NoDup(r)
    decreases |newUnits|
  {
    if newUnits == [] then
      assert completed[|completed|..] == [];
      completed
    else
      var next := MergeStep(completed, newUnits[0], total);
      assert forall v :: v in newUnits <==> v == newUnits[0] || v in newUnits[1..];
      var r := MergeUnits(next, newUnits[1..], total);
      ExtendPrefix(completed, next, r, total);
      r
  }

  /** `list(set(s))`: each unit once. Python leaves the order of a set
      unspecified; this definition keeps first occurrences, but the contract
      promises only the contents, the absence of repeats and the length. */
  function Dedup(s: seq<int>): (r: seq<int>)
    ensures forall u :: u in r <==> u in s
    ensures NoDup(r)
    ensures |r| <= |s|
    ensures NoDup(s) ==> |r| == |s|
    decreases |s|
  {
    if s == [] then []
    else
      var init := s[..|s| - 1];
      var rest := Dedup(init);
      var last := s[|s| - 1];
      assert s == init + [last];
      if last in rest then rest else rest + [last]
  }

  /** Parse every token; one failure fails the whole list, as the single
      `except ValueError` around the list comprehension does. */
  function ParseAll(tokens: seq<string>, parse: string -> Option<int>): (r: Option<seq<int>>)
    ensures r.Some? <==> forall i :: 0 <= i < |tokens| ==> parse(tokens[i]).Some?
    ensures r.Some? ==> |r.value| == |tokens|
    ensures r.Some? ==> forall i :: 0 <= i < |tokens| ==> parse(tokens[i]) == Some(r.value[i])
    decreases |tokens|
  {
    if tokens == [] then Some([])
    else
      match (parse(tokens[0]), ParseAll(tokens[1..], parse))
      case (Some(u), Some(us)) => Some([u] + us)
      case _ => None
  }

  /** The literal that marks every unit complete. */
  const MarkAllToken: string := "all"

  /** The comma-separated unit list the caller typed. */
  function Tokens(input: string): seq<string> {
    Split(input, ',')
  }

  /** Some token of the input parses to unit `u`. */
  predicate Mentions(input: string, u: int, parse: string -> Option<int>) {
    exists t :: t in Tokens(input) && parse(t) == Some(u)
  }

  /** The all-or-nothing parse read by membership: it fails exactly when
      some token does not parse, and otherwise yields exactly the values of
      the tokens. */
  lemma ParseAllByMembership(tokens: seq<string>, parse: string -> Option<int>)
    ensures ParseAll(tokens, parse).None? <==> exists t :: t in tokens && parse(t).None?
    ensures ParseAll(tokens, parse).Some? ==>
      forall u :: u in ParseAll(tokens, parse).value <==> exists t :: t in tokens && parse(t) == Some(u)
  {
    var r := ParseAll(tokens, parse);
    if r.None? {
      var i :| 0 <= i < |tokens| && parse(tokens[i]).None?;
      assert tokens[i] in tokens;
    } else {
      forall u | u in r.value
        ensures exists t :: t in tokens && parse(t) == Some(u)
      {
        var i :| 0 <= i < |r.value| && r.value[i] == u;
        assert tokens[i] in tokens && parse(tokens[i]) == Some(u);
      }
    }
  }

  /** An in-range list extended by in-range units stays in range. */
  lemma WithinAfterPrefix(completed: seq<int>, r: seq<int>, total: int)
    requires |completed| <= |r| && r[..|completed|] == completed
    requires WithinUnits(r[|completed|..], total)
    ensures WithinUnits(completed, total) ==> WithinUnits(r, total)
  {
    forall i | 0 <= i < |r| && WithinUnits(completed, total)
      ensures 1 <= r[i] <= total
    {
      if i < |completed| {
        assert r[i] == r[..|completed|][i];
      } else {
        assert r[i] == r[|completed|..][i - |completed|];
      }
    }
  }

  /** The completed list after one marking, and whether the input was
      rejected ("Invalid input!"). */
  datatype Marking = Marking(units: seq<int>, rejected: bool)

  /** The marking step of progress tracking: "all" replaces the list by
      every unit; otherwise the tokens are parsed all-or-nothing and the
      parsed units within 1..total are merged into the list. */
  function MarkUnits(completed: seq<int>, input: string, total: int,
                     parse: string -> Option<int>): (r: Marking)
    ensures input == MarkAllToken ==>
      && !r.rejected
      && NoDup(r.units)
      && forall u :: u in r.units <==> 1 <= u <= total
    ensures input != MarkAllToken ==>
      (r.rejected <==> exists t :: t in Tokens(input) && parse(t).None?)
    ensures input != MarkAllToken && r.rejected ==> r.units == completed
    ensures input != MarkAllToken && !r.rejected ==>
      forall u :: u in r.units <==> u in completed || (1 <= u <= total && Mentions(input, u, parse))
    ensures input != MarkAllToken ==> |completed| <= |r.units| && r.units[..|completed|] == completed
    ensures WithinUnits(completed, total) ==> WithinUnits(r.units, total)
    ensures NoDup(completed) ==> NoDup(r.units)
  {
    if input == MarkAllToken then
      Marking(AllUnits(total), false)
    else
      var tokens := Tokens(input);
      ParseAllByMembership(tokens, parse);
      match ParseAll(tokens, parse)
      case None =>
        Marking(completed, true)
      case Some(newUnits) =>
        var r := MergeUnits(completed, newUnits, total);
        WithinAfterPrefix(completed, r, total);
        Marking(r, false)
  }

  // ---------------------------------------------------------------------
  // Counting completed units

  lemma {:induction false} NoDupCount(s: seq<int>)
    requires NoDup(s)
    ensures |Elements(s)| == |s|
    decreases |s|
  {
    if s != [] {
      var init := s[..|s| - 1];
      NoDupCount(init);
      assert s == init + [s[|s| - 1]];
      assert Elements(s) == Elements(init) + {s[|s| - 1]};
    }
  }

  /** A repeat-free list of units of 1..total has at most total entries. */
  lemma CompletedCountBound(s: seq<int>, total: int)
    requires NoDup(s) && WithinUnits(s, total)
    ensures |s| <= if total > 0 then total else 0
  {
    var all := AllUnits(total);
    NoDupCount(s);
    NoDupCount(all);
    assert Elements(s) <= Elements(all);
    assert |Elements(all)| == |Elements(s)| + |Elements(all) - Elements(s)|;
  }
}
