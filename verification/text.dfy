/** Splitting the unit-list input on commas, as Python's `str.split(sep)`
    does with an explicit separator: every separator ends a piece, so the
    empty string gives one empty piece and "1,,2" gives an empty middle one. */
module Text {

  /** The pieces of `s` between separators, in order. */
  function Split(s: string, sep: char): (pieces: seq<string>)
    ensures |pieces| >= 1
    ensures forall i :: 0 <= i < |pieces| ==> sep !in pieces[i]
    ensures Join(pieces, sep) == s
    decreases |s|
  {
    if s == [] then [[]]
    else
      var rest := Split(s[1..], sep);
      if s[0] == sep then
        assert ([[]] + rest)[1..] == rest;
        [[]] + rest
      else
        assert s == [s[0]] + s[1..];
        assert ([[s[0]] + rest[0]] + rest[1..])[1..] == rest[1..];
        [[s[0]] + rest[0]] + rest[1..]
  }

  /** The pieces glued back together with one separator between each two:
      `sep.join(pieces)`. */
  function Join(pieces: seq<string>, sep: char): string
    requires |pieces| >= 1
    decreases |pieces|
  {
    if |pieces| == 1 then pieces[0] else pieces[0] + [sep] + Join(pieces[1..], sep)
  }

  /** A separator-free prefix stays glued to the first piece of what follows. */
  lemma {:induction false} SplitAfterPrefix(p: string, t: string, sep: char)
    requires sep !in p
    ensures Split(p + t, sep) == [p + Split(t, sep)[0]] + Split(t, sep)[1..]
    decreases |p|
  {
    if p != [] {
      assert (p + t)[1..] == p[1..] + t;
      assert p + t != [];
      SplitAfterPrefix(p[1..], t, sep);
      assert [p[0]] + (p[1..] + Split(t, sep)[0]) == p + Split(t, sep)[0];
    } else {
      var r := Split(t, sep);
      assert p + t == t && p + r[0] == r[0];
      assert [r[0]] + r[1..] == r;
    }
  }

  /** A leading separator ends an empty first piece. */
  lemma SplitAfterSeparator(t: string, sep: char)
    ensures Split([sep] + t, sep) == [[]] + Split(t, sep)
  {
    assert ([sep] + t)[1..] == t;
  }

  /** Joining two or more pieces puts the first before a separator and
      the join of the rest. */
  lemma JoinFirst(pieces: seq<string>, sep: char)
    requires |pieces| >= 2
    ensures Join(pieces, sep) == pieces[0] + ([sep] + Join(pieces[1..], sep))
  {
    assert pieces[0] + [sep] + Join(pieces[1..], sep) == pieces[0] + ([sep] + Join(pieces[1..], sep));
  }

  /** Joining separator-free pieces and splitting again gives the pieces
      back: with `Split`'s own contract, the two are inverse. */
  lemma {:induction false} SplitJoin(pieces: seq<string>, sep: char)
    requires |pieces| >= 1
    requires forall i :: 0 <= i < |pieces| ==> sep !in pieces[i]
    ensures Split(Join(pieces, sep), sep) == pieces
    decreases |pieces|
  {
    var p := pieces[0];
    if |pieces| == 1 {
      SplitAfterPrefix(p, [], sep);
      assert p + [] == p;
    } else {
      var rest := pieces[1..];
      var t := Join(rest, sep);
      JoinFirst(pieces, sep);
      SplitJoin(rest, sep);
      SplitAfterSeparator(t, sep);
      var u := Split([sep] + t, sep);
      assert u[0] == [] && u[1..] == rest;
      SplitAfterPrefix(p, [sep] + t, sep);
      assert p + u[0] == p;
      assert [p] + rest == pieces;
    }
  }
}
