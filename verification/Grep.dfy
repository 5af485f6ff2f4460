/** grep.c's matcher against the meaning of its patterns: a literal or '.', either one starred, '^' at the
    front and '$' at the end. */
module Grep {
  /** C strings: no NUL inside. */
  type Text = s: string | '\0' !in s

  datatype Item = One(c: char) | Star(c: char) | End

  /** How a pattern reads, after a leading '^': a star binds before anything else, so "$*" is a starred
      dollar, and a star with nothing in front of it is a literal. */
  function Items(re: Text): seq<Item> {
    if re == "" then []
    else if |re| > 1 && re[1] == '*' then [Star(re[0])] + Items(re[2..])
    else if re == "$" then [End]
    else [One(re[0])] + Items(re[1..])
  }

  predicate Accepts(c: char, x: char) {
    c == '.' || c == x
  }

  /** The item matches the stretch of text from i to j. */
  predicate Stretch(item: Item, text: Text, i: nat, j: nat) {
    && i <= j <= |text|
    && match item
       case One(c) => j == i + 1 && Accepts(c, text[i])
       case Star(c) => forall k :: i <= k < j ==> Accepts(c, text[k])
       case End => i == j == |text|
  }

  /** The text from cuts[0] to the last cut is the concatenation of what the items match. */
  predicate Splits(items: seq<Item>, text: Text, cuts: seq<nat>) {
    && |cuts| == |items| + 1 && cuts[0] <= |text|
    && forall k :: 0 <= k < |items| ==> Stretch(items[k], text, cuts[k], cuts[k + 1])
  }

  /** The meaning of the items at position i. */
  ghost predicate Here(items: seq<Item>, text: Text, i: nat) {
    exists cuts :: Splits(items, text, cuts) && cuts[0] == i
  }

  /** The meaning of a pattern: it matches at the beginning if it starts with '^', and otherwise somewhere,
      the empty string at the end included. */
  ghost predicate Matches(re: Text, text: Text) {
    if |re| > 0 && re[0] == '^' then Here(Items(re[1..]), text, 0)
    else exists i: nat :: Here(Items(re), text, i)
  }

  // ------------------------------------------------------------ one item at a time

  lemma {:induction false} HereNone(text: Text, i: nat)
    requires i <= |text|
    ensures Here([], text, i)
  {
    assert Splits([], text, [i]);
  }

  lemma {:induction false} HereInside(items: seq<Item>, text: Text, i: nat)
    requires Here(items, text, i)
    ensures i <= |text|
  {
  }

  /** A first item takes a stretch and the rest match from its end. */
  lemma {:induction false} HereFirst(item: Item, rest: seq<Item>, text: Text, i: nat)
    ensures Here([item] + rest, text, i) <==> exists j: nat :: Stretch(item, text, i, j) && Here(rest, text, j)
  {
    var items := [item] + rest;
    if Here(items, text, i) {
      var cuts :| Splits(items, text, cuts) && cuts[0] == i;
      assert Stretch(items[0], text, cuts[0], cuts[1]);
      forall k | 0 <= k < |rest| ensures Stretch(rest[k], text, cuts[1..][k], cuts[1..][k + 1]) {
        assert Stretch(items[k + 1], text, cuts[k + 1], cuts[k + 2]);
      }
      assert Splits(rest, text, cuts[1..]);
      assert Stretch(item, text, i, cuts[1]) && Here(rest, text, cuts[1]);
    }
    if j: nat :| Stretch(item, text, i, j) && Here(rest, text, j) {
      var cuts :| Splits(rest, text, cuts) && cuts[0] == j;
      forall k | 0 <= k < |items| ensures Stretch(items[k], text, ([i] + cuts)[k], ([i] + cuts)[k + 1]) {
        assert k > 0 ==> Stretch(rest[k - 1], text, cuts[k - 1], cuts[k]);
      }
      assert Splits(items, text, [i] + cuts);
    }
  }

  // ------------------------------------------------------------ the matcher

  function Char(s: Text, i: nat): char {
    if i < |s| then s[i] else '\0'
  }

  /** matchstar; `t` is the text pointer. */
  method MatchStar(c: char, re: Text, text: Text, i: nat) returns (b: bool)
    requires i <= |text|
    ensures b <==> Here([Star(c)] + Items(re), text, i)
    decreases |re|, 1
  {
    HereFirst(Star(c), Items(re), text, i);
    var t := i;
    while true
      invariant i <= t <= |text| && Stretch(Star(c), text, i, t)
      invariant forall j: nat :: i <= j < t ==> !Here(Items(re), text, j)
      decreases |text| - t
    {
      b := MatchHere(re, text, t);
      if b {
        return;
      }
      if !(Char(text, t) != '\0' && (Char(text, t) == c || c == '.')) {
        break;
      }
      t := t + 1;
    }
    forall j: nat | Stretch(Star(c), text, i, j) ensures j <= t {
      assert t < j ==> Accepts(c, text[t]);
    }
    return false;
  }

  method MatchHere(re: Text, text: Text, i: nat) returns (b: bool)
    requires i <= |text|
    ensures b <==> Here(Items(re), text, i)
    decreases |re|, 0
  {
    if Char(re, 0) == '\0' {
      HereNone(text, i);
      return true;
    }
    if Char(re, 1) == '*' {
      b := MatchStar(re[0], re[2..], text, i);
      return;
    }
    if re[0] == '$' && Char(re, 1) == '\0' {
      HereFirst(End, [], text, i);
      HereNone(text, |text|);
      return Char(text, i) == '\0';
    }
    HereFirst(One(re[0]), Items(re[1..]), text, i);
    if Char(text, i) != '\0' && (re[0] == '.' || re[0] == Char(text, i)) {
      assert Stretch(One(re[0]), text, i, i + 1);
      b := MatchHere(re[1..], text, i + 1);
      return;
    }
    return false;
  }

  /** match says yes exactly when the pattern's meaning holds. */
  method Match(re: Text, text: Text) returns (b: bool)
    ensures b <==> Matches(re, text)
  {
    if Char(re, 0) == '^' {
      b := MatchHere(re[1..], text, 0);
      return;
    }
    var t := 0;
    while true
      invariant 0 <= t <= |text|
      invariant forall j: nat :: j < t ==> !Here(Items(re), text, j)
      decreases |text| - t
    {
      b := MatchHere(re, text, t);
      if b {
        return;
      }
      if Char(text, t) == '\0' {
        break;
      }
      t := t + 1;
    }
    forall j: nat | Here(Items(re), text, j) ensures false {
      HereInside(Items(re), text, j);
    }
    return false;
  }
}
