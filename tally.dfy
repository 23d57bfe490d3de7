/** Winner selection over decoded amounts, as a reference definition that
    does not follow either loop: the highest amount (-1 when there is none)
    and the first position that holds it. */
module Tally {

  /** The largest amount, or -1 for no amounts (the initial value both
      loops give their running best). */
  function Highest(s: seq<nat>): (m: int)
    ensures m == -1 <==> s == []
    ensures forall i :: 0 <= i < |s| ==> s[i] <= m
    ensures s != [] ==> m in s
  {
    if s == [] then -1
    else
      var rest := Highest(s[1..]);
      if s[0] >= rest then s[0] else rest
  }

  /** The first position at which v occurs. */
  function FirstIndex(s: seq<nat>, v: nat): (k: nat)
    requires v in s
    ensures k < |s| && s[k] == v
    ensures forall j :: 0 <= j < k ==> s[j] != v
  {
    if s[0] == v then 0 else 1 + FirstIndex(s[1..], v)
  }

  /** The winning position: it holds the highest amount, and every earlier
      position holds strictly less, so ties go to the first bidder. */
  function WinnerIndex(s: seq<nat>): (k: nat)
    requires s != []
    ensures k < |s| && s[k] == Highest(s)
    ensures forall j :: 0 <= j < |s| ==> s[j] <= s[k]
    ensures forall j :: 0 <= j < k ==> s[j] < s[k]
  {
    FirstIndex(s, Highest(s))
  }

  /** Appending an amount raises the highest exactly when it is strictly larger. */
  lemma HighestSnoc(s: seq<nat>, x: nat)
    ensures Highest(s + [x]) == if x > Highest(s) then x else Highest(s)
  {
    var t := s + [x];
    var m := Highest(t);
    assert t[|s|] == x;
    assert forall i :: 0 <= i < |s| ==> t[i] == s[i];
    if s != [] {
      var k := FirstIndex(s, Highest(s));
      assert t[k] == Highest(s);
    }
    var j := FirstIndex(t, m);
    if j < |s| {
      assert s[j] == m;
    }
  }

  /** An appended amount wins only when strictly larger than every earlier one;
      otherwise the winner stays where it was. */
  lemma WinnerIndexSnoc(s: seq<nat>, x: nat)
    ensures WinnerIndex(s + [x]) == if x > Highest(s) then |s| else WinnerIndex(s)
  {
    var t := s + [x];
    HighestSnoc(s, x);
    var k := WinnerIndex(t);
    assert forall i :: 0 <= i < |s| ==> t[i] == s[i];
    if x <= Highest(s) {
      var w := WinnerIndex(s);
      assert t[w] == Highest(t);
    }
  }

  /** Both directions of "wins": position k is the winner exactly when it holds
      an amount no other position exceeds and no earlier position reaches. */
  lemma WinnerIndexCharacterised(s: seq<nat>, k: nat)
    requires k < |s|
    ensures WinnerIndex(s) == k <==>
      (forall j :: 0 <= j < |s| ==> s[j] <= s[k]) && (forall j :: 0 <= j < k ==> s[j] < s[k])
  {
    var w := WinnerIndex(s);
    if (forall j :: 0 <= j < |s| ==> s[j] <= s[k]) && (forall j :: 0 <= j < k ==> s[j] < s[k]) {
      assert s[w] == s[k];
    }
  }

  /** A tie at the top goes to the first bidder: A 100, B 250, C 250 is won by B. */
  lemma TieGoesToFirst()
    ensures Highest([100, 250, 250]) == 250 && WinnerIndex([100, 250, 250]) == 1
  {
  }

  /** The demo's bids, 100, 250 and 180 in that order, are won by the second. */
  lemma DemoScenario()
    ensures Highest([100, 250, 180]) == 250 && WinnerIndex([100, 250, 180]) == 1
  {
  }
}
