/**
 * An ordered table of (test, code) rules evaluated first-match-wins with a
 * default: the shape of both the disposition phrase table and the per-justice
 * vote cues.
 */
module OrderedRules {

  /** The code of the first rule whose test holds, else `default`. */
  function FirstCode<P>(table: seq<(P, int)>, holds: P -> bool, default: int): (code: int)
    ensures code == default || exists i :: 0 <= i < |table| && table[i].1 == code
    decreases |table|
  {
    if table == [] then default
    else if holds(table[0].0) then table[0].1
    else
      var rest := FirstCode(table[1..], holds, default);
      assert rest != default ==> exists i :: 1 <= i < |table| && table[i].1 == rest by {
        if rest != default {
          var j :| 0 <= j < |table[1..]| && table[1..][j].1 == rest;
          assert table[j + 1].1 == rest;
        }
      }
      rest
  }

  /** The rule at `i` wins when its test holds and no earlier test does. */
  lemma {:induction false} FirstHitWins<P>(table: seq<(P, int)>, holds: P -> bool, default: int, i: int)
    requires 0 <= i < |table| && holds(table[i].0)
    requires forall j :: 0 <= j < i ==> !holds(table[j].0)
    ensures FirstCode(table, holds, default) == table[i].1
    decreases i
  {
    if i > 0 {
      assert !holds(table[0].0);
      FirstHitWins(table[1..], holds, default, i - 1);
    }
  }

  /** With no test holding, the default is returned. */
  lemma {:induction false} NoHitDefault<P>(table: seq<(P, int)>, holds: P -> bool, default: int)
    requires forall j :: 0 <= j < |table| ==> !holds(table[j].0)
    ensures FirstCode(table, holds, default) == default
    decreases |table|
  {
    if table != [] {
      assert !holds(table[0].0);
      NoHitDefault(table[1..], holds, default);
    }
  }

  /** Index of the first rule whose test holds, or |table| when none does. */
  function FirstHit<P>(table: seq<(P, int)>, holds: P -> bool): (i: nat)
    ensures i <= |table|
    ensures i < |table| ==> holds(table[i].0)
    ensures forall j :: 0 <= j < i ==> !holds(table[j].0)
    decreases |table|
  {
    if table == [] then 0
    else if holds(table[0].0) then 0
    else 1 + FirstHit(table[1..], holds)
  }

  /**
   * Converse of the two lemmas above: the result is either the code of the
   * first rule that holds, or the default, and then no rule holds.
   */
  lemma FirstCodeIsFirstHit<P>(table: seq<(P, int)>, holds: P -> bool, default: int)
    ensures var i := FirstHit(table, holds);
      FirstCode(table, holds, default) == if i < |table| then table[i].1 else default
  {
    var i := FirstHit(table, holds);
    if i < |table| {
      FirstHitWins(table, holds, default, i);
    } else {
      NoHitDefault(table, holds, default);
    }
  }

  /** A rule that holds bounds the winner: no later rule can win. */
  lemma HitBoundsWinner<P>(table: seq<(P, int)>, holds: P -> bool, default: int, i: int)
    requires 0 <= i < |table| && holds(table[i].0)
    ensures FirstHit(table, holds) <= i
    ensures FirstCode(table, holds, default) == table[FirstHit(table, holds)].1
  {
    FirstCodeIsFirstHit(table, holds, default);
  }
}
