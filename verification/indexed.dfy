/** Removing entities from an ordered group by position, as `Sprite.kill()` does. */
module Indexed {

  /** The positions of a sequence of length `n`. */
  function Below(n: nat): (r: set<nat>)
    ensures forall j: nat :: j in r <==> j < n
    ensures |r| == n
  {
    if n == 0 then {} else Below(n - 1) + {n - 1}
  }

  /** `s` with the elements at the positions in `gone` removed, scanning from the front. */
  function Without<T>(s: seq<T>, gone: set<nat>): (r: seq<T>)
    ensures |r| <= |s|
    ensures forall x :: x in r ==> x in s
    ensures forall j :: 0 <= j < |s| && j !in gone ==> s[j] in r
    ensures gone * Below(|s|) == {} ==> r == s
    decreases |s|
  {
    if |s| == 0 then []
    else
      var n := |s| - 1;
      var init := s[..n];
      var rest := Without(init, gone);
      var last := if n in gone then [] else [s[n]];
      StepMembers(s, init, rest, last);
      StepKeeps(s, gone, init, rest, last);
      StepUntouched(s, gone, init, rest, last);
      rest + last
  }

  /** Nothing new appears when the last position is considered. */
  lemma StepMembers<T>(s: seq<T>, init: seq<T>, rest: seq<T>, last: seq<T>)
    requires |s| > 0 && init == s[..|s| - 1]
    requires forall x :: x in rest ==> x in init
    requires last == [] || last == [s[|s| - 1]]
    ensures forall x :: x in rest + last ==> x in s
  {
    forall x | x in rest + last ensures x in s {
      if x in rest {
        var k :| 0 <= k < |init| && init[k] == x;
        assert s[k] == x;
      } else {
        assert x in last;
      }
    }
  }

  /** Every kept position of `s`, including the last, is still present. */
  lemma StepKeeps<T>(s: seq<T>, gone: set<nat>, init: seq<T>, rest: seq<T>, last: seq<T>)
    requires |s| > 0 && init == s[..|s| - 1]
    requires forall j :: 0 <= j < |init| && j !in gone ==> init[j] in rest
    requires last == if |s| - 1 in gone then [] else [s[|s| - 1]]
    ensures forall j :: 0 <= j < |s| && j !in gone ==> s[j] in rest + last
  {
    forall j | 0 <= j < |s| && j !in gone ensures s[j] in rest + last {
      if j < |init| {
        assert s[j] == init[j];
        assert s[j] in rest;
      } else {
        assert last == [s[j]];
      }
    }
  }

  /** Removing no existing position leaves `s` as it was. */
  lemma StepUntouched<T>(s: seq<T>, gone: set<nat>, init: seq<T>, rest: seq<T>, last: seq<T>)
    requires |s| > 0 && init == s[..|s| - 1]
    requires gone * Below(|init|) == {} ==> rest == init
    requires last == if |s| - 1 in gone then [] else [s[|s| - 1]]
    ensures gone * Below(|s|) == {} ==> rest + last == s
  {
    if gone * Below(|s|) == {} {
      assert |s| - 1 in Below(|s|);
      assert Below(|init|) <= Below(|s|);
      assert rest == init && last == [s[|s| - 1]];
      assert s == init + [s[|s| - 1]];
    }
  }

  /** Exactly one element disappears for every removed position that exists. */
  lemma {:induction false} WithoutSize<T>(s: seq<T>, gone: set<nat>)
    ensures |Without(s, gone)| == |s| - |gone * Below(|s|)|
    decreases |s|
  {
    if |s| > 0 {
      var n := |s| - 1;
      var init := s[..n];
      WithoutSize(init, gone);
      BelowStep(gone, |s|);
      assert |init| == n;
      assert Without(s, gone) == Without(init, gone) + (if n in gone then [] else [s[n]]);
    } else {
      assert gone * Below(0) == {};
    }
  }

  /** Extending the positions by one more, `m - 1`, adds it to those removed iff it is in `gone`. */
  lemma BelowStep(gone: set<nat>, m: nat)
    requires m > 0
    ensures |gone * Below(m)| == |gone * Below(m - 1)| + (if m - 1 in gone then 1 else 0)
  {
    var kept := gone * Below(m - 1);
    assert m - 1 !in kept;
    if m - 1 in gone {
      assert gone * Below(m) == kept + {m - 1};
    } else {
      assert gone * Below(m) == kept;
    }
  }

  /** The members of `S` below `n`, in increasing order. */
  function Members(S: set<nat>, n: nat): (r: seq<nat>)
    ensures forall j :: j in r <==> j in S && j < n
    ensures forall a, b :: 0 <= a < b < |r| ==> r[a] < r[b]
  {
    if n == 0 then []
    else
      var r := Members(S, n - 1);
      assert forall k :: 0 <= k < |r| ==> r[k] < n - 1 by {
        forall k | 0 <= k < |r| ensures r[k] < n - 1 { assert r[k] in r; }
      }
      r + (if n - 1 in S then [n - 1] else [])
  }
}
