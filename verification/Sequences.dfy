/** Lists without repetition and the sizes of finite sets. */
module Sequences {

  ghost predicate NoDup(l: seq<nat>) {
    forall i, j :: 0 <= i < j < |l| ==> l[i] != l[j]
  }

  ghost function SetOf(l: seq<nat>): set<nat> { set x | x in l }

  lemma NoDupCons(x: nat, l: seq<nat>)
    requires NoDup(l) && x !in l
    ensures NoDup([x] + l)
  {
    var r := [x] + l;
    forall i, j | 0 <= i < j < |r| ensures r[i] != r[j] {
      assert r[j] == l[j - 1];
    }
  }

  lemma {:induction false} NoDupCard(l: seq<nat>)
    requires NoDup(l)
    ensures |SetOf(l)| == |l|
  {
    if l != [] {
      var rest := l[1..];
      assert forall i, j :: 0 <= i < j < |rest| ==> rest[i] == l[i + 1] && rest[j] == l[j + 1];
      NoDupCard(rest);
      assert SetOf(l) == SetOf(rest) + {l[0]};
      assert l[0] !in rest;
    }
  }

  /** A subset is no larger, and the same set if it is as large. */
  lemma {:induction false} SubsetCard(a: set<nat>, b: set<nat>)
    requires a <= b
    ensures |a| <= |b| && (|a| == |b| ==> a == b)
    decreases |a|
  {
    if a == {} {
      assert |b| == 0 ==> b == {};
    } else {
      var x :| x in a;
      SubsetCard(a - {x}, b - {x});
      assert a == a - {x} + {x} && b == b - {x} + {x};
    }
  }

  lemma {:induction false} BelowCard(s: set<nat>, n: nat)
    requires forall x :: x in s ==> x < n
    ensures |s| <= n
  {
    if n > 0 {
      BelowCard(s - {n - 1}, n - 1);
    } else {
      assert s == {};
    }
  }
}
