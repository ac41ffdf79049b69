/**
  Sequences without duplicates and what is left of them when elements go: the rings, chains and
  block lists of the other modules.
 */
module Distinct {

  /** The i-th element has not occurred before. */
  ghost predicate FirstAt(s: seq<nat>, i: int)
    requires 0 <= i < |s|
  {
    forall j {:trigger s[j]} | 0 <= j < i :: s[j] != s[i]
  }

  ghost predicate NoDup(s: seq<nat>) {
    forall i {:trigger FirstAt(s, i)} | 0 <= i < |s| :: FirstAt(s, i)
  }

  lemma {:induction false} Different(s: seq<nat>, i: nat, j: nat)
    requires NoDup(s) && i < |s| && j < |s| && i != j
    ensures s[i] != s[j]
  {
    assert FirstAt(s, i) && FirstAt(s, j);
  }

  /** A sequence that picks elements of s at increasing positions has no duplicates either. */
  lemma {:induction false} NoDupCut(s: seq<nat>, i: nat, n: nat)
    requires NoDup(s) && i <= n <= |s|
    ensures NoDup(s[..i] + s[n..])
  {
    var r := s[..i] + s[n..];
    forall j | 0 <= j < |r| ensures FirstAt(r, j) {
      assert FirstAt(s, if j < i then j else j - i + n);
      assert forall l {:trigger r[l]} | 0 <= l < j :: r[l] == s[if l < i then l else l - i + n];
    }
  }

  lemma {:induction false} NoDupTail(s: seq<nat>)
    requires NoDup(s) && s != []
    ensures NoDup(s[1..]) && s[0] !in s[1..]
  {
    NoDupCut(s, 0, 1);
    assert s[..0] + s[1..] == s[1..];
    forall i | 1 <= i < |s| ensures s[i] != s[0] {
      Different(s, 0, i);
    }
  }

  lemma {:induction false} NoDupFront(s: seq<nat>)
    requires NoDup(s) && s != []
    ensures NoDup(s[..|s| - 1]) && s[|s| - 1] !in s[..|s| - 1]
  {
    var n := |s| - 1;
    NoDupCut(s, n, |s|);
    assert s[..n] + s[|s|..] == s[..n];
    assert FirstAt(s, n);
  }

  lemma {:induction false} NoDupSnoc(s: seq<nat>, a: nat)
    requires NoDup(s) && a !in s
    ensures NoDup(s + [a])
  {
    var r := s + [a];
    forall j | 0 <= j < |r| ensures FirstAt(r, j) {
      assert j < |s| ==> FirstAt(s, j);
      assert forall m {:trigger r[m]} | 0 <= m < |s| :: r[m] == s[m];
    }
  }

  lemma {:induction false} NoDupCons(a: nat, s: seq<nat>)
    requires NoDup(s) && a !in s
    ensures NoDup([a] + s)
  {
    var r := [a] + s;
    forall j | 0 <= j < |r| ensures FirstAt(r, j) {
      assert j > 0 ==> FirstAt(s, j - 1);
      assert forall m {:trigger r[m]} | 1 <= m < |r| :: r[m] == s[m - 1];
    }
  }

  /** The sequence without the element a. */
  function Remove(s: seq<nat>, a: nat): (r: seq<nat>)
    ensures forall x {:trigger x in r} :: x in r <==> x in s && x != a
  {
    if s == [] then [] else if s[0] == a then Remove(s[1..], a) else [s[0]] + Remove(s[1..], a)
  }

  lemma {:induction false} RemoveCons(x: nat, s: seq<nat>, a: nat)
    ensures Remove([x] + s, a) == (if x == a then [] else [x]) + Remove(s, a)
  {
    assert ([x] + s)[1..] == s;
  }

  lemma {:induction false} RemoveConcat(s: seq<nat>, t: seq<nat>, a: nat)
    ensures Remove(s + t, a) == Remove(s, a) + Remove(t, a)
  {
    if s == [] {
      assert s + t == t;
    } else {
      assert (s + t)[1..] == s[1..] + t;
      RemoveConcat(s[1..], t, a);
    }
  }

  lemma {:induction false} RemoveAbsent(s: seq<nat>, a: nat)
    requires a !in s
    ensures Remove(s, a) == s
  {
    if s != [] {
      RemoveAbsent(s[1..], a);
    }
  }

  lemma {:induction false} RemoveAt(s: seq<nat>, i: nat)
    requires NoDup(s) && i < |s|
    ensures Remove(s, s[i]) == s[..i] + s[i + 1..]
  {
    NoDupTail(s);
    if i == 0 {
      RemoveAbsent(s[1..], s[0]);
    } else {
      RemoveAt(s[1..], i - 1);
      assert s[1..][i - 1] == s[i];
      assert s[..i] + s[i + 1..] == [s[0]] + (s[1..][..i - 1] + s[1..][i..]);
    }
  }

  /** The sequence without the elements of a set, in order. */
  ghost function Minus(s: seq<nat>, gone: set<nat>): seq<nat> {
    if s == [] then [] else (if s[0] in gone then [] else [s[0]]) + Minus(s[1..], gone)
  }

  lemma {:induction false} MinusNothing(s: seq<nat>)
    ensures Minus(s, {}) == s
  {
    if s != [] {
      MinusNothing(s[1..]);
    }
  }

  lemma {:induction false} MinusRemove(s: seq<nat>, gone: set<nat>, a: nat)
    ensures Remove(Minus(s, gone), a) == Minus(s, gone + {a})
  {
    if s != [] {
      MinusRemove(s[1..], gone, a);
      if s[0] in gone {
        assert Minus(s, gone) == Minus(s[1..], gone);
      } else {
        RemoveCons(s[0], Minus(s[1..], gone), a);
      }
    }
  }

  lemma {:induction false} MinusMinus(s: seq<nat>, a: set<nat>, b: set<nat>)
    ensures Minus(Minus(s, a), b) == Minus(s, a + b)
  {
    if s != [] {
      MinusMinus(s[1..], a, b);
      var rest := Minus(s[1..], a);
      if s[0] in a {
        assert Minus(s, a) == rest;
      } else {
        assert ([s[0]] + rest)[1..] == rest;
      }
    }
  }

  lemma {:induction false} MinusMember(s: seq<nat>, gone: set<nat>, x: nat)
    ensures x in Minus(s, gone) <==> x in s && x !in gone
  {
    if s != [] {
      MinusMember(s[1..], gone, x);
      assert s == [s[0]] + s[1..];
    }
  }

  /** The elements of a sequence that are in a set. */
  ghost function Among(s: seq<nat>, gone: set<nat>): set<nat> {
    set a | a in s && a in gone
  }

  /** Part by part, in order. */
  lemma {:induction false} MinusParts(s: seq<nat>, s': seq<nat>, gone: set<nat>)
    ensures Minus(s + s', gone) == Minus(s, gone) + Minus(s', gone)
  {
    if s == [] {
      assert s + s' == s';
    } else {
      MinusParts(s[1..], s', gone);
      assert (s + s')[1..] == s[1..] + s' && (s + s')[0] == s[0];
      var x := if s[0] in gone then [] else [s[0]];
      assert x + (Minus(s[1..], gone) + Minus(s', gone)) == x + Minus(s[1..], gone) + Minus(s', gone);
    }
  }

  /** Exactly what the set holds goes. */
  lemma {:induction false} MinusOne(x: nat, gone: set<nat>)
    ensures Minus([x], gone) == if x in gone then [] else [x]
  {
    assert [x][1..] == [];
  }
}
