/** Lists without repetition, and taking one element out of them. */
module Lists {
  ghost predicate NoDup(s: seq<nat>)
  {
    forall i, j :: 0 <= i < j < |s| ==> s[i] != s[j]
  }

  /** The list without the first occurrence of `x`. */
  function Without(l: seq<nat>, x: nat): seq<nat>
  {
    if l == [] then [] else if l[0] == x then l[1..] else [l[0]] + Without(l[1..], x)
  }

  /** Taking an element out keeps the others, in a list that still repeats nothing. */
  lemma {:induction false} WithoutOk(l: seq<nat>, x: nat)
    requires NoDup(l)
    ensures NoDup(Without(l, x)) && forall y :: y in Without(l, x) <==> y in l && y != x
    ensures x in l ==> |Without(l, x)| == |l| - 1
  {
    if l != [] {
      assert l == [l[0]] + l[1..];
      WithoutOk(l[1..], x);
      assert forall i :: 0 < i < |l| ==> l[i] == l[1..][i - 1];
      if l[0] != x {
        var r := Without(l[1..], x);
        assert l[0] !in r;
        assert forall i :: 0 < i < |r| + 1 ==> ([l[0]] + r)[i] == r[i - 1];
      }
    }
  }

  lemma NoDupPush(l: seq<nat>, k: nat)
    requires NoDup(l) && k !in l
    ensures NoDup([k] + l) && forall x :: x in [k] + l <==> x in l || x == k
  {
  }

  lemma NoDupSnoc(l: seq<nat>, p: nat)
    requires NoDup(l) && p !in l
    ensures NoDup(l + [p]) && forall x :: x in l + [p] <==> x in l || x == p
  {
  }

  lemma TailNoDup(q: seq<nat>)
    requires NoDup(q) && q != []
    ensures NoDup(q[1..]) && q[0] !in q[1..] && forall x :: x in q <==> x == q[0] || x in q[1..]
  {
    assert forall i :: 0 <= i < |q| - 1 ==> q[1..][i] == q[i + 1];
    assert q == [q[0]] + q[1..];
  }

  ghost function Elems(s: seq<nat>): (e: set<nat>)
    ensures forall x :: x in e <==> x in s
  {
    set x | x in s
  }

  lemma {:induction false} ElemsSize(s: seq<nat>)
    requires NoDup(s)
    ensures |Elems(s)| == |s|
  {
    if s != [] {
      var n := |s| - 1;
      var r := s[..n];
      ElemsSize(r);
      assert s == r + [s[n]];
      assert s[n] !in r;
      assert Elems(s) == Elems(r) + {s[n]};
    } else {
      assert Elems(s) == {};
    }
  }

  /** The numbers below `n`. */
  ghost function Below(n: nat): (e: set<nat>)
    ensures |e| == n && forall x: nat :: x in e <==> x < n
  {
    if n == 0 then {} else Below(n - 1) + {n - 1}
  }

  lemma {:induction false} SubsetSize<T>(a: set<T>, b: set<T>)
    requires a <= b
    ensures |a| <= |b|
    decreases a
  {
    if a != {} {
      var x :| x in a;
      SubsetSize(a - {x}, b - {x});
    }
  }
}
