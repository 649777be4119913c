/** Order-preserving selection from a sequence: the shape of a loop that walks
    a list in order and keeps some of its elements. */
module Sequences {

  /** The elements of `s` that satisfy `p`, in their order in `s`. */
  function Filter<T>(s: seq<T>, p: T -> bool): (r: seq<T>)
    ensures |r| <= |s|
    ensures forall x :: x in r ==> x in s && p(x)
  {
    if s == [] then [] else Filter(s[..|s| - 1], p) + (if p(s[|s| - 1]) then [s[|s| - 1]] else [])
  }

  /** The indices of the elements of `s` that satisfy `p`, ascending. */
  function Positions<T>(s: seq<T>, p: T -> bool): seq<nat> {
    if s == [] then [] else Positions(s[..|s| - 1], p) + (if p(s[|s| - 1]) then [|s| - 1] else [])
  }

  lemma {:induction false} FilterAppend<T>(a: seq<T>, b: seq<T>, p: T -> bool)
    ensures Filter(a + b, p) == Filter(a, p) + Filter(b, p)
  {
    if b != [] {
      assert (a + b)[..|a + b| - 1] == a + b[..|b| - 1];
      FilterAppend(a, b[..|b| - 1], p);
    } else {
      assert a + b == a;
    }
  }

  /** Every element of `s` satisfying `p` is kept. */
  lemma {:induction false} FilterMember<T>(s: seq<T>, p: T -> bool, x: T)
    ensures x in Filter(s, p) <==> x in s && p(x)
  {
    if s != [] {
      FilterMember(s[..|s| - 1], p, x);
      assert s == s[..|s| - 1] + [s[|s| - 1]];
    }
  }

  lemma FilterSingle<T>(x: T, p: T -> bool)
    ensures Filter([x], p) == if p(x) then [x] else []
  {
    assert [x][..0] == [];
  }

  /** `Filter` keeps exactly the elements satisfying `p`, in their original
      order: the k-th kept element is `s[Positions(s, p)[k]]`, the positions
      strictly increase, and every index whose element satisfies `p` is among
      them. */
  lemma FilterPositions<T>(s: seq<T>, p: T -> bool)
    ensures var pos := Positions(s, p);
      && |pos| == |Filter(s, p)|
      && (forall k :: 0 <= k < |pos| ==> pos[k] < |s| && p(s[pos[k]]) && Filter(s, p)[k] == s[pos[k]])
      && (forall k, m :: 0 <= k < m < |pos| ==> pos[k] < pos[m])
      && (forall i :: 0 <= i < |s| && p(s[i]) ==> i in pos)
  {
    PositionsSelect(s, p);
    PositionsIncrease(s, p);
    PositionsComplete(s, p);
  }

  lemma {:induction false} PositionsSelect<T>(s: seq<T>, p: T -> bool)
    ensures var pos := Positions(s, p);
      && |pos| == |Filter(s, p)|
      && (forall k :: 0 <= k < |pos| ==> pos[k] < |s| && p(s[pos[k]]) && Filter(s, p)[k] == s[pos[k]])
  {
    if s != [] {
      var init := s[..|s| - 1];
      PositionsSelect(init, p);
      var pos0, kept0 := Positions(init, p), Filter(init, p);
      forall k | 0 <= k < |pos0| ensures init[pos0[k]] == s[pos0[k]] { }
    }
  }

  lemma {:induction false} PositionsIncrease<T>(s: seq<T>, p: T -> bool)
    ensures forall k :: 0 <= k < |Positions(s, p)| ==> Positions(s, p)[k] < |s|
    ensures forall k, m :: 0 <= k < m < |Positions(s, p)| ==> Positions(s, p)[k] < Positions(s, p)[m]
  {
    if s != [] {
      var init := s[..|s| - 1];
      PositionsIncrease(init, p);
      var pos0 := Positions(init, p);
      var pos := pos0 + (if p(s[|s| - 1]) then [|s| - 1] else []);
      assert Positions(s, p) == pos;
      forall k | 0 <= k < |pos| ensures pos[k] < |s| {
        if k < |pos0| {
          assert pos[k] == pos0[k] && pos0[k] < |init|;
        } else {
          assert pos[k] == |s| - 1;
        }
      }
      forall k, m | 0 <= k < m < |pos| ensures pos[k] < pos[m] {
        assert pos[k] == pos0[k] && pos0[k] < |init|;
        if m < |pos0| {
          assert pos[m] == pos0[m];
        } else {
          assert pos[m] == |s| - 1;
        }
      }
    }
  }

  lemma {:induction false} PositionsComplete<T>(s: seq<T>, p: T -> bool)
    ensures forall i :: 0 <= i < |s| && p(s[i]) ==> i in Positions(s, p)
  {
    if s != [] {
      var init := s[..|s| - 1];
      PositionsComplete(init, p);
      forall i | 0 <= i < |init| ensures init[i] == s[i] { }
    }
  }

  /** Elements of a prefix contribute a prefix of the selection. */
  lemma FilterPrefix<T>(s: seq<T>, n: nat, p: T -> bool)
    requires n <= |s|
    ensures Filter(s[..n], p) <= Filter(s, p)
  {
    assert s == s[..n] + s[n..];
    FilterAppend(s[..n], s[n..], p);
  }

  /** Every element is kept by exactly one of `p` and its negation. */
  lemma {:induction false} FilterComplement<T>(s: seq<T>, p: T -> bool, q: T -> bool)
    requires forall x :: q(x) == !p(x)
    ensures multiset(Filter(s, p)) + multiset(Filter(s, q)) == multiset(s)
  {
    if s != [] {
      var init, last := s[..|s| - 1], s[|s| - 1];
      FilterComplement(init, p, q);
      MultisetAddLast(Filter(init, p), Filter(init, q), init, last);
      AppendEmpty(Filter(init, p));
      AppendEmpty(Filter(init, q));
      assert s == init + [last];
    }
  }

  lemma AppendEmpty<T>(a: seq<T>)
    ensures a + [] == a
  {
  }

  lemma MultisetAddLast<T>(a: seq<T>, b: seq<T>, c: seq<T>, x: T)
    requires multiset(a) + multiset(b) == multiset(c)
    ensures multiset(a + [x]) + multiset(b) == multiset(c + [x])
    ensures multiset(a) + multiset(b + [x]) == multiset(c + [x])
  {
  }

  /** A position at which `x` occurs in `s`. */
  function IndexOf<T(==)>(s: seq<T>, x: T): (k: nat)
    requires x in s
    ensures k < |s| && s[k] == x
  {
    if s[0] == x then 0 else 1 + IndexOf(s[1..], x)
  }

  /** Some element of `s` satisfies `q`. */
  ghost predicate AnySatisfies<T>(s: seq<T>, q: T -> bool) {
    exists i :: 0 <= i < |s| && q(s[i])
  }

  lemma AnySatisfiesStep<T>(s: seq<T>, q: T -> bool)
    requires s != []
    ensures AnySatisfies(s, q) <==> AnySatisfies(s[..|s| - 1], q) || q(s[|s| - 1])
  {
    var init := s[..|s| - 1];
    if AnySatisfies(s, q) {
      var i :| 0 <= i < |s| && q(s[i]);
      if i < |init| {
        assert init[i] == s[i];
      }
    }
    if AnySatisfies(init, q) {
      var i :| 0 <= i < |init| && q(init[i]);
      assert init[i] == s[i];
    }
  }
}
