/** List operations of JavaScript arrays used by the core: `filter` and `splice`. */
module Seqs {
  import opened Wrappers

  /** `s.filter(p)`: the elements of `s` that satisfy `p`, in their original order. */
  function Filter<T(!new)>(s: seq<T>, p: T -> bool): (r: seq<T>)
    ensures |r| <= |s|
    ensures forall k | 0 <= k < |r| :: p(r[k])
    ensures forall x :: multiset(r)[x] == if p(x) then multiset(s)[x] else 0
  {
    if s == [] then []
    else
      assert s == [s[0]] + s[1..];
      (if p(s[0]) then [s[0]] else []) + Filter(s[1..], p)
  }

  /** Concatenation is associative. */
  lemma AppendAssociates<T>(a: seq<T>, b: seq<T>, c: seq<T>)
    ensures (a + b) + c == a + (b + c)
  {
  }

  /** Filtering commutes with concatenation, so filtering never changes the relative order of what it keeps. */
  lemma {:induction false} FilterAppend<T(!new)>(a: seq<T>, b: seq<T>, p: T -> bool)
    ensures Filter(a + b, p) == Filter(a, p) + Filter(b, p)
    decreases |a|
  {
    if a == [] {
      assert a + b == b;
    } else {
      var head := if p(a[0]) then [a[0]] else [];
      assert (a + b)[0] == a[0];
      assert (a + b)[1..] == a[1..] + b;
      FilterAppend(a[1..], b, p);
      AppendAssociates(head, Filter(a[1..], p), Filter(b, p));
    }
  }

  /** Filtering a list whose every element passes leaves it as it is. */
  lemma {:induction false} FilterKeepsAll<T(!new)>(s: seq<T>, p: T -> bool)
    requires forall k | 0 <= k < |s| :: p(s[k])
    ensures Filter(s, p) == s
    decreases |s|
  {
    if s != [] {
      FilterKeepsAll(s[1..], p);
    }
  }

  /** Filtering a list none of whose elements passes gives the empty list. */
  lemma {:induction false} FilterDropsAll<T(!new)>(s: seq<T>, p: T -> bool)
    requires forall k | 0 <= k < |s| :: !p(s[k])
    ensures Filter(s, p) == []
    decreases |s|
  {
    if s != [] {
      FilterDropsAll(s[1..], p);
    }
  }

  /** Filtering by `p` and then by a stronger `q` is filtering by `q` alone. */
  lemma {:induction false} FilterNested<T(!new)>(s: seq<T>, p: T -> bool, q: T -> bool)
    requires forall x :: q(x) ==> p(x)
    ensures Filter(Filter(s, p), q) == Filter(s, q)
    decreases |s|
  {
    if s != [] {
      var x, f := s[0], Filter(s[1..], p);
      FilterNested(s[1..], p, q);
      assert Filter(s, q) == (if q(x) then [x] else []) + Filter(s[1..], q);
      if p(x) {
        var g := [x] + f;
        assert Filter(s, p) == g;
        assert g[0] == x && g[1..] == f;
        assert Filter(g, q) == (if q(x) then [x] else []) + Filter(f, q);
      } else {
        assert Filter(s, p) == [] + f == f;
      }
    }
  }

  /** Two complementary filters split a list into two parts that together hold every element once. */
  lemma FilterPartition<T(!new)>(s: seq<T>, p: T -> bool, q: T -> bool)
    requires forall x :: q(x) == !p(x)
    ensures multiset(Filter(s, p)) + multiset(Filter(s, q)) == multiset(s)
    ensures |Filter(s, p)| + |Filter(s, q)| == |s|
  {
    var a, b := Filter(s, p), Filter(s, q);
    assert forall x :: (multiset(a) + multiset(b))[x] == multiset(s)[x];
    assert multiset(a) + multiset(b) == multiset(s);
    assert |multiset(a) + multiset(b)| == |multiset(s)|;
  }

  /**
   * How `Array.prototype.splice` resolves its start argument for a list of length `len`:
   * a negative start counts from the end (and stops at 0), a start past the end stops at the end.
   */
  function SpliceIndex(start: int, len: nat): (i: nat)
    ensures i <= len
    ensures 0 <= start <= len ==> i == start
    ensures start > len ==> i == len
    ensures start < 0 ==> i == if len + start < 0 then 0 else len + start
  {
    if start < 0 then (if len + start < 0 then 0 else len + start)
    else if start > len then len
    else start
  }

  /** Taking the element at `i` out and inserting it at `j` of what is left only rearranges the list. */
  lemma MoveElementPermutes<T>(s: seq<T>, i: nat, j: nat)
    requires i < |s| && j <= |s| - 1
    ensures var rest := s[..i] + s[i + 1..];
      multiset(rest[..j] + [s[i]] + rest[j..]) == multiset(s)
  {
    var rest := s[..i] + s[i + 1..];
    assert s == s[..i] + [s[i]] + s[i + 1..];
    assert rest == rest[..j] + rest[j..];
    calc {
      multiset(rest[..j] + [s[i]] + rest[j..]);
      multiset(rest[..j]) + multiset{s[i]} + multiset(rest[j..]);
      multiset(rest) + multiset{s[i]};
      multiset(s[..i]) + multiset(s[i + 1..]) + multiset{s[i]};
      multiset(s);
    }
  }

  /**
   * `const [moved] = s.splice(from, 1); s.splice(to, 0, moved)`: take one element out and put
   * it back at the destination. `None` when the first splice removes nothing (its start
   * resolves to the end of the list), so that `moved` is `undefined`.
   */
  function Reposition<T>(s: seq<T>, from: int, to: int): (r: Option<seq<T>>)
    ensures r.Some? <==> SpliceIndex(from, |s|) < |s|
    ensures r.Some? ==> |r.value| == |s| && multiset(r.value) == multiset(s)
  {
    var i := SpliceIndex(from, |s|);
    if i == |s| then None
    else
      var rest := s[..i] + s[i + 1..];
      var j := SpliceIndex(to, |rest|);
      MoveElementPermutes(s, i, j);
      Some(rest[..j] + [s[i]] + rest[j..])
  }

  /**
   * For indices inside the list, repositioning is the standard single-element move: the moved
   * element lands at `to`, the elements strictly between the two indices shift by one towards
   * the vacated place, and all the others stay where they are.
   */
  lemma RepositionAt<T>(s: seq<T>, from: int, to: int, k: int)
    requires 0 <= from < |s| && 0 <= to < |s| && 0 <= k < |s|
    ensures Reposition(s, from, to).Some?
    ensures Reposition(s, from, to).value[k] ==
      if k == to then s[from]
      else if from <= k < to then s[k + 1]
      else if to < k <= from then s[k - 1]
      else s[k]
  {
    var rest := s[..from] + s[from + 1..];
    var r := rest[..to] + [s[from]] + rest[to..];
    assert Reposition(s, from, to) == Some(r);
    if k < to {
      assert r[k] == rest[k];
      if k < from { assert rest[k] == s[k]; } else { assert rest[k] == s[k + 1]; }
    } else if k > to {
      assert r[k] == rest[k - 1];
      if k - 1 < from { assert rest[k - 1] == s[k - 1]; } else { assert rest[k - 1] == s[k]; }
    }
  }

  /** Repositioning puts the element at `from` at the resolved destination and keeps the others in order around it. */
  lemma RepositionMovesOne<T>(s: seq<T>, from: int, to: int)
    requires 0 <= from < |s|
    ensures Reposition(s, from, to).Some?
    ensures var r := Reposition(s, from, to).value; var j := SpliceIndex(to, |s| - 1);
      && j < |r|
      && r[j] == s[from]
      && r[..j] + r[j + 1..] == s[..from] + s[from + 1..]
  {
    var rest := s[..from] + s[from + 1..];
    var j := SpliceIndex(to, |rest|);
    var r := rest[..j] + [s[from]] + rest[j..];
    assert Reposition(s, from, to) == Some(r);
    assert r[..j] == rest[..j];
    assert r[j + 1..] == rest[j..];
    assert rest[..j] + rest[j..] == rest;
  }
}
