/** A JavaScript `Set<string>` as the widget uses it: a duplicate-free sequence in
    insertion order, which is the order `Array.from(set)` returns. */
module OrderedSet {

  /** No element occurs twice. */
  predicate NoDup<T(==,!new)>(s: seq<T>) {
    forall i, j :: 0 <= i < j < |s| ==> s[i] != s[j]
  }

  /** `a` is `b` with some elements dropped, the rest kept in their order. */
  predicate IsSubseq<T(==,!new)>(a: seq<T>, b: seq<T>) {
    if a == [] then true
    else if b == [] then false
    else (a[0] == b[0] && IsSubseq(a[1..], b[1..])) || IsSubseq(a, b[1..])
  }

  /** A sequence is a subsequence of itself. */
  lemma {:induction false} SubseqRefl<T(!new)>(s: seq<T>)
    ensures IsSubseq(s, s)
  {
    if s != [] { SubseqRefl(s[1..]); }
  }

  /** The position of the first occurrence of `y` in `xs`. */
  function FirstIndex<T(==)>(xs: seq<T>, y: T): (k: nat)
    requires y in xs
    ensures k < |xs| && xs[k] == y
  {
    if xs[0] == y then 0 else 1 + FirstIndex(xs[1..], y)
  }

  /** No earlier position holds `y`. */
  lemma {:induction false} FirstIndexIsFirst<T(!new)>(xs: seq<T>, y: T, i: nat)
    requires y in xs && i < FirstIndex(xs, y)
    ensures xs[i] != y
  {
    if i > 0 {
      FirstIndexIsFirst(xs[1..], y, i - 1);
    }
  }

  /** Appending an element does not move the first occurrence of one already present. */
  lemma {:induction false} FirstIndexSnoc<T(!new)>(xs: seq<T>, x: T, y: T)
    requires y in xs
    ensures FirstIndex(xs + [x], y) == FirstIndex(xs, y)
  {
    if xs[0] != y {
      assert (xs + [x])[1..] == xs[1..] + [x];
      FirstIndexSnoc(xs[1..], x, y);
    }
  }

  /** `set.add(x)`: a new element goes to the end, a present one stays where it is. */
  function Add<T(==,!new)>(s: seq<T>, x: T): (r: seq<T>)
    ensures forall y :: y in r <==> y in s || y == x
    ensures NoDup(s) ==> NoDup(r)
    ensures x in s ==> r == s
    ensures x !in s ==> |r| == |s| + 1 && r[|s|] == x && r[..|s|] == s
  {
    if x in s then s else s + [x]
  }

  /** `set.delete(x)`: `x` leaves, everything else keeps its relative order. */
  function Delete<T(==,!new)>(s: seq<T>, x: T): (r: seq<T>)
    ensures forall y :: y in r <==> y in s && y != x
    ensures IsSubseq(r, s)
    ensures NoDup(s) ==> NoDup(r)
    ensures NoDup(s) && x in s ==> |r| == |s| - 1
    ensures x !in s ==> r == s
  {
    if |s| == 0 then []
    else if s[0] == x then Delete(s[1..], x)
    else
      var rest := Delete(s[1..], x);
      assert NoDup(s) ==> NoDup(s[1..]) && s[0] !in rest;
      [s[0]] + rest
  }

  /** `new Set(xs)`: the elements of `xs` added one after the other, so the first
      occurrence of each is kept and later repeats are dropped. */
  function FromSeq<T(==,!new)>(xs: seq<T>): (r: seq<T>)
    ensures NoDup(r)
    ensures forall y :: y in r <==> y in xs
    ensures IsSubseq(r, xs)
    ensures forall i, j :: 0 <= i < j < |r| ==> FirstIndex(xs, r[i]) < FirstIndex(xs, r[j])
    ensures |r| <= |xs|
  {
    if |xs| == 0 then []
    else
      var init := xs[..|xs| - 1];
      var last := xs[|xs| - 1];
      var prev := FromSeq(init);
      SubseqSnoc(prev, init, last);
      assert init + [last] == xs;
      AddKeepsFirstOrder(prev, init, last);
      Add(prev, last)
  }

  /** Adding `x` to a set whose elements are ordered by first occurrence in `xs` gives
      one ordered by first occurrence in `xs + [x]`. */
  lemma AddKeepsFirstOrder<T(!new)>(s: seq<T>, xs: seq<T>, x: T)
    requires forall y :: y in s <==> y in xs
    requires forall i, j :: 0 <= i < j < |s| ==> FirstIndex(xs, s[i]) < FirstIndex(xs, s[j])
    ensures var r := Add(s, x);
            forall i, j :: 0 <= i < j < |r| ==> FirstIndex(xs + [x], r[i]) < FirstIndex(xs + [x], r[j])
  {
    var r := Add(s, x);
    forall i, j | 0 <= i < j < |r| ensures FirstIndex(xs + [x], r[i]) < FirstIndex(xs + [x], r[j]) {
      assert r[i] == s[i];
      FirstIndexSnoc(xs, x, r[i]);
      if j < |s| {
        assert r[j] == s[j];
        FirstIndexSnoc(xs, x, r[j]);
      } else {
        assert r[j] == x && x !in xs;
        assert (xs + [x])[|xs|] == x;
      }
    }
  }

  /** A subsequence stays one when the same element is appended to the longer sequence,
      or to both. */
  lemma {:induction false} SubseqSnoc<T(!new)>(a: seq<T>, b: seq<T>, x: T)
    requires IsSubseq(a, b)
    ensures IsSubseq(a, b + [x]) && IsSubseq(a + [x], b + [x])
    decreases |b|
  {
    if b == [] {
      assert a == [];
      assert ([x] + [])[1..] == [];
    } else {
      assert (b + [x])[1..] == b[1..] + [x];
      if a == [] {
        SubseqSnoc(a, b[1..], x);
        assert a + [x] == [x];
      } else {
        assert (a + [x])[1..] == a[1..] + [x];
        if a[0] == b[0] && IsSubseq(a[1..], b[1..]) {
          SubseqSnoc(a[1..], b[1..], x);
        } else {
          SubseqSnoc(a, b[1..], x);
        }
      }
    }
  }

  /** Every element of a subsequence is an element of the sequence. */
  lemma {:induction false} SubseqMembers<T(!new)>(a: seq<T>, b: seq<T>, y: T)
    requires IsSubseq(a, b) && y in a
    ensures y in b
    decreases |b|
  {
    if a[0] == b[0] && IsSubseq(a[1..], b[1..]) {
      if y != a[0] {
        SubseqMembers(a[1..], b[1..], y);
      }
    } else {
      SubseqMembers(a, b[1..], y);
    }
  }

  /** A subsequence of a sequence without repeats has no repeats. */
  lemma {:induction false} SubseqNoDup<T(!new)>(a: seq<T>, b: seq<T>)
    requires IsSubseq(a, b) && NoDup(b)
    ensures NoDup(a)
    decreases |b|
  {
    if a != [] {
      assert NoDup(b[1..]);
      if a[0] == b[0] && IsSubseq(a[1..], b[1..]) {
        SubseqNoDup(a[1..], b[1..]);
        if a[0] in a[1..] {
          SubseqMembers(a[1..], b[1..], a[0]);
          assert false;
        }
        assert NoDup(a) by {
          forall i, j | 0 <= i < j < |a| ensures a[i] != a[j] {
            if i > 0 {
              assert a[i] == a[1..][i - 1] && a[j] == a[1..][j - 1];
            } else {
              assert a[j] in a[1..];
            }
          }
        }
      } else {
        SubseqNoDup(a, b[1..]);
      }
    }
  }

  /** Deleting the element at position `k` of a duplicate-free sequence leaves exactly
      the elements before and after it. */
  lemma {:induction false} DeleteAt<T(!new)>(s: seq<T>, k: nat)
    requires NoDup(s) && k < |s|
    ensures Delete(s, s[k]) == s[..k] + s[k + 1..]
  {
    if k == 0 {
      assert s[0] !in s[1..];
      assert s[1..] == s[..0] + s[1..];
    } else {
      assert NoDup(s[1..]);
      assert s[0] != s[k];
      DeleteAt(s[1..], k - 1);
      assert s[1..][k - 1] == s[k];
      assert s[..k] + s[k + 1..] == [s[0]] + (s[1..][..k - 1] + s[1..][k..]);
    }
  }

  /** Adding a new element and deleting it again gives back the original sequence. */
  lemma {:induction false} DeleteAdded<T(!new)>(s: seq<T>, x: T)
    requires x !in s
    ensures Delete(Add(s, x), x) == s
  {
    var t := s + [x];
    assert Add(s, x) == t;
    if s == [] {
      assert Delete(t, x) == Delete(t[1..], x);
      assert t[1..] == [];
    } else {
      assert t[0] == s[0] != x;
      assert t[1..] == s[1..] + [x];
      assert Delete(t, x) == [s[0]] + Delete(s[1..] + [x], x);
      DeleteAdded(s[1..], x);
    }
  }

  /** A sequence that already has no repeats is its own `new Set(...)`, order included. */
  lemma {:induction false} FromSeqOfNoDup<T(!new)>(xs: seq<T>)
    requires NoDup(xs)
    ensures FromSeq(xs) == xs
  {
    if |xs| > 0 {
      var init, last := xs[..|xs| - 1], xs[|xs| - 1];
      NoDupSplitLast(xs);
      FromSeqOfNoDup(init);
      assert FromSeq(xs) == Add(init, last);
      assert init + [last] == xs;
    }
  }

  /** Without repeats, the last element is new to the rest, which has no repeats either. */
  lemma NoDupSplitLast<T(!new)>(xs: seq<T>)
    requires NoDup(xs) && |xs| > 0
    ensures NoDup(xs[..|xs| - 1]) && xs[|xs| - 1] !in xs[..|xs| - 1]
  {
  }
}
