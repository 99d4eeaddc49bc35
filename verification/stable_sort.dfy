/**
 * A stable sort, as `Array.prototype.sort` must be (section 23.1.3.30 of ECMA-262,
 * 2023 edition): the result is ordered by the comparator, is a permutation of the input,
 * and keeps elements that compare equal in their input order. The comparator is given as
 * `le(a, b)` = "the comparator puts `a` before `b` or calls them equal"; the source's
 * comparators (`a - b` on integers, `localeCompare` on strings) are total preorders.
 */
module StableSort {

  ghost predicate TotalPreorder<T(!new)>(le: (T, T) -> bool) {
    && (forall a, b :: le(a, b) || le(b, a))
    && (forall a, b, c :: le(a, b) && le(b, c) ==> le(a, c))
  }

  /** `a` and `b` compare equal. */
  predicate Tie<T>(le: (T, T) -> bool, a: T, b: T) {
    le(a, b) && le(b, a)
  }

  ghost predicate Sorted<T>(s: seq<T>, le: (T, T) -> bool) {
    forall i, j :: 0 <= i < j < |s| ==> le(s[i], s[j])
  }

  /** The comparator with its arguments swapped (`(a, b) => cmp(b, a)`). */
  function Flip<T>(le: (T, T) -> bool): (T, T) -> bool {
    (a, b) => le(b, a)
  }

  /** The elements of `s` that compare equal to `z`, in their order in `s`. */
  function Tied<T>(s: seq<T>, z: T, le: (T, T) -> bool): seq<T> {
    if s == [] then [] else (if Tie(le, s[0], z) then [s[0]] else []) + Tied(s[1..], z, le)
  }

  /** Places `x` before the first element it does not follow. */
  function Insert<T>(x: T, s: seq<T>, le: (T, T) -> bool): seq<T> {
    if s == [] then [x]
    else if le(x, s[0]) then [x] + s
    else [s[0]] + Insert(x, s[1..], le)
  }

  /** Insertion sort: each element goes in front of the later elements it ties with. */
  function Sort<T>(s: seq<T>, le: (T, T) -> bool): seq<T> {
    if s == [] then [] else Insert(s[0], Sort(s[1..], le), le)
  }

  lemma {:induction false} InsertPermutes<T>(x: T, s: seq<T>, le: (T, T) -> bool)
    ensures multiset(Insert(x, s, le)) == multiset{x} + multiset(s)
  {
    if s != [] && !le(x, s[0]) {
      InsertPermutes(x, s[1..], le);
      assert s == [s[0]] + s[1..];
    }
  }

  /** The sort's output is a permutation of its input. */
  lemma {:induction false} SortPermutes<T>(s: seq<T>, le: (T, T) -> bool)
    ensures multiset(Sort(s, le)) == multiset(s)
  {
    if s != [] {
      SortPermutes(s[1..], le);
      InsertPermutes(s[0], Sort(s[1..], le), le);
      assert s == [s[0]] + s[1..];
    }
  }

  lemma {:induction false} InsertSorted<T(!new)>(x: T, s: seq<T>, le: (T, T) -> bool)
    requires TotalPreorder(le)
    requires Sorted(s, le)
    ensures Sorted(Insert(x, s, le), le)
  {
    if s == [] {
    } else if le(x, s[0]) {
    } else {
      var t := Insert(x, s[1..], le);
      InsertSorted(x, s[1..], le);
      InsertPermutes(x, s[1..], le);
      forall k | 0 <= k < |t| ensures le(s[0], t[k]) {
        assert t[k] in multiset(t);
        if t[k] != x {
          assert t[k] in multiset(s[1..]);
          var j :| 0 <= j < |s[1..]| && s[1..][j] == t[k];
          assert s[j + 1] == t[k];
        }
      }
    }
  }

  /** The sort's output is ordered by the comparator. */
  lemma {:induction false} SortSorted<T(!new)>(s: seq<T>, le: (T, T) -> bool)
    requires TotalPreorder(le)
    ensures Sorted(Sort(s, le), le)
  {
    if s != [] {
      SortSorted(s[1..], le);
      InsertSorted(s[0], Sort(s[1..], le), le);
    }
  }

  lemma {:induction false} TiedAppend<T>(a: seq<T>, b: seq<T>, z: T, le: (T, T) -> bool)
    ensures Tied(a + b, z, le) == Tied(a, z, le) + Tied(b, z, le)
  {
    if a != [] {
      TiedAppend(a[1..], b, z, le);
      assert (a + b)[0] == a[0];
      assert (a + b)[1..] == a[1..] + b;
    } else {
      assert a + b == b;
    }
  }

  /** Two elements that do not tie cannot both tie with a third. */
  lemma AtMostOneTies<T(!new)>(x: T, y: T, z: T, le: (T, T) -> bool)
    requires TotalPreorder(le)
    requires !le(x, y)
    ensures Tie(le, x, z) ==> !Tie(le, y, z)
  {
  }

  lemma TiedSingle<T>(x: T, z: T, le: (T, T) -> bool)
    ensures Tied([x], z, le) == if Tie(le, x, z) then [x] else []
  {
    assert [x][1..] == [];
  }

  /** `x` moves past `y`, which does not tie with `z` when `x` does: the tie class of `z` is unchanged. */
  lemma PassTied<T>(x: T, y: T, t: seq<T>, rest: seq<T>, z: T, le: (T, T) -> bool)
    requires !(Tie(le, x, z) && Tie(le, y, z))
    requires Tied(t, z, le) == Tied([x] + rest, z, le)
    ensures Tied([y] + t, z, le) == Tied([x] + ([y] + rest), z, le)
  {
    var tx := Tied([x], z, le);
    var ty := Tied([y], z, le);
    var tr := Tied(rest, z, le);
    TiedAppend([y], t, z, le);
    TiedAppend([x], rest, z, le);
    TiedAppend([y], rest, z, le);
    TiedAppend([x], [y] + rest, z, le);
    TiedSingle(x, z, le);
    TiedSingle(y, z, le);
    assert tx == [] || ty == [];
  }

  lemma InsertPast<T>(x: T, s: seq<T>, le: (T, T) -> bool)
    requires s != [] && !le(x, s[0])
    ensures Insert(x, s, le) == [s[0]] + Insert(x, s[1..], le)
  {
  }

  /** One step of insertion past `s[0]`, which does not tie with `z` when `x` does. */
  lemma InsertStableStep<T>(x: T, s: seq<T>, z: T, le: (T, T) -> bool)
    requires s != [] && !le(x, s[0]) && !(Tie(le, x, z) && Tie(le, s[0], z))
    requires Tied(Insert(x, s[1..], le), z, le) == Tied([x] + s[1..], z, le)
    ensures Tied(Insert(x, s, le), z, le) == Tied([x] + s, z, le)
  {
    InsertPast(x, s, le);
    PassTied(x, s[0], Insert(x, s[1..], le), s[1..], z, le);
    assert s == [s[0]] + s[1..];
  }

  /** Inserting `x` keeps every tie class's order, given that `x` passes only elements it does not tie with. */
  lemma {:induction false} InsertStableCore<T>(x: T, s: seq<T>, z: T, le: (T, T) -> bool)
    requires forall y :: y in s && !le(x, y) ==> !(Tie(le, x, z) && Tie(le, y, z))
    ensures Tied(Insert(x, s, le), z, le) == Tied([x] + s, z, le)
  {
    if s != [] && !le(x, s[0]) {
      assert s[0] in s;
      InsertStableCore(x, s[1..], z, le);
      InsertStableStep(x, s, z, le);
    }
  }

  lemma InsertStable<T(!new)>(x: T, s: seq<T>, z: T, le: (T, T) -> bool)
    requires TotalPreorder(le)
    ensures Tied(Insert(x, s, le), z, le) == Tied([x] + s, z, le)
  {
    forall y | y in s && !le(x, y)
      ensures !(Tie(le, x, z) && Tie(le, y, z))
    {
      AtMostOneTies(x, y, z, le);
    }
    InsertStableCore(x, s, z, le);
  }

  /** Elements that compare equal keep their input order: the sort is stable. */
  lemma {:induction false} SortStable<T(!new)>(s: seq<T>, z: T, le: (T, T) -> bool)
    requires TotalPreorder(le)
    ensures Tied(Sort(s, le), z, le) == Tied(s, z, le)
  {
    if s != [] {
      SortStable(s[1..], z, le);
      InsertStable(s[0], Sort(s[1..], le), z, le);
      TiedAppend([s[0]], Sort(s[1..], le), z, le);
      TiedAppend([s[0]], s[1..], z, le);
      assert s == [s[0]] + s[1..];
    }
  }

  /** Sorting an already ordered sequence changes nothing, so sorting twice is sorting once. */
  lemma {:induction false} SortIdempotent<T(!new)>(s: seq<T>, le: (T, T) -> bool)
    requires Sorted(s, le)
    ensures Sort(s, le) == s
  {
    if s != [] {
      assert Sorted(s[1..], le);
      SortIdempotent(s[1..], le);
      assert s == [s[0]] + s[1..];
    }
  }

  lemma {:induction false} TiedMember<T>(s: seq<T>, z: T, le: (T, T) -> bool, x: T)
    ensures x in Tied(s, z, le) <==> x in s && Tie(le, x, z)
  {
    if s != [] {
      TiedMember(s[1..], z, le, x);
      assert s == [s[0]] + s[1..];
    }
  }

  /**
   * An ordered sequence is determined by its tie classes: any ordered sequence that
   * lists every tie class of `s` in the order `s` does is `Sort(s)`.
   */
  lemma {:induction false} SortUnique<T(!new)>(r: seq<T>, s: seq<T>, le: (T, T) -> bool)
    requires TotalPreorder(le)
    requires Sorted(r, le)
    requires forall z :: Tied(r, z, le) == Tied(s, z, le)
    ensures r == Sort(s, le)
  {
    SortSorted(s, le);
    forall z ensures Tied(r, z, le) == Tied(Sort(s, le), z, le) {
      SortStable(s, z, le);
    }
    SortedTiesUnique(r, Sort(s, le), le);
  }

  /** A non-empty sequence's head opens its own tie class. */
  lemma TiedHead<T(!new)>(s: seq<T>, le: (T, T) -> bool)
    requires TotalPreorder(le) && s != []
    ensures Tied(s, s[0], le) != []
  {
    assert le(s[0], s[0]);
  }

  /** The head of a sorted `a` comes no later than anything `a` ties with. */
  lemma HeadFirst<T(!new)>(a: seq<T>, b: seq<T>, le: (T, T) -> bool)
    requires TotalPreorder(le)
    requires Sorted(a, le) && a != [] && b != []
    requires Tied(a, b[0], le) == Tied(b, b[0], le)
    ensures le(a[0], b[0])
  {
    TiedMember(b, b[0], le, b[0]);
    var t :| t in Tied(a, b[0], le);
    TiedMember(a, b[0], le, t);
    var i :| 0 <= i < |a| && a[i] == t;
    assert le(a[0], t) by {
      assert i == 0 || le(a[0], a[i]);
    }
  }

  /** Two heads that compare equal and open the same tie class are the same element. */
  lemma HeadsEqual<T(!new)>(a: seq<T>, b: seq<T>, le: (T, T) -> bool)
    requires TotalPreorder(le)
    requires a != [] && b != [] && le(a[0], b[0]) && le(b[0], a[0])
    requires Tied(a, a[0], le) == Tied(b, a[0], le)
    ensures a[0] == b[0]
  {
    assert le(a[0], a[0]);
    assert Tied(a, a[0], le) == [a[0]] + Tied(a[1..], a[0], le);
    assert Tied(b, a[0], le) == [b[0]] + Tied(b[1..], a[0], le);
    assert Tied(a, a[0], le)[0] == a[0] && Tied(b, a[0], le)[0] == b[0];
  }

  /** Removing the same head from both sides keeps their tie classes equal. */
  lemma TailsTied<T>(a: seq<T>, b: seq<T>, le: (T, T) -> bool)
    requires a != [] && b != [] && a[0] == b[0]
    requires forall z :: Tied(a, z, le) == Tied(b, z, le)
    ensures forall z :: Tied(a[1..], z, le) == Tied(b[1..], z, le)
  {
    forall z ensures Tied(a[1..], z, le) == Tied(b[1..], z, le) {
      var head := if Tie(le, a[0], z) then [a[0]] else [];
      assert Tied(a, z, le) == head + Tied(a[1..], z, le);
      assert Tied(b, z, le) == head + Tied(b[1..], z, le);
      assert Tied(a, z, le) == Tied(b, z, le);
      assert Tied(a[1..], z, le) == (head + Tied(a[1..], z, le))[|head|..];
      assert Tied(b[1..], z, le) == (head + Tied(b[1..], z, le))[|head|..];
    }
  }

  /** Sequences with the same tie classes are empty together. */
  lemma EmptyTogether<T(!new)>(a: seq<T>, b: seq<T>, le: (T, T) -> bool)
    requires TotalPreorder(le)
    requires forall z :: Tied(a, z, le) == Tied(b, z, le)
    ensures a == [] <==> b == []
  {
    if a != [] {
      TiedHead(a, le);
      assert Tied(b, a[0], le) != [];
    }
    if b != [] {
      TiedHead(b, le);
      assert Tied(a, b[0], le) != [];
    }
  }

  /** Two sorted sequences with the same tie classes start alike and go on alike. */
  lemma UniqueStep<T(!new)>(a: seq<T>, b: seq<T>, le: (T, T) -> bool)
    requires TotalPreorder(le)
    requires Sorted(a, le) && Sorted(b, le) && a != [] && b != []
    requires forall z :: Tied(a, z, le) == Tied(b, z, le)
    ensures a[0] == b[0]
    ensures Sorted(a[1..], le) && Sorted(b[1..], le)
    ensures forall z :: Tied(a[1..], z, le) == Tied(b[1..], z, le)
  {
    HeadFirst(a, b, le);
    HeadFirst(b, a, le);
    HeadsEqual(a, b, le);
    TailsTied(a, b, le);
  }

  lemma {:induction false} SortedTiesUnique<T(!new)>(a: seq<T>, b: seq<T>, le: (T, T) -> bool)
    requires TotalPreorder(le)
    requires Sorted(a, le) && Sorted(b, le)
    requires forall z :: Tied(a, z, le) == Tied(b, z, le)
    ensures a == b
    decreases |a|
  {
    EmptyTogether(a, b, le);
    if a != [] {
      UniqueStep(a, b, le);
      SortedTiesUnique(a[1..], b[1..], le);
      assert a == [a[0]] + a[1..] && b == [b[0]] + b[1..];
    }
  }

  function Reverse<T>(s: seq<T>): (r: seq<T>)
    ensures |r| == |s|
    ensures forall i :: 0 <= i < |s| ==> r[i] == s[|s| - 1 - i]
  {
    if s == [] then [] else Reverse(s[1..]) + [s[0]]
  }

  lemma {:induction false} TiedFlip<T>(s: seq<T>, z: T, le: (T, T) -> bool)
    ensures Tied(s, z, Flip(le)) == Tied(s, z, le)
  {
    if s != [] {
      TiedFlip(s[1..], z, le);
    }
  }

  lemma {:induction false} TiedReverse<T>(s: seq<T>, z: T, le: (T, T) -> bool)
    ensures Tied(Reverse(s), z, le) == Reverse(Tied(s, z, le))
  {
    if s != [] {
      TiedReverse(s[1..], z, le);
      TiedAppend(Reverse(s[1..]), [s[0]], z, le);
      var h := if Tie(le, s[0], z) then [s[0]] else [];
      var t := Tied(s[1..], z, le);
      assert Tied([s[0]], z, le) == h;
      assert Reverse(h + t) == Reverse(t) + h;
    }
  }

  lemma {:induction false} TiedNone<T>(s: seq<T>, z: T, le: (T, T) -> bool)
    requires forall x :: x in s ==> !Tie(le, x, z)
    ensures Tied(s, z, le) == []
  {
    if s != [] {
      assert s[0] in s;
      TiedNone(s[1..], z, le);
    }
  }

  lemma {:induction false} TiedAtMostOne<T(!new)>(s: seq<T>, z: T, le: (T, T) -> bool)
    requires TotalPreorder(le)
    requires forall i, j :: 0 <= i < j < |s| ==> !Tie(le, s[i], s[j])
    ensures |Tied(s, z, le)| <= 1
  {
    if s != [] {
      TiedAtMostOne(s[1..], z, le);
      if Tie(le, s[0], z) {
        // nothing after s[0] ties with it, so nothing after it ties with z
        forall x | x in s[1..]
          ensures !Tie(le, x, z)
        {
          var j :| 0 <= j < |s[1..]| && s[1..][j] == x;
          assert !Tie(le, s[0], s[j + 1]);
        }
        TiedNone(s[1..], z, le);
      }
    }
  }

  /**
   * With the comparator's arguments swapped (the descending order), a sequence whose
   * elements pairwise compare unequal comes out in exactly the reverse of the ascending order.
   */
  lemma SortFlipReverses<T(!new)>(s: seq<T>, le: (T, T) -> bool)
    requires TotalPreorder(le)
    requires forall i, j :: 0 <= i < j < |s| ==> !Tie(le, s[i], s[j])
    ensures Sort(s, Flip(le)) == Reverse(Sort(s, le))
  {
    var a := Sort(s, le);
    var r := Reverse(a);
    SortSorted(s, le);
    assert Sorted(r, Flip(le));
    forall z ensures Tied(r, z, Flip(le)) == Tied(s, z, Flip(le)) {
      TiedFlip(r, z, le);
      TiedFlip(s, z, le);
      TiedReverse(a, z, le);
      SortStable(s, z, le);
      TiedAtMostOne(s, z, le);
      var t := Tied(s, z, le);
      assert Reverse(t) == t;
    }
    SortUnique(r, s, Flip(le));
  }
}
