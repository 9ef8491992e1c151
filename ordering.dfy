/** Ordering of strings as Python's `sorted` sees them, and the
    `sorted(column.unique())` idiom that builds every option list of the
    dashboard: the distinct values of a column, in strictly ascending order. */
module StringOrder {

  /** Python's `<` on `str`: lexicographic comparison of code points, where a
      proper prefix comes before any of its extensions. */
  predicate Below(a: string, b: string)
    decreases |a|
  {
    if a == [] then b != []
    else if b == [] then false
    else if a[0] != b[0] then a[0] < b[0]
    else Below(a[1..], b[1..])
  }

  lemma {:induction false} BelowIrreflexive(a: string)
    ensures !Below(a, a)
    decreases |a|
  {
    if a != [] {
      BelowIrreflexive(a[1..]);
    }
  }

  lemma {:induction false} BelowAsymmetric(a: string, b: string)
    requires Below(a, b)
    ensures !Below(b, a)
    decreases |a|
  {
    if a != [] && b != [] && a[0] == b[0] {
      BelowAsymmetric(a[1..], b[1..]);
    }
  }

  lemma {:induction false} BelowTransitive(a: string, b: string, c: string)
    requires Below(a, b) && Below(b, c)
    ensures Below(a, c)
    decreases |a|
  {
    if a != [] && a[0] == b[0] && b[0] == c[0] {
      BelowTransitive(a[1..], b[1..], c[1..]);
    }
  }

  lemma {:induction false} BelowTotal(a: string, b: string)
    ensures a == b || Below(a, b) || Below(b, a)
    decreases |a|
  {
    if a != [] && b != [] && a[0] == b[0] {
      BelowTotal(a[1..], b[1..]);
      assert a == [a[0]] + a[1..] && b == [b[0]] + b[1..];
    }
  }

  /** Every element comes strictly before every later one: sorted and free of
      duplicates. */
  ghost predicate StrictlyAscending(s: seq<string>)
  {
    forall i, j :: 0 <= i < j < |s| ==> Below(s[i], s[j])
  }

  /** A strictly ascending list never holds one value twice. */
  lemma AscendingDistinct(s: seq<string>, i: int, j: int)
    requires StrictlyAscending(s)
    requires 0 <= i < j < |s|
    ensures s[i] != s[j]
  {
    BelowIrreflexive(s[i]);
  }

  /** In a strictly ascending list the head comes before everything after it. */
  lemma HeadBelowTail(s: seq<string>, v: string)
    requires StrictlyAscending(s) && s != []
    requires v in s[1..]
    ensures Below(s[0], v) && v != s[0]
  {
    var k :| 0 <= k < |s[1..]| && s[1..][k] == v;
    assert s[k + 1] == v;
    BelowIrreflexive(s[0]);
  }

  /** Adds one value to a strictly ascending list, keeping it strictly
      ascending; a value already present leaves the list as it is. */
  function Insert(x: string, s: seq<string>): (r: seq<string>)
    requires StrictlyAscending(s)
    ensures StrictlyAscending(r)
    ensures forall v :: v in r <==> v == x || v in s
    ensures |r| <= |s| + 1
  {
    if s == [] then [x]
    else if x == s[0] then s
    else if Below(x, s[0]) then
      assert forall v :: v in s ==> Below(x, v) by {
        forall v | v in s ensures Below(x, v) {
          if v != s[0] {
            HeadBelowTail(s, v);
            BelowTransitive(x, s[0], v);
          }
        }
      }
      [x] + s
    else
      BelowTotal(x, s[0]);
      var rest := Insert(x, s[1..]);
      assert forall v :: v in rest ==> Below(s[0], v) by {
        forall v | v in rest ensures Below(s[0], v) {
          if v != x {
            HeadBelowTail(s, v);
          }
        }
      }
      [s[0]] + rest
  }

  /** `sorted(set(xs))`: the distinct values of `xs` in strictly ascending
      order, each exactly once. */
  function SortedDistinct(xs: seq<string>): (r: seq<string>)
    ensures StrictlyAscending(r)
    ensures forall v :: v in r <==> v in xs
    ensures |r| <= |xs|
  {
    if xs == [] then [] else Insert(xs[0], SortedDistinct(xs[1..]))
  }

  lemma FirstIsMember(s: seq<string>)
    ensures s != [] ==> s[0] in s
  {
  }

  /** A strictly ascending list is determined by the values it holds: two of
      them with the same elements are the same list. */
  lemma {:induction false} AscendingUnique(a: seq<string>, b: seq<string>)
    requires StrictlyAscending(a) && StrictlyAscending(b)
    requires forall v :: v in a <==> v in b
    ensures a == b
    decreases |a|
  {
    if a == [] {
      FirstIsMember(b);
    } else {
      assert a[0] in b;
      assert b != [];
      if a[0] != b[0] {
        assert b[0] in a[1..] by { assert b[0] in a; }
        assert a[0] in b[1..] by { assert a[0] in b; }
        HeadBelowTail(a, b[0]);
        HeadBelowTail(b, a[0]);
        BelowAsymmetric(a[0], b[0]);
      }
      forall v ensures v in a[1..] <==> v in b[1..] {
        if v in a[1..] {
          HeadBelowTail(a, v);
          assert v in b;
        }
        if v in b[1..] {
          HeadBelowTail(b, v);
          assert v in a;
        }
      }
      AscendingUnique(a[1..], b[1..]);
      assert a == [a[0]] + a[1..] && b == [b[0]] + b[1..];
    }
  }

  /** Whatever order a list of values comes in, sorting its distinct values
      gives the same result for the same set of values. */
  lemma SortedDistinctBySet(xs: seq<string>, ys: seq<string>)
    requires forall v :: v in xs <==> v in ys
    ensures SortedDistinct(xs) == SortedDistinct(ys)
  {
    AscendingUnique(SortedDistinct(xs), SortedDistinct(ys));
  }
}
