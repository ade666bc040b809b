/** Iteration order of a JavaScript `Set` filled by repeated `add`: every distinct
    element once, in the order of its first occurrence. Used for the solver's
    variable order and for the variable list of a rule literal. */
module FirstSeen {

  /** `[...new Set(xs)]`: each distinct element of `xs` once, where it first appears. */
  function Distinct<T(==,!new)>(xs: seq<T>): (r: seq<T>)
    ensures forall x :: x in r <==> x in xs
    ensures forall i, j :: 0 <= i < j < |r| ==> r[i] != r[j]
  {
    if xs == [] then []
    else
      var r := Distinct(xs[..|xs| - 1]);
      assert forall x :: x in xs <==> x in xs[..|xs| - 1] || x == xs[|xs| - 1];
      if xs[|xs| - 1] in r then r else r + [xs[|xs| - 1]]
  }

  /** Adding one more element to the set: `set.add(x)`. */
  lemma DistinctSnoc<T(!new)>(xs: seq<T>, x: T)
    ensures Distinct(xs + [x]) == if x in Distinct(xs) then Distinct(xs) else Distinct(xs) + [x]
  {
    assert (xs + [x])[..|xs|] == xs;
  }

  /** Position of the first occurrence of `x` in `xs`. */
  function IndexOf<T(==)>(xs: seq<T>, x: T): (k: nat)
    requires x in xs
    ensures k < |xs| && xs[k] == x
    ensures forall j :: 0 <= j < k ==> xs[j] != x
  {
    if xs[0] == x then 0 else 1 + IndexOf(xs[1..], x)
  }

  lemma IndexOfPrefix<T>(xs: seq<T>, y: T, x: T)
    requires y in xs
    ensures IndexOf(xs + [x], y) == IndexOf(xs, y)
  {
    var k := IndexOf(xs, y);
    var k' := IndexOf(xs + [x], y);
    assert (xs + [x])[k] == y;
    assert xs[k'] == y by {
      if k' >= |xs| {
        assert false;
      }
    }
  }

  /** The elements come out ordered by where they first occur in the input. */
  lemma {:induction false} DistinctFirstOccurrenceOrder<T(!new)>(xs: seq<T>, i: nat, j: nat)
    requires i < j < |Distinct(xs)|
    ensures IndexOf(xs, Distinct(xs)[i]) < IndexOf(xs, Distinct(xs)[j])
  {
    var init := xs[..|xs| - 1];
    var x := xs[|xs| - 1];
    assert xs == init + [x];
    var r := Distinct(init);
    DistinctSnoc(init, x);
    var ri := Distinct(xs)[i];
    var rj := Distinct(xs)[j];
    assert ri in init by {
      assert ri == r[i];
    }
    IndexOfPrefix(init, ri, x);
    if j < |r| {
      assert rj == r[j];
      DistinctFirstOccurrenceOrder(init, i, j);
      IndexOfPrefix(init, rj, x);
    } else {
      assert rj == x && x !in init;
      assert IndexOf(xs, rj) == |init| by {
        var k := IndexOf(xs, rj);
        if k < |init| {
          assert false;
        }
      }
    }
  }
}
