/** Python's ordering of `str` values and the `sorted(set(xs))` idiom
    built on it. Strings compare code point by code point; a proper prefix
    comes first. */
module Order {
  import opened Seqs

  /** `a < b` on Python strings. */
  predicate Lt(a: string, b: string)
  {
    if |b| == 0 then false
    else if |a| == 0 then true
    else if a[0] != b[0] then a[0] < b[0]
    else Lt(a[1..], b[1..])
  }

  lemma {:induction false} LtIrreflexive(a: string)
    ensures !Lt(a, a)
  {
    if |a| > 0 {
      LtIrreflexive(a[1..]);
    }
  }

  lemma {:induction false} LtTransitive(a: string, b: string, c: string)
    requires Lt(a, b) && Lt(b, c)
    ensures Lt(a, c)
  {
    if |a| > 0 && a[0] == b[0] && b[0] == c[0] {
      LtTransitive(a[1..], b[1..], c[1..]);
    }
  }

  lemma {:induction false} LtTotal(a: string, b: string)
    requires a != b
    ensures Lt(a, b) || Lt(b, a)
  {
    if |a| > 0 && |b| > 0 && a[0] == b[0] {
      assert a == [a[0]] + a[1..] && b == [b[0]] + b[1..];
      LtTotal(a[1..], b[1..]);
    }
  }

  /** Every element is strictly below every later one. */
  predicate StrictlySorted(s: seq<string>)
  {
    forall i, j :: 0 <= i < j < |s| ==> Lt(s[i], s[j])
  }

  lemma StrictlySortedNoDup(s: seq<string>)
    requires StrictlySorted(s)
    ensures NoDup(s)
  {
    forall i, j | 0 <= i < j < |s| ensures s[i] != s[j] {
      LtIrreflexive(s[i]);
    }
  }

  /** Putting `h` in front of a strictly sorted `t` whose elements all exceed `h`. */
  lemma ConsSorted(h: string, t: seq<string>)
    requires StrictlySorted(t)
    requires forall y | y in t :: Lt(h, y)
    ensures StrictlySorted([h] + t)
  {
    var s := [h] + t;
    forall i, j | 0 <= i < j < |s| ensures Lt(s[i], s[j]) {
      if i == 0 {
        assert s[j] == t[j - 1];
      } else {
        assert s[i] == t[i - 1] && s[j] == t[j - 1];
      }
    }
  }

  /** Inserts `x` at its place in a strictly sorted sequence, unless it is there already. */
  function Insert(x: string, s: seq<string>): (r: seq<string>)
    requires StrictlySorted(s)
    ensures StrictlySorted(r)
    ensures forall y :: y in r <==> y in s || y == x
  {
    if |s| == 0 then [x]
    else if x == s[0] then s
    else if Lt(x, s[0]) then
      assert forall y | y in s :: Lt(x, y) by {
        forall y | y in s ensures Lt(x, y) {
          if y != s[0] {
            LtTransitive(x, s[0], y);
          }
        }
      }
      ConsSorted(x, s);
      [x] + s
    else
      var rest := Insert(x, s[1..]);
      assert forall y | y in rest :: Lt(s[0], y) by {
        forall y | y in rest ensures Lt(s[0], y) {
          if y == x {
            LtTotal(x, s[0]);
          } else {
            var k :| 0 <= k < |s[1..]| && s[1..][k] == y;
            assert s[k + 1] == y;
          }
        }
      }
      ConsSorted(s[0], rest);
      assert s == [s[0]] + s[1..];
      [s[0]] + rest
  }

  /** `sorted(set(xs))`: the distinct elements of `xs` in increasing order. */
  function SortedSet(xs: seq<string>): (r: seq<string>)
    ensures StrictlySorted(r) && NoDup(r)
    ensures forall y :: y in r <==> y in xs
  {
    if |xs| == 0 then []
    else
      var r := Insert(xs[|xs| - 1], SortedSet(xs[..|xs| - 1]));
      assert xs == xs[..|xs| - 1] + [xs[|xs| - 1]];
      StrictlySortedNoDup(r);
      r
  }

  /** A strictly sorted sequence is determined by its elements: the
      result of `sorted(set(xs))` does not depend on the order of `xs`. */
  lemma {:induction false} SortedUnique(a: seq<string>, b: seq<string>)
    requires StrictlySorted(a) && StrictlySorted(b)
    requires Elems(a) == Elems(b)
    ensures a == b
  {
    if |a| == 0 {
      ElemsEmpty(a);
      ElemsEmpty(b);
    } else {
      assert a[0] in Elems(b);
      assert |b| > 0;
      assert b[0] in Elems(a);
      if a[0] != b[0] {
        var i :| 0 <= i < |a| && a[i] == b[0];
        var j :| 0 <= j < |b| && b[j] == a[0];
        assert i > 0 && j > 0;
        LtTransitive(a[0], b[0], a[0]);
        LtIrreflexive(a[0]);
      }
      StrictlySortedNoDup(a);
      StrictlySortedNoDup(b);
      assert Elems(a[1..]) == Elems(b[1..]) by {
        assert a == [a[0]] + a[1..] && b == [b[0]] + b[1..];
        assert Elems(a[1..]) == Elems(a) - {a[0]};
        assert Elems(b[1..]) == Elems(b) - {b[0]};
      }
      SortedUnique(a[1..], b[1..]);
      assert a == [a[0]] + a[1..] && b == [b[0]] + b[1..];
    }
  }

  /** Sorting does not depend on the order or the repetitions of its input. */
  lemma SortedSetDeterministic(xs: seq<string>, ys: seq<string>)
    requires Elems(xs) == Elems(ys)
    ensures SortedSet(xs) == SortedSet(ys)
  {
    var a, b := SortedSet(xs), SortedSet(ys);
    forall y ensures y in Elems(a) <==> y in Elems(b) {
      assert y in Elems(xs) <==> y in Elems(ys);
    }
    assert Elems(a) == Elems(b);
    SortedUnique(SortedSet(xs), SortedSet(ys));
  }
}
