/** Small facts about sequences shared by the rest of the model. */
module Seqs {

  /** The elements of `s`, as a set (Python's `set(s)`). */
  function Elems<T>(s: seq<T>): set<T>
  {
    set x | x in s
  }

  lemma ElemsEmpty<T>(s: seq<T>)
    ensures Elems(s) == {} <==> |s| == 0
  {
    if |s| > 0 {
      assert s[0] in Elems(s);
    }
  }

  lemma ElemsConcat<T>(a: seq<T>, b: seq<T>)
    ensures Elems(a + b) == Elems(a) + Elems(b)
  {
  }

  /** No element of `s` occurs twice. */
  predicate NoDup<T(==)>(s: seq<T>)
  {
    forall i, j :: 0 <= i < j < |s| ==> s[i] != s[j]
  }

  /** Appending an element not yet present keeps the elements distinct. */
  lemma NoDupSnoc<T>(s: seq<T>, x: T)
    requires NoDup(s) && x !in s
    ensures NoDup(s + [x])
  {
    var next := s + [x];
    forall i, j | 0 <= i < j < |next| ensures next[i] != next[j] {
      if j == |s| {
        assert next[i] == s[i];
      } else {
        assert next[i] == s[i] && next[j] == s[j];
      }
    }
  }

  /** The lists of `xss`, one after another: Python's `''.join(xss)` on
      strings, or a nested comprehension that flattens a list of lists. */
  function Flatten<T>(xss: seq<seq<T>>): seq<T>
  {
    if |xss| == 0 then [] else Flatten(xss[..|xss| - 1]) + xss[|xss| - 1]
  }

  lemma FlattenSnoc<T>(xss: seq<seq<T>>, xs: seq<T>)
    ensures Flatten(xss + [xs]) == Flatten(xss) + xs
  {
    assert (xss + [xs])[..|xss|] == xss;
  }

  /** Flattening distributes over concatenation. */
  lemma {:induction false} FlattenAppend<T>(a: seq<seq<T>>, b: seq<seq<T>>)
    ensures Flatten(a + b) == Flatten(a) + Flatten(b)
  {
    if |b| == 0 {
      assert a + b == a;
    } else {
      var init, last := b[..|b| - 1], b[|b| - 1];
      assert b == init + [last];
      assert a + b == (a + init) + [last];
      FlattenSnoc(a + init, last);
      FlattenSnoc(init, last);
      FlattenAppend(a, init);
      var p, q := Flatten(a), Flatten(init);
      assert (p + q) + last == p + (q + last);
    }
  }

  /** An element is in the flattened list exactly when one of the lists
      holds it. */
  lemma {:induction false} FlattenMembers<T>(xss: seq<seq<T>>)
    ensures forall x :: x in Flatten(xss) <==> exists i :: 0 <= i < |xss| && x in xss[i]
  {
    if |xss| > 0 {
      var n := |xss| - 1;
      var init := xss[..n];
      FlattenMembers(init);
      forall x ensures x in Flatten(xss) <==> exists i :: 0 <= i < |xss| && x in xss[i] {
        if x in Flatten(init) {
          var i :| 0 <= i < n && x in init[i];
          assert init[i] == xss[i];
        }
        if exists i :: 0 <= i < |xss| && x in xss[i] {
          var i :| 0 <= i < |xss| && x in xss[i];
          if i < n {
            assert init[i] == xss[i];
          }
        }
      }
    }
  }

  /** Python's `s[::-1]`. */
  function Reversed<T>(s: seq<T>): (r: seq<T>)
    ensures |r| == |s|
  {
    seq(|s|, i requires 0 <= i < |s| => s[|s| - 1 - i])
  }

  /** Index of the first occurrence of `x` in `s` (Python's `s.index(x)`). */
  function FirstIndex<T(==)>(s: seq<T>, x: T): (i: nat)
    requires x in s
    ensures i < |s| && s[i] == x && x !in s[..i]
  {
    if s[0] == x then 0
    else
      var i := 1 + FirstIndex(s[1..], x);
      assert s[..i] == [s[0]] + s[1..][..i - 1];
      i
  }

  /** The first occurrence is the only index with nothing equal before it. */
  lemma FirstIndexUnique<T>(s: seq<T>, x: T, i: nat)
    requires i < |s| && s[i] == x && x !in s[..i]
    ensures FirstIndex(s, x) == i
  {
    var f := FirstIndex(s, x);
    assert forall k :: 0 <= k < i ==> s[k] != x by {
      forall k | 0 <= k < i ensures s[k] != x { assert s[..i][k] == s[k]; }
    }
    assert forall k :: 0 <= k < f ==> s[k] != x by {
      forall k | 0 <= k < f ensures s[k] != x { assert s[..f][k] == s[k]; }
    }
  }
}
