/** The two style generators: `rainbow`, evenly spaced hues for the source
    nodes, and `node_style`, the Graphviz style codes handed out per
    top-level directory. */
module Styles {
  import opened Results
  import opened Seqs

  /** A Graphviz colour: an HSV(A) triple from `rainbow`, or a colour name
      such as the `"grey"` fallback. The hue is kept exact, as a fraction
      of a full turn. */
  datatype Color =
    | Hsv(hue: real, saturation: real, value: real, alpha: Option<int>)
    | Named(name: string)

  const Saturation: real := 1.0
  const Value: real := 0.9

  /** `rainbow(n, alpha)`: `n` colours whose hues are `i / n` for `i` in
      `0 .. n - 1`. `1 / n` raises for `n == 0`. */
  function Rainbow(n: nat, alpha: Option<int>): (r: Result<seq<Color>>)
    ensures r.Failure? <==> n == 0
    ensures r.Failure? ==> r.error == ZeroDivisionError
    ensures r.Success? ==> |r.value| == n
    ensures r.Success? ==> forall i :: 0 <= i < n ==>
      r.value[i].Hsv? && r.value[i].hue * n as real == i as real &&
      r.value[i].saturation == Saturation && r.value[i].value == Value &&
      r.value[i].alpha == alpha
  {
    if n == 0 then Failure(ZeroDivisionError)
    else
      var step := 1.0 / n as real;
      Success(seq(n, i requires 0 <= i < n => Hsv(i as real * step, Saturation, Value, alpha)))
  }

  /** The hues lie in one turn, start at 0 and are `1 / n` apart, so no two
      entries share a hue. */
  lemma RainbowSpacing(n: nat, alpha: Option<int>, i: nat, j: nat)
    requires 0 < n && i < n && j < n
    ensures var c := Rainbow(n, alpha).value;
      && 0.0 <= c[i].hue < 1.0
      && (i == 0 ==> c[i].hue == 0.0)
      && (i + 1 < n ==> c[i + 1].hue - c[i].hue == 1.0 / n as real)
      && (i != j ==> c[i].hue != c[j].hue)
  {
    var c := Rainbow(n, alpha).value;
    var m := n as real;
    assert c[i].hue == i as real / m;
    assert c[j].hue == j as real / m;
    if i + 1 < n {
      assert c[i + 1].hue == (i + 1) as real / m;
    }
  }

  /** The three pairs whose product gives the style codes. */
  const Weights: seq<string> := ["", "bold"]
  const Strokes: seq<string> := ["solid", "dashed"]
  const Corners: seq<string> := ["rounded", "diagonals"]

  /** One quoted style code; the weight is left out when it is empty. */
  function Code(weight: string, stroke: string, corner: string): (r: string)
    ensures |r| == (if |weight| > 0 then |weight| + 1 else 0) + |stroke| + |corner| + 3
  {
    if weight != "" then "\"" + weight + "," + stroke + "," + corner + "\""
    else "\"" + stroke + "," + corner + "\""
  }

  /** The style codes in the order of the nested comprehension: weight
      outermost, corner innermost. */
  function Codes(): (r: seq<string>)
    ensures |r| == 8
  {
    [Code("", "solid", "rounded"), Code("", "solid", "diagonals"),
     Code("", "dashed", "rounded"), Code("", "dashed", "diagonals"),
     Code("bold", "solid", "rounded"), Code("bold", "solid", "diagonals"),
     Code("bold", "dashed", "rounded"), Code("bold", "dashed", "diagonals")]
  }

  /** Code `k` combines weight `k / 4`, stroke `k / 2 % 2` and corner `k % 2`:
      the list is the nested comprehension over the three pairs. */
  lemma CodeAt(k: nat)
    requires k < 8
    ensures Codes()[k] == Code(Weights[k / 4], Strokes[k / 2 % 2], Corners[k % 2])
  {
    var w, s, c := k / 4, k / 2 % 2, k % 2;
    assert k == 4 * w + 2 * s + c;
  }

  /** The eight codes are pairwise different. */
  lemma CodesDistinct()
    ensures NoDup(Codes())
  {
  }

  /** Python's `s * k` on lists: `k` copies of `s`, one after another. */
  function Repeat<T>(s: seq<T>, k: nat): (r: seq<T>)
    ensures |r| == k * |s|
  {
    if k == 0 then []
    else
      var rest := Repeat(s, k - 1);
      assert k * |s| == (k - 1) * |s| + |s|;
      s + rest
  }

  /** Entry `i` of `s * k`, for a list `s` of eight, is entry `i mod 8` of `s`. */
  lemma {:induction false} RepeatAt<T>(s: seq<T>, k: nat, i: nat)
    requires |s| == 8 && i < |Repeat(s, k)|
    ensures Repeat(s, k)[i] == s[i % 8]
  {
    if i >= 8 {
      RepeatAt(s, k - 1, i - 8);
    }
  }

  /** `ceil(n / d)` for natural numbers. */
  function CeilDiv(n: nat, d: nat): nat
    requires d > 0
  {
    (n + d - 1) / d
  }

  /** The body of `node_style` on a list of eight codes: repeat the list
      `ceil(n / 8)` times when `n` exceeds it, then keep the first `n`. */
  function Recycle<T>(codes: seq<T>, n: nat): (r: seq<T>)
    requires |codes| == 8
    ensures |r| == n
    ensures forall i :: 0 <= i < n ==> r[i] == codes[i % 8]
  {
    if n > |codes| then
      var k := CeilDiv(n, |codes|);
      assert k * 8 >= n;
      assert forall i :: 0 <= i < n ==> Repeat(codes, k)[i] == codes[i % 8] by {
        forall i | 0 <= i < n ensures Repeat(codes, k)[i] == codes[i % 8] {
          RepeatAt(codes, k, i);
        }
      }
      Repeat(codes, k)[..n]
    else
      assert forall i :: 0 <= i < n ==> i % 8 == i;
      codes[..n]
  }

  /** `node_style(n)`: exactly `n` style codes, cycling through the eight
      codes in order. */
  function NodeStyle(n: nat): (r: seq<string>)
    ensures |r| == n
    ensures forall i :: 0 <= i < n ==> r[i] == Codes()[i % 8]
  {
    Recycle(Codes(), n)
  }

  /** Up to eight directories get pairwise different codes. */
  lemma NodeStyleDistinct(n: nat)
    requires n <= 8
    ensures NoDup(NodeStyle(n))
  {
    CodesDistinct();
    var r := NodeStyle(n);
    var c := Codes();
    forall i, j | 0 <= i < j < n ensures r[i] != r[j] {
      assert i % 8 == i && j % 8 == j;
      assert r[i] == c[i] && r[j] == c[j];
      assert c[i] != c[j];
    }
  }
}
