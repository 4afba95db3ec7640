/**
 Python integer and list operators as they behave on every `int`,
 including zero and negative operands: floor division `//`, the
 truncating `int(a / b)`, list repetition `xs * k` and the slice `xs[:m]`.
 */
module PyOps {

  function Abs(x: int): (r: nat) {
    if x < 0 then -x else x
  }

  /** `a // b`: rounds toward minus infinity (Dafny's own `/` is Euclidean). */
  function FloorDiv(a: int, b: int): (q: int)
    requires b != 0
    ensures b > 0 ==> b * q <= a < b * q + b
    ensures b < 0 ==> b * q + b < a <= b * q
  {
    if b > 0 then a / b else (-a) / (-b)
  }

  /** `int(a / b)`: the quotient rounded toward zero. */
  function TruncDiv(a: int, b: int): (q: int)
    requires b != 0
    ensures Abs(b) * Abs(q) <= Abs(a) < Abs(b) * Abs(q) + Abs(b)
    ensures q > 0 ==> (a > 0) == (b > 0)
    ensures q < 0 ==> (a > 0) != (b > 0)
  {
    var m := Abs(a) / Abs(b);
    DivBounds(Abs(a), Abs(b));
    if (a < 0) == (b < 0) then m else -m
  }

  lemma DivBounds(x: nat, y: nat)
    requires y > 0
    ensures y * (x / y) <= x < y * (x / y) + y
  {
  }

  /** `xs * k`: `xs` written `k` times in a row; no copies when `k <= 0`. */
  function Repeat<T>(xs: seq<T>, k: int): (r: seq<T>)
    ensures |r| == |xs| * (if k > 0 then k else 0)
    ensures forall i :: 0 <= i < |r| ==> r[i] == xs[i % |xs|]
    decreases if k > 0 then k else 0
  {
    if k <= 0 then []
    else
      var rest := Repeat(xs, k - 1);
      assert |xs| * k == |xs| + |xs| * (k - 1);
      forall i | |xs| <= i < |xs| + |rest|
        ensures i % |xs| == (i - |xs|) % |xs|
      {
        ModOneBlockLess(i, |xs|);
      }
      xs + rest
  }

  lemma ModOneBlockLess(i: int, n: int)
    requires 0 < n <= i
    ensures i % n == (i - n) % n
  {
    var q, r := (i - n) / n, (i - n) % n;
    assert i == (q + 1) * n + r;
    DivModUnique(i, n, q + 1, r);
  }

  /** Quotient and remainder are the only ones with `0 <= r < n`. */
  lemma DivModUnique(i: int, n: int, q: int, r: int)
    requires 0 < n && 0 <= r < n && i == q * n + r
    ensures i / n == q && i % n == r
  {
    var d := q - i / n;
    assert d * n == i % n - r;
  }

  /** The length of `xs[:stop]` for a list of length `n`. */
  function SliceLength(n: nat, stop: int): (len: nat)
    ensures len <= n
    ensures 0 <= stop <= n ==> len == stop
    ensures stop >= n ==> len == n
    ensures stop < 0 ==> len + Abs(stop) == n || (len == 0 && Abs(stop) >= n)
  {
    if stop >= 0 then (if stop < n then stop else n)
    else if n + stop > 0 then n + stop else 0
  }

  /** `xs[:stop]`: a prefix of `xs`; a negative `stop` counts from the end. */
  function Slice<T>(xs: seq<T>, stop: int): (r: seq<T>)
    ensures |r| == SliceLength(|xs|, stop)
    ensures forall i :: 0 <= i < |r| ==> r[i] == xs[i]
  {
    xs[..SliceLength(|xs|, stop)]
  }
}
