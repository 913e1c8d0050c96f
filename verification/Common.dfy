/** Small things several modules need. */
module Common {
  datatype Option<+T> = None | Some(value: T)

  function Min(a: nat, b: nat): nat {
    if a < b then a else b
  }

  function Max(a: nat, b: nat): nat {
    if a < b then b else a
  }

  lemma MulMono(a: int, b: int, c: nat)
    requires a <= b
    ensures a * c <= b * c
  {
  }

  /** The quotient is determined by its bounds. */
  lemma DivIs(a: int, b: nat, q: int)
    requires b > 0 && q * b <= a < q * b + b
    ensures a / b == q
  {
    var d := a / b;
    if d < q {
      MulMono(d + 1, q, b);
    } else if d > q {
      MulMono(q + 1, d, b);
    }
  }

  /** {0, ..., n - 1}. */
  ghost function Interval(n: nat): set<int> {
    if n == 0 then {} else Interval(n - 1) + {n - 1}
  }

  lemma {:induction false} IntervalIs(n: nat)
    ensures |Interval(n)| == n
    ensures forall i :: i in Interval(n) <==> 0 <= i < n
  {
    if n > 0 {
      IntervalIs(n - 1);
    }
  }

  lemma SubsetSize<T>(a: set<T>, b: set<T>)
    requires a <= b
    ensures |a| <= |b| && (|a| == |b| ==> a == b)
  {
    assert |b| == |a| + |b - a|;
  }
}
