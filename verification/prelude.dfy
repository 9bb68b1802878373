/** Values shared by every part of the model: Go's nil-able values, opaque
    `error` and `time.Time` values, and the flattening of batches and pages. */
module Prelude {

  /** A Go pointer, interface or slice that may be nil. */
  datatype Option<+T> = None | Some(value: T)

  /** An opaque Go `error`; the model only passes it along and compares it. */
  datatype Error = Error(message: string)

  /** An opaque instant (Go `time.Time`). The model never inspects it. */
  datatype Time = Time(instant: int)

  /** The Go zero value of `time.Time`. */
  const ZeroTime: Time := Time(0)

  /** What a producer goroutine sends on a channel: the values in order, and
      whether it then closed the channel (false when it never finishes). */
  datatype Stream<T> = Stream(values: seq<T>, closed: bool)

  /** Concatenation of a sequence of sequences, in order. */
  function Flatten<T>(xss: seq<seq<T>>): (r: seq<T>)
    decreases |xss|
  {
    if |xss| == 0 then [] else xss[0] + Flatten(xss[1..])
  }

  /** Flattening distributes over concatenation. */
  lemma {:induction false} FlattenAppend<T>(a: seq<seq<T>>, b: seq<seq<T>>)
    ensures Flatten(a + b) == Flatten(a) + Flatten(b)
    decreases |a|
  {
    if |a| == 0 {
      assert a + b == b;
    } else {
      assert (a + b)[1..] == a[1..] + b;
      FlattenAppend(a[1..], b);
    }
  }

  /** Flattening sequences that all have length n gives n times as many elements. */
  lemma {:induction false} FlattenUniformLength<T>(xss: seq<seq<T>>, n: nat)
    requires forall i :: 0 <= i < |xss| ==> |xss[i]| == n
    ensures |Flatten(xss)| == n * |xss|
    decreases |xss|
  {
    if |xss| > 0 {
      FlattenUniformLength(xss[1..], n);
    }
  }

  /** Flattening non-empty sequences gives at least one element per part. */
  lemma {:induction false} FlattenOfNonEmpty<T>(xss: seq<seq<T>>)
    requires forall i :: 0 <= i < |xss| ==> |xss[i]| > 0
    ensures |Flatten(xss)| >= |xss|
    decreases |xss|
  {
    if |xss| > 0 {
      FlattenOfNonEmpty(xss[1..]);
    }
  }

  /** Euclidean division is the only way to write L as n * k + r with 0 <= r < n. */
  lemma DivisionUnique(l: nat, n: nat, k: nat, r: nat)
    requires 0 <= r < n
    requires l == n * k + r
    ensures k == l / n && r == l % n
  {
    var q := l / n;
    assert l == n * q + l % n;
    assert n * (k + 1) == n * k + n;
    assert n * (q + 1) == n * q + n;
    MulMonotone(n, k + 1, q);
    MulMonotone(n, q + 1, k);
  }

  lemma MulMonotone(n: nat, a: nat, b: nat)
    ensures a <= b ==> n * a <= n * b
  {
    if a <= b {
      assert n * b == n * a + n * (b - a);
    }
  }
}
