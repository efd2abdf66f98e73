/** Small helpers shared by the game core, the input validator and the solver. */
module Common {

  datatype Option<T> = None | Some(value: T)

  /** Either a value or the error the game raises instead of returning one. */
  datatype Result<T, E> = Success(value: T) | Failure(error: E)

  /** Number of positions of `s` holding `x` (Python's `list.count`). */
  function Occurrences<T(==)>(s: seq<T>, x: T): (n: nat)
    ensures n <= |s|
    ensures n == 0 <==> x !in s
    decreases |s|
  {
    if s == [] then 0
    else
      assert s == s[..|s| - 1] + [s[|s| - 1]];
      Occurrences(s[..|s| - 1], x) + (if s[|s| - 1] == x then 1 else 0)
  }

  /** If every position of `q` that holds `x` also holds `x` in `p`, then `q`
      has no more occurrences of `x` than `p`. */
  lemma {:induction false} OccurrencesMonotone<T>(p: seq<T>, q: seq<T>, x: T)
    requires |p| == |q|
    requires forall i :: 0 <= i < |q| && q[i] == x ==> p[i] == x
    ensures Occurrences(q, x) <= Occurrences(p, x)
    decreases |p|
  {
    if p != [] {
      var n := |p| - 1;
      OccurrencesMonotone(p[..n], q[..n], x);
    }
  }

  /** The converse direction with a strict gap: a position where `p` holds `x`
      and `q` does not makes the count strictly smaller. */
  lemma {:induction false} OccurrencesStrictlyMonotone<T>(p: seq<T>, q: seq<T>, x: T, k: nat)
    requires |p| == |q| && k < |p|
    requires forall i :: 0 <= i < |q| && q[i] == x ==> p[i] == x
    requires p[k] == x && q[k] != x
    ensures Occurrences(q, x) < Occurrences(p, x)
    decreases |p|
  {
    var n := |p| - 1;
    if k == n {
      OccurrencesMonotone(p[..n], q[..n], x);
    } else {
      OccurrencesStrictlyMonotone(p[..n], q[..n], x, k);
    }
  }
}
