/** Shared vocabulary: optional values, results, bytes and lists of lists. */
module Basics {

  datatype Option<+T> = None | Some(value: T)

  /** A returned value, or the C++ or Python exception raised instead of it. */
  datatype Result<+T> = Ok(value: T) | Err

  type Byte = b: int | 0 <= b < 256

  type Bytes = seq<Byte>

  function Flatten<T>(parts: seq<seq<T>>): seq<T> {
    if parts == [] then [] else Flatten(parts[..|parts| - 1]) + parts[|parts| - 1]
  }

  function Min(a: nat, b: nat): nat {
    if a < b then a else b
  }

  /** A run of steps. */
  function Fold<S, E>(step: (S, E) -> S, s: S, es: seq<E>): S {
    if es == [] then s
    else
      var n := |es| - 1;
      step(Fold(step, s, es[..n]), es[n])
  }

  lemma {:induction false} FoldAppend<S, E>(step: (S, E) -> S, s: S, es: seq<E>, fs: seq<E>)
    ensures Fold(step, s, es + fs) == Fold(step, Fold(step, s, es), fs)
  {
    if fs == [] {
      assert es + fs == es;
    } else {
      var n := |fs| - 1;
      assert (es + fs)[..|es| + n] == es + fs[..n];
      FoldAppend(step, s, es, fs[..n]);
    }
  }
}
