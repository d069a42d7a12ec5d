/** Bytes, optional values and results, shared by every other module. */
module Basics {

  type Bytes = seq<bv8>

  /** A `u8` used as a number (a sequence number, a version, a counter) rather than as bits. */
  type u8 = n: int | 0 <= n < 256

  /** One more, wrapping from 255 to 0. */
  function Wrapping(n: u8): u8 {
    if n == 255 then 0 else n + 1
  }

  lemma WrappingIsMod(n: nat)
    ensures Wrapping(n % 256) == (n + 1) % 256
  {
  }

  datatype Option<+T> = None | Some(value: T)

  datatype Result<+T, +E> = Ok(value: T) | Err(error: E)
  {
    predicate IsFailure() { Err? }

    function PropagateFailure<U>(): Result<U, E>
      requires Err?
    {
      Err(error)
    }

    function Extract(): T
      requires Ok?
    {
      value
    }
  }

  /** The concatenation of a list of sequences, in order. */
  function Concat<T>(parts: seq<seq<T>>): seq<T>
  {
    if parts == [] then [] else parts[0] + Concat(parts[1..])
  }

  lemma Associates<T>(x: seq<T>, y: seq<T>, z: seq<T>)
    ensures x + (y + z) == (x + y) + z
  {
  }

  /** Five pieces written one after another, and the same pieces nested. */
  lemma Regroup<T>(o: seq<T>, a: seq<T>, b: seq<T>, c: seq<T>, d: seq<T>)
    ensures o + a + b + c + d == o + (a + (b + (c + d)))
  {
    Associates(o + a + b, c, d);
    Associates(o + a, b, c + d);
    Associates(o, a, b + (c + d));
  }
}
