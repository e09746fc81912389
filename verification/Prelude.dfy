/** Value types shared by the models. */
module Prelude {

  /** `null` and `undefined` of the source. */
  datatype Option<+T> = None | Some(value: T)

  /** `a ?? b`. */
  function OrElse<T>(a: Option<T>, b: Option<T>): Option<T> {
    if a.Some? then a else b
  }

  /** What an awaited call settles to: a value, or a thrown error. */
  datatype Outcome<+T> = Returned(value: T) | Thrown

  newtype byte = x: int | 0 <= x < 0x100

  type Bytes = seq<byte>

  /** The parts one after the other. */
  function Concat<T>(parts: seq<seq<T>>): (whole: seq<T>) {
    if parts == [] then [] else Concat(parts[..|parts| - 1]) + parts[|parts| - 1]
  }

  /** One part is itself, and the parts of two lists come in the order of the lists. */
  lemma {:induction false} ConcatAppend<T>(part: seq<T>, parts: seq<seq<T>>, more: seq<seq<T>>)
    ensures Concat([part]) == part
    ensures Concat(parts + more) == Concat(parts) + Concat(more)
    decreases |more|
  {
    assert [part][..0] == [];
    if more == [] {
      assert parts + more == parts;
    } else {
      var front := more[..|more| - 1];
      assert (parts + more)[..|parts + more| - 1] == parts + front;
      ConcatAppend(part, parts, front);
    }
  }
}
