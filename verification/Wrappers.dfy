/** Stock failure-compatible datatypes and small facts shared by the components. */
module Wrappers {

  datatype Option<+T> = None | Some(value: T)

  datatype Result<+T, +E> = Ok(value: T) | Err(error: E)

  type Byte = b: int | 0 <= b < 256

  type Bytes = seq<Byte>

  const NEWLINE: Byte := 0x0A
  const CARRIAGE_RETURN: Byte := 0x0D

  /** The time between two clock readings, which saturates at zero. */
  function Elapsed(now: nat, since: nat): nat {
    if since <= now then now - since else 0
  }

  /** `r` lists the elements of `elements`, each once, in some order. */
  ghost predicate Enumerates<T(!new)>(r: seq<T>, elements: set<T>) {
    && (forall x :: x in r <==> x in elements)
    && NoDuplicates(r)
  }

  ghost predicate NoDuplicates<T>(r: seq<T>) {
    forall i, j :: 0 <= i < j < |r| ==> r[i] != r[j]
  }

  lemma Assoc<T>(a: seq<T>, b: seq<T>, c: seq<T>)
    ensures a + b + c == a + (b + c)
  {
  }
}
