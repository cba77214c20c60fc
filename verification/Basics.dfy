/** What several modules share: optional values, the bounds of `int`, bytes, and joined sequences. */
module Basics {

  datatype Option<+T> = None | Some(value: T)

  const INT_MAX: int := 0x7fff_ffff

  type Byte = b: int | 0 <= b < 0x100

  function Min(a: int, b: int): int {
    if a < b then a else b
  }

  function Max(a: int, b: int): int {
    if a < b then b else a
  }

  /** All parts, one behind the other. */
  function Concat(parts: seq<string>): string {
    if parts == [] then "" else parts[0] + Concat(parts[1..])
  }

  lemma {:induction false} ConcatSnoc(parts: seq<string>, s: string)
    ensures Concat(parts + [s]) == Concat(parts) + s
  {
    if parts == [] {
      assert parts + [s] == [s] && [s][1..] == [];
    } else {
      assert (parts + [s])[0] == parts[0] && (parts + [s])[1..] == parts[1..] + [s];
      ConcatSnoc(parts[1..], s);
      assert parts[0] + (Concat(parts[1..]) + s) == parts[0] + Concat(parts[1..]) + s;
    }
  }
}
