/** Types every part of the model shares. */
module Prelude {

  datatype Option<+T> = None | Some(value: T)

  datatype Result<+T, +E> = Ok(value: T) | Err(error: E)

  type Byte = x: int | 0 <= x < 256

  type Bytes = seq<Byte>

  type U32 = x: int | 0 <= x < 0x1_0000_0000

  type U64 = x: int | 0 <= x < 0x1_0000_0000_0000_0000

  predicate Distinct<T(==)>(s: seq<T>) {
    forall i, j :: 0 <= i < j < |s| ==> s[i] != s[j]
  }

  function Min(a: nat, b: nat): nat {
    if a < b then a else b
  }

  lemma Suffix<T>(start: seq<T>, more: seq<T>)
    ensures start <= start + more && (start + more)[|start|..] == more
  {
  }

  lemma AtLeastOnce(b: int, d: int)
    requires b > 0 && d > 0
    ensures b * d >= b
  {
  }

  lemma QuotientOf(b: int, q: int, r: int)
    requires 0 <= r < b
    ensures (b * q + r) / b == q
  {
    var n := b * q + r;
    var d := q - n / b;
    assert b * d == n % b - r by { assert b * d == b * q - b * (n / b); }
    if d > 0 {
      AtLeastOnce(b, d);
    } else if d < 0 {
      AtLeastOnce(b, -d);
    }
  }
}
