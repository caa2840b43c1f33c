/** Optional values, outcomes of calls that can be rejected, 32-bit numbers, and the size of subsets. */
module Wrappers {
  datatype Option<+T> = None | Some(value: T)

  datatype Result<+T, +E> = Ok(value: T) | Err(error: E)

  /** Unsigned 32-bit values: limits, offsets, page numbers. */
  type u32 = x: int | 0 <= x < 0x1_0000_0000

  const U32_MAX: u32 := 0xFFFF_FFFF

  type byte = x: int | 0 <= x < 256

  function Min(x: nat, y: nat): nat { if x < y then x else y }

  /** The product as repeated addition, which keeps multiplication of unknowns away from the solver. */
  function Product(x: nat, y: nat): nat {
    if y == 0 then 0 else Product(x, y - 1) + x
  }

  lemma {:induction false} ProductIsTimes(x: nat, y: nat)
    ensures Product(x, y) == x * y
  {
    if y > 0 { ProductIsTimes(x, y - 1); }
  }

  /** The offset of a page. */
  function Offset(page: u32, perPage: u32): nat {
    Product(page, perPage)
  }

  lemma Associative<T>(a: seq<T>, b: seq<T>, c: seq<T>)
    ensures (a + b) + c == a + (b + c)
  {
  }

  /** A subset is no larger, and as large only if it is the whole set. */
  lemma SubsetSize<T>(a: set<T>, b: set<T>)
    requires a <= b
    ensures |a| <= |b|
    ensures |a| == |b| ==> a == b
  {
    assert b == a + (b - a);
  }
}
