/** calloc of share/libc/stdlib.c for every word width. */
module Calloc {
  import opened CMemory

  /** The divide-back test on size_t values below `limit`. */
  predicate NoOverflow(limit: nat, nmemb: nat, size: nat)
    requires 0 < limit
  {
    var l := (nmemb * size) % limit;
    size == 0 || l / size == nmemb
  }

  /** The test passes exactly when the product fits the word. */
  lemma NoOverflowExact(limit: nat, nmemb: nat, size: nat)
    requires nmemb < limit && size < limit
    ensures NoOverflow(limit, nmemb, size) <==> nmemb * size < limit
  {
    if size != 0 { DivideBack(limit, nmemb * size, nmemb, size); }
  }

  /** The same with the product as a number of its own. */
  lemma DivideBack(limit: nat, product: nat, nmemb: nat, size: nat)
    requires 0 < size < limit && product == nmemb * size
    ensures (product % limit) / size == nmemb <==> product < limit
  {
    Remainder(product, limit);
    QuotientOf(product % limit, product, nmemb, size);
  }

  lemma Remainder(product: nat, limit: nat)
    requires 0 < limit
    ensures product < limit ==> product % limit == product
    ensures limit <= product ==> product % limit <= product - limit
  {
    if limit <= product {
      assert product == limit * (product / limit) + product % limit;
      assert product / limit >= 1;
    }
  }

  lemma QuotientOf(l: nat, product: nat, nmemb: nat, size: nat)
    requires size > 0 && product == nmemb * size
    ensures l / size == nmemb <==> product <= l < product + size
  {
    Quotient(l, nmemb, size);
  }

  /** l / size is nmemb exactly when l lies in the nmemb-th interval of length size. */
  lemma Quotient(l: nat, nmemb: nat, size: nat)
    requires size > 0
    ensures l / size == nmemb <==> nmemb * size <= l < nmemb * size + size
  {
    var q := l / size;
    assert q * size <= l < q * size + size;
    if q < nmemb { MulLe(q + 1, nmemb, size); }
    if nmemb < q { MulLe(nmemb + 1, q, size); }
  }

  lemma MulLe(a: nat, b: nat, p: nat)
    requires a <= b
    ensures a * p <= b * p
  {
  }

  /** Fails on overflow or without memory, else returns nmemb * size zero bytes. */
  method Calloc(limit: nat, nmemb: nat, size: nat, available: bool) returns (p: array?<Byte>)
    requires nmemb < limit && size < limit
    ensures p != null <==> nmemb * size < limit && available
    ensures p != null ==> fresh(p) && p.Length == nmemb * size && forall i :: 0 <= i < p.Length ==> p[i] == 0
  {
    NoOverflowExact(limit, nmemb, size);
    var l := (nmemb * size) % limit;
    if size != 0 && l / size != nmemb {
      return null;
    }
    if !available {
      return null;
    }
    var block := new Byte[l];
    MemSet(block, 0, 0, l);
    return block;
  }

  /** memset of share/libc/string.c, on a whole range. */
  method MemSet(a: array<Byte>, s: nat, c: int, n: nat)
    requires s + n <= a.Length
    modifies a
    ensures forall q :: 0 <= q < a.Length ==> a[q] == if s <= q < s + n then ToByte(c) else old(a[q])
  {
    for i := 0 to n
      invariant forall q :: 0 <= q < a.Length ==> a[q] == if s <= q < s + i then ToByte(c) else old(a[q])
    {
      a[s + i] := ToByte(c);
    }
  }
}
