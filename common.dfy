/** Shared vocabulary of the FTL statistics core: optional values (a C pointer
    that may be NULL), the corruption sentinel stored in every record, and the
    first-occurrence search that every linear scan of the core performs. */
module Common {

  /** A value that may be absent; None stands for a NULL pointer. */
  datatype Option<T> = None | Some(value: T)

  /** The sentinel written into the `magic` field of every record this core
      creates. FTL.h, which defines it, is not part of this model; the proofs
      depend only on every created record carrying this one value. */
  const MAGICBYTE: int := 0x57

  /** Index of the first occurrence of `x` in `s`, or -1 when `x` does not
      occur: the result of a `for` scan that returns on the first hit. */
  function Find<T(==)>(s: seq<T>, x: T): (r: int)
    ensures -1 <= r < |s|
    ensures r < 0 <==> x !in s
    ensures 0 <= r ==> s[r] == x && forall k :: 0 <= k < r ==> s[k] != x
  {
    if s == [] then -1
    else if s[0] == x then 0
    else
      var r := Find(s[1..], x);
      assert x in s[1..] ==> x in s;
      if r < 0 then -1 else r + 1
  }
}
