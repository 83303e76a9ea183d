/**
 * The pluggable string hashes of lab05 (`hash_functions.py`): the
 * `HashFunction` wrapper and the three accumulator hashes `sum_hash`,
 * `poly_hash` and `djb2_hash`.  Each hash is a loop method proved against a
 * recursive specification function over the string's prefixes.
 */
module HashFunctions {
  import opened Wrappers

  /** Python's `ord`: the code point of a character. */
  function Ord(c: char): nat { c as int }

  /** A named hash function; calling it applies `fn`. */
  datatype HashFunction = HashFunction(fn: string -> nat, name: string)

  /**
   * The constructor `HashFunction(fn, name=None)`: a missing or empty name
   * (both falsy in Python) falls back to the function's own `__name__`,
   * which is passed in as `fnName`.
   */
  function MakeHashFunction(fn: string -> nat, name: Option<string>, fnName: string): (h: HashFunction)
    ensures h.fn == fn
    ensures name.Some? && name.value != [] ==> h.name == name.value
    ensures name.None? || name.value == [] ==> h.name == fnName
  {
    HashFunction(fn, if name.Some? && name.value != [] then name.value else fnName)
  }

  /** `HashFunction.__call__`: delegates to the wrapped function. */
  function Call(h: HashFunction, key: string): (r: nat)
    ensures r == h.fn(key)
  {
    h.fn(key)
  }

  // ---------------------------------------------------------------------
  // sum_hash

  /** Sum of the code points of `s`, accumulated from the left. */
  function SumOfCodes(s: string): nat
  {
    if s == [] then 0 else SumOfCodes(s[..|s| - 1]) + Ord(s[|s| - 1])
  }

  /** `sum_hash`: adds the code of each character to `s`. */
  method SumHash(key: string) returns (s: nat)
    ensures s == SumOfCodes(key)
  {
    s := 0;
    for i := 0 to |key|
      invariant s == SumOfCodes(key[..i])
    {
      assert key[..i + 1][..i] == key[..i];
      s := s + Ord(key[i]);
    }
    assert key[..|key|] == key;
  }

  /** `sum_hash` is additive over concatenation. */
  lemma {:induction false} SumOfCodesAppend(a: string, b: string)
    ensures SumOfCodes(a + b) == SumOfCodes(a) + SumOfCodes(b)
    decreases |b|
  {
    if b == [] {
      assert a + b == a;
    } else {
      var b' := b[..|b| - 1];
      assert (a + b)[..|a + b| - 1] == a + b';
      SumOfCodesAppend(a, b');
    }
  }

  /**
   * The table's default hash `sum(ord(c) for c in k)`: the same sum,
   * written from the front of the string.
   */
  function DefaultHash(k: string): nat
  {
    if k == [] then 0 else Ord(k[0]) + DefaultHash(k[1..])
  }

  /** The table's default hash computes exactly `sum_hash`. */
  lemma {:induction false} DefaultHashIsSumHash(k: string)
    ensures DefaultHash(k) == SumOfCodes(k)
  {
    if k != [] {
      DefaultHashIsSumHash(k[1..]);
      assert k == [k[0]] + k[1..];
      SumOfCodesAppend([k[0]], k[1..]);
      assert [k[0]][..0] == [];
    }
  }

  /** The hash function the table uses when none is supplied. */
  function DefaultHashFunction(): (h: HashFunction)
    ensures h.name == "sum_hash"
    ensures forall k :: Call(h, k) == SumOfCodes(k)
  {
    var h := HashFunction(DefaultHash, "sum_hash");
    assert forall k :: Call(h, k) == SumOfCodes(k) by {
      forall k ensures Call(h, k) == SumOfCodes(k) { DefaultHashIsSumHash(k); }
    }
    h
  }

  // ---------------------------------------------------------------------
  // poly_hash

  /** Horner evaluation of the code points of `s` in base `base`. */
  function Horner(s: string, base: int): int
  {
    if s == [] then 0 else Horner(s[..|s| - 1], base) * base + Ord(s[|s| - 1])
  }

  function Power(b: int, e: nat): int
  {
    if e == 0 then 1 else b * Power(b, e - 1)
  }

  /** `poly_hash(key, base=257)`: `h = h * base + ord(ch)` for each character. */
  method PolyHash(key: string, base: int := 257) returns (h: int)
    ensures h == Horner(key, base)
  {
    h := 0;
    for i := 0 to |key|
      invariant h == Horner(key[..i], base)
    {
      assert key[..i + 1][..i] == key[..i];
      h := h * base + Ord(key[i]);
    }
    assert key[..|key|] == key;
  }

  /** Horner over a concatenation shifts the left part by `base^|b|`. */
  lemma {:induction false} HornerAppend(a: string, b: string, base: int)
    ensures Horner(a + b, base) == Horner(a, base) * Power(base, |b|) + Horner(b, base)
    decreases |b|
  {
    if b == [] {
      assert a + b == a;
    } else {
      var b' := b[..|b| - 1];
      assert (a + b)[..|a + b| - 1] == a + b';
      HornerAppend(a, b', base);
      calc {
        Horner(a + b, base);
        Horner(a + b', base) * base + Ord(b[|b| - 1]);
        (Horner(a, base) * Power(base, |b'|) + Horner(b', base)) * base + Ord(b[|b| - 1]);
        Horner(a, base) * (Power(base, |b'|) * base) + (Horner(b', base) * base + Ord(b[|b| - 1]));
        Horner(a, base) * Power(base, |b|) + Horner(b, base);
      }
    }
  }

  /** With a nonnegative base (257 by default) the polynomial hash is nonnegative. */
  lemma {:induction false} HornerNonnegative(s: string, base: int)
    requires base >= 0
    ensures Horner(s, base) >= 0
    decreases |s|
  {
    if s != [] {
      HornerNonnegative(s[..|s| - 1], base);
      assert Horner(s[..|s| - 1], base) * base >= 0;
    }
  }

  // ---------------------------------------------------------------------
  // djb2_hash

  /** 2^64: `h & 0xFFFFFFFFFFFFFFFF` keeps the value modulo this. */
  const Two64: nat := 0x1_0000_0000_0000_0000

  /** Python's `h << k` on a nonnegative integer (no width limit). */
  function ShiftLeft(h: nat, k: nat): nat
  {
    if k == 0 then h else 2 * ShiftLeft(h, k - 1)
  }

  /** The djb2 step `(h << 5) + h` is multiplication by 33. */
  lemma Djb2Step(h: nat)
    ensures ShiftLeft(h, 5) + h == 33 * h
  {
    assert ShiftLeft(h, 1) == 2 * h;
    assert ShiftLeft(h, 2) == 4 * h;
    assert ShiftLeft(h, 3) == 8 * h;
    assert ShiftLeft(h, 4) == 16 * h;
  }

  /** The unbounded djb2 accumulator: 5381, then `h * 33 + ord(ch)`. */
  function Djb2Acc(s: string): nat
  {
    if s == [] then 5381 else 33 * Djb2Acc(s[..|s| - 1]) + Ord(s[|s| - 1])
  }

  /**
   * `djb2_hash`: runs the unbounded accumulator with Python's
   * arbitrary-precision integers, then masks the result to 64 bits.
   */
  method Djb2Hash(key: string) returns (r: nat)
    ensures r < Two64
    ensures r == Djb2Acc(key) % Two64
    ensures key == [] ==> r == 5381
  {
    var h: nat := 5381;
    for i := 0 to |key|
      invariant h == Djb2Acc(key[..i])
    {
      assert key[..i + 1][..i] == key[..i];
      Djb2Step(h);
      h := (ShiftLeft(h, 5) + h) + Ord(key[i]);
    }
    assert key[..|key|] == key;
    r := h % Two64;
  }
}
