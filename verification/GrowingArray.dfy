/**
 The growing array of src/deps/darray.h: roundup32 (line 284) bit by bit, darray_growalloc
 (lines 297-307) and darray_append (lines 192-195) with the cost of the reallocations.
 */
module GrowingArray {
  const MIN_GROWING_SIZE: nat := 64
  const SIZE_MODULUS: nat := 0x1_0000_0000_0000_0000

  function Pow2(k: nat): (r: nat)
    ensures r >= 1
  {
    if k == 0 then 1 else 2 * Pow2(k - 1)
  }

  ghost predicate PowerOfTwo(n: nat) { exists k: nat :: n == Pow2(k) }

  // x | y on unsigned words
  function Or(x: nat, y: nat): (r: nat)
    decreases x + y
  {
    if x == 0 && y == 0 then 0
    else 2 * Or(x / 2, y / 2) + (if x % 2 == 1 || y % 2 == 1 then 1 else 0)
  }

  predicate Bit(x: nat, k: nat) {
    if k == 0 then x % 2 == 1 else Bit(x / 2, k - 1)
  }

  function Shr(x: nat, k: nat): nat {
    if k == 0 then x else Shr(x / 2, k - 1)
  }

  // Some bit of x in the window of w bits from k up is set.
  predicate AnyBit(x: nat, k: nat, w: nat) { exists j :: k <= j < k + w && Bit(x, j) }

  lemma {:induction false} BitOfOr(x: nat, y: nat, k: nat)
    ensures Bit(Or(x, y), k) <==> Bit(x, k) || Bit(y, k)
    decreases k
  {
    hide Or;
    OrHalves(x, y);
    if k > 0 { BitOfOr(x / 2, y / 2, k - 1); }
  }

  lemma OrHalves(x: nat, y: nat)
    ensures Or(x, y) / 2 == Or(x / 2, y / 2)
    ensures Or(x, y) % 2 == 1 <==> x % 2 == 1 || y % 2 == 1
  {}

  lemma {:induction false} OrGrows(x: nat, y: nat)
    ensures Or(x, y) >= x
    decreases x + y
  {
    if x > 0 || y > 0 { OrGrows(x / 2, y / 2); }
  }

  lemma {:induction false} BitOfZero(k: nat)
    ensures !Bit(0, k)
  {
    if k > 0 { BitOfZero(k - 1); }
  }

  lemma {:induction false} BitOfShr(x: nat, m: nat, k: nat)
    ensures Bit(Shr(x, m), k) <==> Bit(x, k + m)
    decreases m
  {
    if m > 0 { BitOfShr(x / 2, m - 1, k); }
  }

  // A word below 2^n has no bit from n up; one from 2^k up has one from k up.
  lemma {:induction false} HighBits(x: nat, n: nat, k: nat)
    requires x < Pow2(n) && n <= k
    ensures !Bit(x, k)
    decreases k
  {
    if n == 0 { BitOfZero(k); } else { HighBits(x / 2, n - 1, k - 1); }
  }

  lemma {:induction false} SomeBit(x: nat, k: nat) returns (j: nat)
    requires x >= Pow2(k)
    ensures j >= k && Bit(x, j) && Pow2(j) <= x
    decreases x
  {
    if k > 0 {
      j := SomeBit(x / 2, k - 1);
      j := j + 1;
    } else if x % 2 == 1 {
      j := 0;
    } else {
      j := SomeBit(x / 2, 0);
      j := j + 1;
    }
  }

  lemma {:induction false} BitBound(x: nat, k: nat)
    requires Bit(x, k)
    ensures Pow2(k) <= x
    decreases k
  {
    if k > 0 { BitBound(x / 2, k - 1); }
  }

  // Exactly the bits below n are set in 2^n - 1.
  lemma {:induction false} AllOnes(y: nat, n: nat)
    requires forall k: nat :: Bit(y, k) <==> k < n
    ensures y == Pow2(n) - 1
    decreases n
  {
    if n == 0 {
      if y > 0 { var j := SomeBit(y, 0); }
    } else {
      assert Bit(y, 0);
      forall k: nat ensures Bit(y / 2, k) <==> k < n - 1 {
        assert Bit(y, k + 1) <==> k + 1 < n;
      }
      AllOnes(y / 2, n - 1);
    }
  }

  lemma {:induction false} OnesBits(n: nat, k: nat)
    ensures Bit(Pow2(n) - 1, k) <==> k < n
    decreases n
  {
    if n == 0 {
      BitOfZero(k);
    } else if k > 0 {
      assert (Pow2(n) - 1) / 2 == Pow2(n - 1) - 1;
      OnesBits(n - 1, k - 1);
    }
  }

  // One smearing step doubles the window.
  lemma Smear(y: nat, x: nat, w: nat)
    requires forall k: nat :: Bit(y, k) <==> AnyBit(x, k, w)
    ensures forall k: nat :: Bit(Or(y, Shr(y, w)), k) <==> AnyBit(x, k, 2 * w)
  {
    forall k: nat ensures Bit(Or(y, Shr(y, w)), k) <==> AnyBit(x, k, 2 * w) {
      BitOfOr(y, Shr(y, w), k);
      BitOfShr(y, w, k);
      Windows(x, k, w);
    }
  }

  lemma Windows(x: nat, k: nat, w: nat)
    ensures AnyBit(x, k, 2 * w) <==> AnyBit(x, k, w) || AnyBit(x, k + w, w)
  {}

  lemma OneBitWindows(x: nat)
    ensures forall k: nat :: Bit(x, k) <==> AnyBit(x, k, 1)
  {}

  // roundup32 on a 64-bit size_t
  method RoundUp32(n: nat) returns (r: nat)
    requires n < SIZE_MODULUS
    ensures r < SIZE_MODULUS
    ensures 1 <= n ==> (PowerOfTwo(r) && n <= r <==> Gapless(n - 1) && n <= SIZE_MODULUS / 2)
    ensures 1 <= n && PowerOfTwo(r) && n <= r ==> r < 2 * n
    ensures 1 <= n <= SIZE_MODULUS / 2 ==> n <= r
  {
    hide Bit, Or, Shr, AnyBit, Pow2, Gapless, PowerOfTwo;
    r := (n + SIZE_MODULUS - 1) % SIZE_MODULUS;
    ghost var x := r;
    OneBitWindows(x);
    Smear(r, x, 1);
    OrGrows(r, Shr(r, 1));
    r := Or(r, Shr(r, 1));
    Smear(r, x, 2);
    OrGrows(r, Shr(r, 2));
    r := Or(r, Shr(r, 2));
    Smear(r, x, 4);
    OrGrows(r, Shr(r, 4));
    r := Or(r, Shr(r, 4));
    Smear(r, x, 8);
    OrGrows(r, Shr(r, 8));
    r := Or(r, Shr(r, 8));
    Smear(r, x, 16);
    OrGrows(r, Shr(r, 16));
    r := Or(r, Shr(r, 16));
    if 1 <= n {
      Rounded(n, r);
      SmearedFits(n, r);
    }
    r := (r + 1) % SIZE_MODULUS;
  }

  // y has the bits of x spread over the 31 places below each of them.
  ghost predicate Smeared(x: nat, y: nat) { forall k: nat :: Bit(y, k) <==> AnyBit(x, k, 32) }

  lemma Rounded(n: nat, y: nat)
    requires 1 <= n < SIZE_MODULUS && Smeared(n - 1, y)
    ensures var r := (y + 1) % SIZE_MODULUS;
            (PowerOfTwo(r) && n <= r <==> Gapless(n - 1) && n <= SIZE_MODULUS / 2) &&
            (PowerOfTwo(r) && n <= r ==> r < 2 * n)
  {
    hide *;
    var r := (y + 1) % SIZE_MODULUS;
    var w := Width(n - 1);
    SmearedBelow(n - 1, y, w);
    if Gapless(n - 1) && n <= SIZE_MODULUS / 2 { RoundedFits(n, y, w); }
    if PowerOfTwo(r) && n <= r { RoundedBack(n, y, w); }
  }

  lemma RoundedFits(n: nat, y: nat, w: nat)
    requires 1 <= n <= SIZE_MODULUS / 2 && Smeared(n - 1, y) && Gapless(n - 1)
    requires (forall k: nat :: k < w <==> Pow2(k) <= n - 1) && n - 1 < Pow2(w)
    ensures PowerOfTwo((y + 1) % SIZE_MODULUS) && n <= (y + 1) % SIZE_MODULUS
  {
    hide Pow2, Smeared, Gapless, Bit, AnyBit;
    Pow2Is64();
    assert 63 < w <==> Pow2(63) <= n - 1;
    Pow2Monotone(w, 63);
    SmearedPower(n - 1, y, w);
    assert (y + 1) % SIZE_MODULUS == Pow2(w);
  }

  lemma RoundedBack(n: nat, y: nat, w: nat)
    requires 1 <= n < SIZE_MODULUS && Smeared(n - 1, y) && y < Pow2(w)
    requires (n > 1 ==> w > 0 && Pow2(w - 1) <= n - 1) && (n == 1 ==> w == 0)
    requires PowerOfTwo((y + 1) % SIZE_MODULUS) && n <= (y + 1) % SIZE_MODULUS
    ensures Gapless(n - 1) && n <= SIZE_MODULUS / 2 && (y + 1) % SIZE_MODULUS < 2 * n
  {
    hide Smeared, Gapless, Bit, AnyBit;
    var r := (y + 1) % SIZE_MODULUS;
    var m: nat :| r == Pow2(m);
    PowerBelow(m);
    NoWrap(n, y, w);
    assert y == Pow2(m) - 1;
    PowerIsGapless(n - 1, y, m);
  }

  // A power of two that fits in a word is at most half the modulus.
  lemma PowerBelow(m: nat)
    requires Pow2(m) < SIZE_MODULUS
    ensures Pow2(m) <= SIZE_MODULUS / 2
  {
    hide Pow2;
    Pow2Is64();
    if m >= 64 { Pow2Monotone(64, m); } else { Pow2Monotone(m, 63); }
  }

  lemma NoWrap(n: nat, y: nat, w: nat)
    requires 1 <= n < SIZE_MODULUS && y < Pow2(w) && n <= (y + 1) % SIZE_MODULUS
    requires (n > 1 ==> w > 0 && Pow2(w - 1) <= n - 1) && (n == 1 ==> w == 0)
    ensures y + 1 == (y + 1) % SIZE_MODULUS && y + 1 < 2 * n
  {}

  // Up to half the modulus, the smeared word and one more do not wrap around.
  lemma SmearedFits(n: nat, y: nat)
    requires 1 <= n < SIZE_MODULUS && Smeared(n - 1, y)
    ensures n <= SIZE_MODULUS / 2 ==> y + 1 < SIZE_MODULUS
  {
    hide Pow2, Smeared;
    Pow2Is64();
    if n <= SIZE_MODULUS / 2 { SmearedBelow(n - 1, y, 63); }
  }

  lemma SmearedBelow(x: nat, y: nat, w: nat)
    requires Smeared(x, y) && x < Pow2(w)
    ensures y < Pow2(w)
  {
    if y >= Pow2(w) {
      var k := SomeBit(y, w);
      var j :| k <= j < k + 32 && Bit(x, j);
      HighBits(x, w, j);
    }
  }

  lemma SmearedPower(x: nat, y: nat, w: nat)
    requires Smeared(x, y) && Gapless(x) && x < Pow2(w)
    requires forall k: nat :: k < w <==> Pow2(k) <= x
    ensures y == Pow2(w) - 1
  {
    forall k: nat ensures Bit(y, k) <==> k < w {
      if AnyBit(x, k, 32) {
        var j :| k <= j < k + 32 && Bit(x, j);
        BitBound(x, j);
      }
    }
    AllOnes(y, w);
  }

  lemma PowerIsGapless(x: nat, y: nat, m: nat)
    requires Smeared(x, y) && y == Pow2(m) - 1 && x <= y
    ensures Gapless(x)
  {
    forall k: nat | Pow2(k) <= x ensures AnyBit(x, k, 32) {
      if k >= m { Pow2Monotone(m, k); }
      OnesBits(m, k);
    }
  }

  // Below its top bit x has no run of 32 zero bits.
  ghost predicate Gapless(x: nat) { forall k: nat :: Pow2(k) <= x ==> AnyBit(x, k, 32) }

  // Every number the 32-bit macro is made for qualifies.
  lemma Small32IsGapless(x: nat)
    requires x < 0x1_0000_0000
    ensures Gapless(x)
  {
    Pow2Is32();
    forall k: nat | Pow2(k) <= x ensures AnyBit(x, k, 32) {
      var j := SomeBit(x, k);
      if j >= 32 { HighBits(x, 32, j); }
    }
  }

  lemma {:induction false} Pow2Adds(a: nat, b: nat)
    ensures Pow2(a + b) == Pow2(a) * Pow2(b)
    decreases a
  {
    if a > 0 { Pow2Adds(a - 1, b); }
  }

  lemma Pow2Is32()
    ensures Pow2(32) == 0x1_0000_0000
  {
    assert Pow2(8) == 256;
    Pow2Adds(8, 8);
    Pow2Adds(16, 16);
  }

  lemma Pow2Is64()
    ensures Pow2(64) == SIZE_MODULUS && Pow2(63) == SIZE_MODULUS / 2
  {
    hide Pow2;
    Pow2Is32();
    Pow2Adds(32, 32);
    Halved();
  }

  lemma Halved()
    ensures Pow2(64) == 2 * Pow2(63)
  {}

  lemma {:induction false} Pow2Monotone(a: nat, b: nat)
    requires a <= b
    ensures Pow2(a) <= Pow2(b)
    decreases b
  {
    if a < b { Pow2Monotone(a, b - 1); }
  }

  // The number of bits of x.
  lemma {:induction false} Width(x: nat) returns (n: nat)
    ensures forall k: nat :: k < n <==> Pow2(k) <= x
    ensures x < Pow2(n) && (x > 0 ==> n > 0 && Pow2(n - 1) <= x) && (x == 0 ==> n == 0)
    decreases x
  {
    if x == 0 {
      n := 0;
    } else {
      var m := Width(x / 2);
      n := m + 1;
      forall k: nat ensures k < n <==> Pow2(k) <= x {
        if k > 0 { assert k - 1 < m <==> Pow2(k - 1) <= x / 2; }
      }
    }
  }

  /* --- the array --- */

  // Sizes of an array after appends only; copied counts the elements every realloc so far moved.
  datatype Growth = Growth(size: nat, alloc: nat, copied: nat)

  // One append: when the array is full its room doubles, from MIN_GROWING_SIZE on.
  function Appended(g: Growth): Growth {
    if g.size < g.alloc then g.(size := g.size + 1)
    else Growth(g.size + 1, if g.alloc == 0 then MIN_GROWING_SIZE else 2 * g.alloc, g.copied + g.alloc)
  }

  function Appends(n: nat): Growth {
    if n == 0 then Growth(0, 0, 0) else Appended(Appends(n - 1))
  }

  // The first append makes room for 64 elements, the one behind them for twice as many.
  lemma FirstRoom()
    ensures Appends(1) == Growth(1, 64, 0) && Appended(Growth(64, 64, 0)) == Growth(65, 128, 64)
  {
    assert Appends(0) == Growth(0, 0, 0);
  }

  ghost predicate Doubling(g: Growth) {
    && g.size <= g.alloc
    && (g.alloc == 0 ==> g.copied == 0)
    && (g.alloc > 0 ==> PowerOfTwo(g.alloc) && g.copied == g.alloc - MIN_GROWING_SIZE >= 0 && g.size > 0)
    && (g.alloc > MIN_GROWING_SIZE ==> 2 * g.size > g.alloc)
  }

  lemma AppendedKeepsDoubling(g: Growth)
    requires Doubling(g)
    ensures Doubling(Appended(g))
  {
    assert Pow2(6) == MIN_GROWING_SIZE;
    if g.alloc > 0 {
      var k: nat :| g.alloc == Pow2(k);
      assert 2 * g.alloc == Pow2(k + 1);
    }
  }

  lemma {:induction false} AppendsDouble(n: nat)
    ensures Doubling(Appends(n)) && Appends(n).size == n
  {
    hide Doubling, Appended;
    if n == 0 {
      NothingYet();
    } else {
      AppendsDouble(n - 1);
      AppendedKeepsDoubling(Appends(n - 1));
      AppendedSize(Appends(n - 1));
    }
  }

  lemma NothingYet()
    ensures Doubling(Growth(0, 0, 0))
  {}

  lemma AppendedSize(g: Growth)
    ensures Appended(g).size == g.size + 1
  {}

  // n appends to an empty array move fewer than 2 n elements in all.
  lemma AppendsCost(n: nat)
    requires n > 0
    ensures n <= Appends(n).alloc && Appends(n).copied < 2 * n
  {
    hide Appended, PowerOfTwo;
    AppendsDouble(n);
  }

  lemma {:induction false} BitOfPower(p: nat, j: nat)
    ensures Bit(Pow2(p), j) <==> j == p
    decreases p
  {
    if p == 0 {
      if j > 0 { BitOfZero(j - 1); }
    } else if j > 0 {
      BitOfPower(p - 1, j - 1);
    }
  }

  // A power of two with ones below 2^q.
  lemma {:induction false} BitOfSum(p: nat, q: nat, j: nat)
    requires q <= p
    ensures Bit(Pow2(p) + Pow2(q) - 1, j) <==> j < q || j == p
    decreases q
  {
    if q == 0 {
      BitOfPower(p, j);
    } else if j > 0 {
      assert (Pow2(p) + Pow2(q) - 1) / 2 == Pow2(p - 1) + Pow2(q - 1) - 1;
      BitOfSum(p - 1, q - 1, j - 1);
    }
  }

  // 2^38: from here on the 32 bit positions that roundup32 smears over are too few for an array
  // that grows by 64.
  const DOUBLING_END: nat := 0x40_0000_0000

  lemma DoublingEndIs()
    ensures Pow2(38) == DOUBLING_END && Pow2(6) == MIN_GROWING_SIZE
  {
    assert Pow2(6) == 64;
    Pow2Is32();
    Pow2Adds(32, 6);
  }

  lemma Pow2Next(p: nat)
    ensures Pow2(p + 1) == 2 * Pow2(p)
  {}

  lemma GrowthIsGapless(p: nat)
    requires p >= 6
    ensures Gapless(Pow2(p) + MIN_GROWING_SIZE - 1) <==> p < 38
  {
    hide Pow2, Bit;
    DoublingEndIs();
    var x := Pow2(p) + Pow2(6) - 1;
    if p < 38 {
      forall k: nat | Pow2(k) <= x ensures AnyBit(x, k, 32) {
        if k > p {
          Pow2Monotone(p + 1, k);
          Pow2Monotone(6, p);
          Pow2Next(p);
        }
        var j := if k < 6 then 5 else p;
        BitOfSum(p, 6, j);
        assert k <= j < k + 32 && Bit(x, j);
      }
    } else {
      Pow2Monotone(6, p);
      if AnyBit(x, 6, 32) {
        var j :| 6 <= j < 6 + 32 && Bit(x, j);
        BitOfSum(p, 6, j);
      }
      assert !AnyBit(x, 6, 32);
    }
  }

  // A full array below the end of the doubling asks for a number that rounds up properly.
  lemma FullIsGapless(g: Growth)
    requires Doubling(g) && (g.size < g.alloc || g.size < DOUBLING_END)
    ensures Gapless(g.alloc + MIN_GROWING_SIZE - 1) || g.size < g.alloc
  {
    if g.alloc == 0 {
      Small32IsGapless(MIN_GROWING_SIZE - 1);
    } else if g.size == g.alloc {
      var p: nat :| g.alloc == Pow2(p);
      DoublingEndIs();
      if p >= 38 { Pow2Monotone(38, p); }
      if p < 6 { Pow2Monotone(p, 5); }
      assert Pow2(5) == 32;
      GrowthIsGapless(p);
    }
  }

  // The room roundup32 finds for a full array is twice its size.
  lemma NextPower(alloc: nat, r: nat)
    requires PowerOfTwo(alloc) && alloc >= MIN_GROWING_SIZE
    requires PowerOfTwo(r) && alloc + MIN_GROWING_SIZE <= r < 2 * (alloc + MIN_GROWING_SIZE)
    ensures r == 2 * alloc
  {
    var a: nat, b: nat :| alloc == Pow2(a) && r == Pow2(b);
    if b <= a { Pow2Monotone(b, a); }
    if b >= a + 2 {
      assert Pow2(a + 2) == 2 * Pow2(a + 1) == 4 * Pow2(a);
      Pow2Monotone(a + 2, b);
    }
  }

  lemma FirstPower(r: nat)
    requires PowerOfTwo(r) && MIN_GROWING_SIZE <= r < 2 * MIN_GROWING_SIZE
    ensures r == MIN_GROWING_SIZE
  {
    var b: nat :| r == Pow2(b);
    assert Pow2(6) == 64 && Pow2(7) == 128;
    if b < 6 { Pow2Monotone(b, 5); }
    if b > 6 { Pow2Monotone(7, b); }
  }

  lemma AppendSizes(g: Growth, g': Growth)
    requires Doubling(g) && g.size <= g.alloc && g'.size == g.size + 1
    requires g'.size <= g.alloc ==> g'.alloc == g.alloc && g'.copied == g.copied
    requires g'.size > g.alloc ==>
               PowerOfTwo(g'.alloc) && g.alloc + MIN_GROWING_SIZE <= g'.alloc < 2 * (g.alloc + MIN_GROWING_SIZE) &&
               g'.copied == g.copied + g.alloc
    ensures g' == Appended(g)
  {
    if g'.size > g.alloc {
      if g.alloc == 0 { FirstPower(g'.alloc); } else { NextPower(g.alloc, g'.alloc); }
    }
  }

  class DArray<T(0)> {
    var item: array<T>
    var size: nat
    var alloc: nat
    ghost var copied: nat

    ghost predicate Valid()
      reads this
    {
      size <= alloc && alloc == item.Length
    }

    ghost function Contents(): (s: seq<T>)
      reads this, item
      requires Valid()
    {
      item[..size]
    }

    ghost function Sizes(): Growth
      reads this
    {
      Growth(size, alloc, copied)
    }

    constructor ()
      ensures Valid() && fresh(item) && Contents() == [] && Sizes() == Appends(0)
    {
      item, size, alloc, copied := new T[0], 0, 0, 0;
    }

    // darray_realloc
    method Realloc(newAlloc: nat)
      requires alloc == item.Length <= newAlloc
      modifies this`item, this`alloc, this`copied
      ensures alloc == item.Length == newAlloc && fresh(item)
      ensures item[..old(alloc)] == old(item[..])
      ensures copied == old(copied + alloc)
    {
      var block := new T[newAlloc];
      for k := 0 to alloc
        invariant block[..k] == item[..k]
        invariant unchanged(item)
        modifies block
      {
        block[k] := item[k];
      }
      item, alloc, copied := block, newAlloc, copied + alloc;
    }

    // darray_growalloc
    method GrowAlloc(need: nat)
      requires alloc == item.Length && need + MIN_GROWING_SIZE <= SIZE_MODULUS / 2
      modifies this`item, this`alloc, this`copied
      ensures alloc == item.Length >= need && item.Length >= old(alloc)
      ensures item[..old(alloc)] == old(item[..])
      ensures need <= old(alloc) ==> item == old(item) && copied == old(copied)
      ensures need > old(alloc) ==>
                var asked := if need - old(alloc) < MIN_GROWING_SIZE then old(alloc) + MIN_GROWING_SIZE else need;
                && fresh(item) && copied == old(copied + alloc)
                && asked <= alloc && (PowerOfTwo(alloc) <==> Gapless(asked - 1))
                && (PowerOfTwo(alloc) ==> alloc < 2 * asked)
    {
      var vNeed := need;
      if vNeed > alloc {
        if vNeed - alloc < MIN_GROWING_SIZE {
          vNeed := alloc + MIN_GROWING_SIZE;
        }
        var rounded := RoundUp32(vNeed);
        Realloc(rounded);
      }
    }

    // darray_append
    method Append(x: T)
      requires Valid() && size + 1 + MIN_GROWING_SIZE <= SIZE_MODULUS / 2
      modifies this, item
      ensures Valid() && (item == old(item) || fresh(item))
      ensures Contents() == old(Contents()) + [x]
      ensures old(Doubling(Sizes()) && (size < alloc || size < DOUBLING_END)) ==>
                Sizes() == Appended(old(Sizes())) && Doubling(Sizes())
    {
      hide Doubling, PowerOfTwo, Appended, Gapless;
      ghost var before := Sizes();
      size := size + 1;
      GrowAlloc(size);
      if Doubling(before) && (before.size < before.alloc || before.size < DOUBLING_END) {
        FullIsGapless(before);
        AppendSizes(before, Sizes());
        AppendedKeepsDoubling(before);
      }
      item[size - 1] := x;
      assert Contents() == old(Contents()) + [x];
    }
  }
}
