/**
 The map from requested bytes to granules of tool/gec/backend/c/boehm_gc/misc.c and malloc.c: tiny
 sizes are filled in at start-up, larger ones on demand.  Granules are 16 bytes, heap blocks 4096
 bytes, and small objects at most 2048 bytes; `extra` is the byte added to every object if pointers
 past its end must keep it alive.
 */
module SizeMap {
  import Arithmetic

  /** ROUNDED_UP_GRANULES. */
  function Granules(bytes: nat, extra: nat): nat {
    (bytes + 15 + extra) / 16
  }

  /** It is the least number of granules that holds so many bytes. */
  lemma GranulesLeast(bytes: nat, extra: nat)
    ensures 16 * Granules(bytes, extra) - 16 < bytes + extra <= 16 * Granules(bytes, extra)
  {
  }

  /** A size class that serves requests of so many bytes. */
  predicate Serves(granules: nat, bytes: nat, extra: nat) {
    bytes + extra <= 16 * granules && 0 < granules <= 128
  }

  /** n is the last byte size of a filled section. */
  predicate Ends(m: seq<nat>, n: nat) {
    n < |m| && m[n] != 0 && (n + 1 < |m| ==> m[n + 1] == 0)
  }

  /** Every entry that is filled serves its size, tiny sizes are filled, and a filled section ending at n
      is at least n / 4 long. */
  ghost predicate Good(m: seq<nat>, extra: nat) {
    && |m| == 2049 && extra <= 1
    && (forall i: nat :: i < |m| && m[i] != 0 ==> Serves(m[i], i, extra))
    && (forall i: nat :: i <= 384 - extra ==> m[i] != 0)
    && Sections(m)
  }

  ghost predicate Sections(m: seq<nat>) {
    forall n: nat, j: nat :: Ends(m, n) && j <= n && 4 * (n - j) < n ==> m[j] != 0
  }

  /** m' is m with the entries from low to high filled. */
  ghost predicate Filled(m: seq<nat>, low: nat, high: nat, granules: nat, m': seq<nat>) {
    |m'| == |m| && high < |m| && forall i: nat :: i < |m| ==> m'[i] == if low <= i <= high then granules else m[i]
  }

  function Even(n: nat): nat {
    n - n % 2
  }

  /** The class enlarged to an even number of granules, at most 128, without losing an object of the block. */
  function Enlarged(granules: nat): nat
    requires granules > 0
  {
    var objects := 256 / Capped(granules);
    if objects == 0 then 0 else Even(256 / objects)
  }

  /** The objects of a block. */
  function PerBlock(granules: nat): nat
    requires granules > 0
  {
    256 / granules
  }

  /** The largest even class of which as many objects fit a block. */
  ghost predicate LargestLike(granules: nat, r: nat)
    requires granules > 0
  {
    && r > 0 && r % 2 == 0 && PerBlock(r) == PerBlock(granules)
    && forall g: nat :: g > 0 && g % 2 == 0 && PerBlock(g) == PerBlock(granules) ==> g <= r
  }

  function Capped(granules: nat): (r: nat)
    requires granules > 0
    ensures r > 0
  {
    if Even(granules + 1) > 128 then 128 else Even(granules + 1)
  }

  lemma CappedIs(granules: nat)
    requires granules > 0
    ensures 0 < Capped(granules) <= 128 && Capped(granules) % 2 == 0
    ensures granules <= 128 ==> granules <= Capped(granules)
    ensures Capped(granules) <= granules + 1
  {
  }

  /** Dividing a block by the number of objects of a size gives at least that size. */
  lemma DivideTwice(g: nat)
    requires 0 < g <= 128
    ensures 256 / g >= 2 && g <= 256 / (256 / g) <= 128
    ensures (256 / (256 / g)) * (256 / g) <= 256 < (256 / g) * g + g
  {
    var k := 256 / g;
    Arithmetic.DivDefinition(256, g);
    Arithmetic.DivLower(256, g, 2);
    Swap(g, k);
    Arithmetic.DivLower(256, k, g);
    HalfAtMost(k);
  }

  lemma HalfAtMost(k: nat)
    requires k >= 2
    ensures 256 / k <= 128 && (256 / k) * k <= 256
  {
    var q := 256 / k;
    Arithmetic.DivDefinition(256, k);
    Arithmetic.MulMonotone(2, k, q);
    Swap(q, k);
  }

  /** Enlarging is never to a class too small or too large, and it is to the largest class of which as many
      objects fit a block as when the size is only made even. */
  lemma EnlargedKeeps(granules: nat)
    requires granules > 0
    ensures PerBlock(Capped(granules)) > 0 && 0 < Enlarged(granules) <= 128
    ensures granules <= 128 ==> granules <= Enlarged(granules)
    ensures LargestLike(Capped(granules), Enlarged(granules))
  {
    hide Even, Capped;
    var g := Capped(granules);
    CappedIs(granules);
    DivideTwice(g);
    EvenBetween(g, 256 / (256 / g));
    RatioSame(g, 256 / g, Enlarged(granules), 256 / (256 / g));
    forall e: nat | e > 0 && e % 2 == 0 && PerBlock(e) == PerBlock(g) ensures e <= Enlarged(granules) {
      SameCount(e, 256 / g);
      EvenBetween(e, 256 / (256 / g));
    }
  }

  lemma SameCount(e: nat, k: nat)
    requires e > 0 && 256 / e == k && k > 0
    ensures e <= 256 / k
  {
    Arithmetic.DivDefinition(256, e);
    Swap(e, k);
    Arithmetic.DivLower(256, k, e);
  }

  lemma Swap(a: nat, b: nat)
    ensures a * b == b * a
  {
  }

  /** Divisors between one and the quotient that it gives have the same quotient. */
  lemma RatioSame(g: nat, k: nat, r: nat, q: nat)
    requires 0 < g <= r <= q && q * k <= 256 < k * g + g
    ensures 256 / r == k
  {
    Arithmetic.MulMonotone(r, q, k);
    Swap(r, k);
    Arithmetic.MulMonotone(g, r, k);
    Swap(g, k);
    Arithmetic.DivUnique(256, r, k);
  }

  lemma EvenBetween(g: nat, q: nat)
    requires g % 2 == 0 && g <= q
    ensures g <= Even(q) <= q && Even(q) % 2 == 0
  {
  }

  /** Filling with a class that serves its largest size keeps every entry serving its size. */
  lemma FilledServes(m: seq<nat>, extra: nat, low: nat, high: nat, granules: nat, m': seq<nat>)
    requires Good(m, extra) && Filled(m, low, high, granules, m') && Serves(granules, high, extra)
    ensures forall i: nat :: i < |m'| && m'[i] != 0 ==> Serves(m'[i], i, extra)
    ensures forall i: nat :: i <= 384 - extra ==> m'[i] != 0
  {
    assert forall i: nat :: i <= high ==> Serves(granules, i, extra);
  }

  /** Filled from low to high, a section is long enough: what it takes below low is filled already. */
  ghost predicate LongEnough(m: seq<nat>, low: nat, high: nat)
    requires low <= |m|
  {
    forall j: nat :: j < low && 4 * (high - j) < high ==> m[j] != 0
  }

  /** A section that is filled far enough below its new end keeps the sections long. */
  lemma FilledSections(m: seq<nat>, low: nat, high: nat, granules: nat, m': seq<nat>)
    requires Sections(m) && Filled(m, low, high, granules, m') && granules > 0 && low <= high
    requires LongEnough(m, low, high)
    ensures Sections(m')
  {
    forall n: nat, j: nat | Ends(m', n) && j <= n && 4 * (n - j) < n ensures m'[j] != 0 {
      if n != high {
        assert m'[n] != 0;
        assert Ends(m, n);
        assert m[j] != 0;
      }
    }
  }

  /** Filling on from the end of a section that goes far enough down. */
  lemma SectionBelow(m: seq<nat>, low: nat, high: nat, start: nat)
    requires Sections(m) && start < low <= high < |m| && m[low] == 0
    requires forall i: nat :: start <= i < low ==> m[i] != 0
    ensures LongEnough(m, low, high)
  {
    assert Ends(m, low - 1);
    forall j: nat | j < low && 4 * (high - j) < high ensures m[j] != 0 {
      assert 4 * (low - 1 - j) < low - 1 || j == low - 1;
    }
  }

  lemma QuarterFilled(m: seq<nat>, low: nat, high: nat, bytes: nat)
    requires bytes % 16 == 0 && bytes <= high + 1 && bytes - bytes / 4 <= low <= |m|
    requires forall i: nat :: bytes - bytes / 4 <= i < low ==> m[i] != 0
    ensures LongEnough(m, low, high)
  {
  }

  /** Seven eighths of the rounded size; an entry there keeps the classes from becoming too many. */
  function Smaller(i: nat, extra: nat): nat {
    14 * Granules(i, extra)
  }

  ghost predicate FirstUnfilledFrom(m: seq<nat>, start: nat, low: nat) {
    start <= low < |m| && m[low] == 0 && forall j: nat :: start <= j < low ==> m[j] != 0
  }

  /** What the map decides for size i: the rounded size itself, filled from three quarters of it, while seven
      eighths of it have no class yet; else an eighth more than the first size above that has no class. */
  ghost predicate Decided(m: seq<nat>, extra: nat, i: nat, low: nat, wanted: nat) {
    var orig := Granules(i, extra);
    Smaller(i, extra) < |m| &&
    if m[Smaller(i, extra)] == 0 then FirstUnfilledFrom(m, 12 * orig, low) && wanted == orig
    else
      var above := Granules(low, extra) + Granules(low, extra) / 8;
      FirstUnfilledFrom(m, Smaller(i, extra) + 1, low) && wanted == if above < orig then orig else above
  }

  lemma EnlargedByHalf(granules: nat)
    requires granules > 0
    ensures 2 * Enlarged(granules) <= 3 * Capped(granules)
  {
    hide Even, Capped;
    CappedIs(granules);
    var g := Capped(granules);
    var k := 256 / g;
    var q := 256 / k;
    DivideTwice(g);
    EvenBetween(g, q);
    if 2 * q > 3 * g {
      Arithmetic.MulMonotone(3 * g + 1, 2 * q, k);
      Arithmetic.MulMonotone(2, k, g);
      Swap(k, g);
      TwiceThrice(g, q, k);
    }
  }

  lemma TwiceThrice(g: nat, q: nat, k: nat)
    ensures (2 * q) * k == 2 * (q * k) && (3 * g + 1) * k == 3 * (k * g) + k
  {
  }

  /** A class holds at most 27/16 of the rounded size, and one and a half granules. */
  lemma WasteBound(m: seq<nat>, extra: nat, i: nat, low: nat, wanted: nat)
    requires Decided(m, extra, i, low, wanted) && low <= i && i + extra > 0
    ensures 0 < wanted && 16 * Enlarged(wanted) <= 27 * Granules(i, extra) + 24
  {
    hide Enlarged;
    assert wanted <= Granules(i, extra) + Granules(i, extra) / 8;
    EnlargedByHalf(wanted);
  }

  lemma SizesNear(m: seq<nat>, extra: nat, i: nat)
    requires Good(m, extra) && i + extra <= 2048 && (i < |m| ==> m[i] == 0)
    ensures var orig := Granules(i, extra);
            && 16 * orig - 16 * orig / 8 == Smaller(i, extra) < i < |m| && 16 * orig - 16 * orig / 4 == 12 * orig < i
    ensures Sections(m)
  {
    assert 384 - extra < i;
  }

  class Map {
    const sizes: array<nat>
    const extra: nat

    ghost predicate Valid()
      reads sizes
    {
      Good(sizes[..], extra)
    }

    /** GC_init_size_map. */
    constructor (extra: nat)
      requires extra <= 1
      ensures Valid() && this.extra == extra && sizes[0] == 1
      ensures forall i: nat :: 0 < i <= 384 - extra ==> sizes[i] == Granules(i, extra) < 25
      ensures forall i: nat :: 384 - extra < i < sizes.Length ==> sizes[i] == 0
    {
      sizes := new nat[2049](_ => 0);
      this.extra := extra;
      new;
      sizes[0] := 1;
      var i := 1;
      while i <= 384 - extra
        invariant 1 <= i <= 385 - extra && sizes[0] == 1
        invariant forall j: nat :: 0 < j < i ==> sizes[j] == Granules(j, extra)
        invariant forall j: nat :: i <= j < sizes.Length ==> sizes[j] == 0
      {
        sizes[i] := Granules(i, extra);
        i := i + 1;
      }
    }

    /** The first entry at or after low that is not filled. */
    method FirstUnfilled(low: nat, i: nat) returns (r: nat)
      requires low <= i < sizes.Length && sizes[i] == 0
      ensures low <= r <= i && sizes[r] == 0 && forall j: nat :: low <= j < r ==> sizes[j] != 0
    {
      r := low;
      while sizes[r] != 0
        invariant low <= r <= i && forall j: nat :: low <= j < r ==> sizes[j] != 0
        decreases i - r
      {
        r := r + 1;
      }
    }

    /** The class that GC_extend_size_map chooses for size i, and the first entry to fill with it. */
    method Choose(i: nat) returns (low: nat, granules: nat)
      requires Valid() && i + extra <= 2048 && sizes[i] == 0
      ensures low <= i && Decided(sizes[..], extra, i, low, granules) && Granules(i, extra) <= granules
      ensures forall high: nat :: i <= high < sizes.Length && 16 * Granules(i, extra) - 1 <= high
                                  ==> LongEnough(sizes[..], low, high)
    {
      hide Good, Sections, LongEnough, Granules;
      SizesNear(sizes[..], extra, i);
      var orig := Granules(i, extra);
      var bytes := 16 * orig;
      var smaller := bytes - bytes / 8;
      if sizes[smaller] == 0 {
        low := FirstUnfilled(bytes - bytes / 4, i);
        granules := orig;
        forall high: nat | bytes - 1 <= high ensures LongEnough(sizes[..], low, high) {
          QuarterFilled(sizes[..], low, high, bytes);
        }
      } else {
        low := FirstUnfilled(smaller + 1, i);
        granules := Granules(low, extra);
        granules := granules + granules / 8;
        if granules < orig { granules := orig; }
        forall high: nat | i <= high < sizes.Length ensures LongEnough(sizes[..], low, high) {
          SectionBelow(sizes[..], low, high, smaller);
        }
      }
    }

    /** GC_extend_size_map: fills the entry for a size not filled yet, and all from `low` up to the most
        the class holds; as many objects fit a block as with the class first wanted.  No class is larger
        than 27/16 of what was asked for, rounded, and one and a half granules. */
    method Extend(i: nat) returns (ghost low: nat, ghost wanted: nat)
      requires Valid() && i + extra <= 2048 && sizes[i] == 0
      modifies sizes
      ensures Valid() && Serves(sizes[i], i, extra) && low <= i && Decided(old(sizes[..]), extra, i, low, wanted)
      ensures Filled(old(sizes[..]), low, 16 * sizes[i] - extra, sizes[i], sizes[..])
      ensures wanted > 0 && LargestLike(Capped(wanted), sizes[i]) && Granules(i, extra) <= wanted
      ensures 16 * sizes[i] <= 27 * Granules(i, extra) + 24
    {
      ghost var m := sizes[..];
      var first, granules := Choose(i);
      low, wanted := first, granules;
      EnlargedKeeps(granules);
      WasteBound(m, extra, i, low, granules);
      granules := Enlarged(granules);
      var high := 16 * granules - extra;
      assert LongEnough(sizes[..], low, high);
      var n := first;
      while n <= high
        invariant low <= n <= high + 1
        invariant forall j: nat :: j < sizes.Length ==> sizes[j] == if low <= j < n then granules else m[j]
      {
        sizes[n] := granules;
        n := n + 1;
      }
      FilledServes(m, extra, low, high, granules, sizes[..]);
      FilledSections(m, low, high, granules, sizes[..]);
    }
  }
}
