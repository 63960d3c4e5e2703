/** Lower-case hexadecimal, as fmt's %x prints a non-negative number. */
module Hexadecimal {
  const DIGITS := "0123456789abcdef"

  function Hex(n: nat): (s: string)
    ensures |s| > 0
  {
    if n < 16 then [DIGITS[n]] else Hex(n / 16) + [DIGITS[n % 16]]
  }

  function DigitValue(ch: char): nat {
    if '0' <= ch <= '9' then ch as int - '0' as int
    else if 'a' <= ch <= 'f' then ch as int - 'a' as int + 10
    else 0
  }

  function Value(s: string): nat {
    if s == "" then 0 else 16 * Value(s[..|s| - 1]) + DigitValue(s[|s| - 1])
  }

  lemma DigitRoundTrip(d: nat)
    requires d < 16
    ensures DigitValue(DIGITS[d]) == d
  {
  }

  lemma ValueSnoc(s: string, ch: char)
    ensures Value(s + [ch]) == 16 * Value(s) + DigitValue(ch)
  {
    assert (s + [ch])[..|s|] == s;
  }

  lemma {:induction false} ValueOfHex(n: nat)
    ensures Value(Hex(n)) == n
  {
    DigitRoundTrip(n % 16);
    if n < 16 {
      ValueSnoc("", DIGITS[n]);
      assert "" + [DIGITS[n]] == Hex(n);
    } else {
      ValueOfHex(n / 16);
      ValueSnoc(Hex(n / 16), DIGITS[n % 16]);
    }
  }

  function SixteenTo(k: nat): nat {
    if k == 0 then 1 else 16 * SixteenTo(k - 1)
  }

  lemma {:induction false} HexLength(n: nat, k: nat)
    requires SixteenTo(k) <= n < SixteenTo(k + 1)
    ensures |Hex(n)| == k + 1
  {
    if k > 0 {
      assert SixteenTo(k) >= 16 by { SixteenPositive(k - 1); }
      HexLength(n / 16, k - 1);
    }
  }

  lemma {:induction false} SixteenPositive(k: nat)
    ensures SixteenTo(k) > 0
  {
    if k > 0 {
      SixteenPositive(k - 1);
    }
  }

  lemma {:induction false} HexDigitsOnly(n: nat)
    ensures forall i :: 0 <= i < |Hex(n)| ==> Hex(n)[i] in DIGITS
  {
    if n >= 16 {
      HexDigitsOnly(n / 16);
    }
  }
}

/** Names for sandboxes: a 32-bit generator that is seeded again whenever its state is 0. */
module Suffix {
  import opened Counting
  import opened Hexadecimal
  import opened LinearCongruence

  const BILLION: int := 1_000_000_000

  /** The state after a call, when `seed` is what reseed would return during that call. */
  function StateAfter(rand2: Uint32, seed: Uint32): Uint32 {
    Advance(if rand2 == 0 then seed else rand2)
  }

  /** `1e9 + r%1e9` in 32-bit arithmetic. */
  function Number(r: Uint32): Uint32 {
    (BILLION + r % BILLION) % MODULUS
  }

  function Name(r: Uint32): string {
    Hex(Number(r))
  }

  /** `rand2` guarded by its mutex, and the function that hands out suffixes. */
  class Source {
    var rand2: Uint32

    constructor ()
      ensures rand2 == 0
    {
      rand2 := 0;
    }

    /** `seed` is the clock and the process number at the time of the call; it counts only when the state is 0. */
    method NextSuffix(seed: Uint32) returns (s: string)
      modifies this
      ensures old(rand2) == 0 ==> rand2 == (1664525 * seed + 1013904223) % 0x1_0000_0000
      ensures old(rand2) != 0 ==> rand2 == (1664525 * old(rand2) + 1013904223) % 0x1_0000_0000
      ensures rand2 == StateAfter(old(rand2), seed)
      ensures s == Name(rand2) && |s| == 8 && Value(s) == 1_000_000_000 + rand2 % 1_000_000_000
    {
      var r := rand2;
      if r == 0 {
        r := seed;
      }
      r := (r * 1664525 + 1013904223) % MODULUS;
      assert r == StateAfter(old(rand2), seed);
      rand2 := r;
      var number := (BILLION + r % BILLION) % MODULUS;
      assert number == Number(r);
      s := Hex(number);
      NameShape(r);
    }
  }

  function LinkName(name: string): string {
    "LINK_" + name
  }

  /** The longest interface name Linux accepts. */
  const MAX_INTERFACE_NAME := 15

  /** A suffix is eight lower-case hex digits, never wraps in 32 bits and decodes to its number. */
  lemma NameShape(r: Uint32)
    ensures Number(r) == BILLION + r % BILLION && BILLION <= Number(r) < 2 * BILLION
    ensures |Name(r)| == 8 && (forall i :: 0 <= i < 8 ==> Name(r)[i] in DIGITS)
    ensures Value(Name(r)) == Number(r)
  {
    assert SixteenTo(4) == 65536;
    assert SixteenTo(7) == 0x1000_0000;
    HexLength(Number(r), 7);
    HexDigitsOnly(Number(r));
    ValueOfHex(Number(r));
  }

  /** The link made for a generated name fits the kernel's limit and gives the name back. */
  lemma LinkNameFits(r: Uint32)
    ensures |LinkName(Name(r))| == 13 <= MAX_INTERFACE_NAME && LinkName(Name(r))[..5] == "LINK_"
    ensures Value(LinkName(Name(r))[5..]) == Number(r)
  {
    NameShape(r);
    assert LinkName(Name(r))[..5] == "LINK_" && LinkName(Name(r))[5..] == Name(r);
  }

  /** Two states give the same name exactly when they agree modulo 1e9. */
  lemma SameName(x: Uint32, y: Uint32)
    ensures Name(x) == Name(y) <==> x % BILLION == y % BILLION
  {
    NameShape(x);
    NameShape(y);
  }

  // Runs of calls.

  /** The states after each of a run of calls that starts with `rand2`. */
  function States(rand2: Uint32, seeds: seq<Uint32>): (s: seq<Uint32>)
    ensures |s| == |seeds|
    decreases |seeds|
  {
    if seeds == [] then [] else
      var next := StateAfter(rand2, seeds[0]);
      [next] + States(next, seeds[1..])
  }

  lemma {:induction false} StatesStep(rand2: Uint32, seeds: seq<Uint32>, j: nat)
    requires 0 < j < |seeds|
    ensures States(rand2, seeds)[j] == StateAfter(States(rand2, seeds)[j - 1], seeds[j])
    decreases j
  {
    if j > 1 {
      StatesStep(StateAfter(rand2, seeds[0]), seeds[1..], j - 1);
    }
  }

  /** The state that call `k` of the run finds. */
  function Found(rand2: Uint32, seeds: seq<Uint32>, k: nat): Uint32
    requires k < |seeds|
  {
    if k == 0 then rand2 else States(rand2, seeds)[k - 1]
  }

  /** A call that finds the state 0 starts the generator over from its own seed, until the state is 0 again. */
  lemma {:induction false} SeedDecides(rand2: Uint32, seeds: seq<Uint32>, k: nat, i: nat)
    requires k <= i < |seeds| && Found(rand2, seeds, k) == 0
    requires forall j :: k < j <= i ==> Found(rand2, seeds, j) != 0
    ensures States(rand2, seeds)[i] == Iterate(seeds[k], i - k + 1)
    decreases i
  {
    var s := States(rand2, seeds);
    if i == k {
      if k > 0 {
        StatesStep(rand2, seeds, k);
      }
      assert Iterate(seeds[k], 1) == Advance(Iterate(seeds[k], 0));
    } else {
      SeedDecides(rand2, seeds, k, i - 1);
      StatesStep(rand2, seeds, i);
      assert Found(rand2, seeds, i) == s[i - 1];
    }
  }

  /** Where the state is not 0 the seed makes no difference. */
  lemma {:induction false} SeedIgnored(rand2: Uint32, seeds: seq<Uint32>, k: nat)
    requires k < |seeds| && Found(rand2, seeds, k) != 0
    ensures States(rand2, seeds)[k] == (1664525 * Found(rand2, seeds, k) + 1013904223) % 0x1_0000_0000
  {
    if k > 0 {
      StatesStep(rand2, seeds, k);
    }
  }

  lemma {:induction false} AdvanceInjective(x: Uint32, y: Uint32)
    requires Advance(x) == Advance(y)
    ensures x == y
  {
    assert Iterate(x, 1) == Advance(Iterate(x, 0)) && Iterate(y, 1) == Advance(Iterate(y, 0));
    IterateSum(x, 1, MODULUS - 1);
    IterateSum(y, 1, MODULUS - 1);
    FullPeriod(x, MODULUS);
    FullPeriod(y, MODULUS);
  }

  /** Two fresh sources come to the same first state if and only if they were given the same seed. */
  lemma {:induction false} SeedsTellApart(a: seq<Uint32>, b: seq<Uint32>)
    requires a != [] && b != []
    ensures States(0, a)[0] == States(0, b)[0] <==> a[0] == b[0]
  {
    if Advance(a[0]) == Advance(b[0]) {
      AdvanceInjective(a[0], b[0]);
    }
  }

  /** Calls `lo` to `hi` happen within one seeding: none but the last leaves the state 0. */
  predicate OneSeeding(s: seq<Uint32>, lo: nat, hi: nat) {
    lo <= hi <= |s| && forall i :: lo <= i < hi - 1 ==> s[i] != 0
  }

  lemma {:induction false} SeedingIterates(rand2: Uint32, seeds: seq<Uint32>, lo: nat, hi: nat, i: nat, j: nat)
    requires OneSeeding(States(rand2, seeds), lo, hi) && lo <= i <= j < hi
    ensures States(rand2, seeds)[j] == Iterate(States(rand2, seeds)[i], j - i)
    decreases j
  {
    if i < j {
      SeedingIterates(rand2, seeds, lo, hi, i, j - 1);
      StatesStep(rand2, seeds, j);
    }
  }

  /** Within one seeding, however long, no state occurs twice. */
  lemma {:induction false} NoRepeatWithinSeeding(rand2: Uint32, seeds: seq<Uint32>, lo: nat, hi: nat, i: nat, j: nat)
    requires OneSeeding(States(rand2, seeds), lo, hi) && lo <= i < j < hi
    ensures States(rand2, seeds)[i] != States(rand2, seeds)[j]
  {
    var s := States(rand2, seeds);
    if j - i < MODULUS {
      SeedingIterates(rand2, seeds, lo, hi, i, j);
      NoEarlyRepeat(s[i], 0, j - i);
    } else {
      var k := SeedingEnds(rand2, seeds, i);
      assert false;
    }
  }

  /** Any 2^32 consecutive calls leave the state 0 at least once, so a seeding lasts at most 2^32 calls. */
  lemma {:induction false} SeedingEnds(rand2: Uint32, seeds: seq<Uint32>, lo: nat) returns (k: nat)
    requires lo + MODULUS <= |seeds|
    ensures lo <= k < lo + MODULUS && States(rand2, seeds)[k] == 0
  {
    var s := States(rand2, seeds);
    if i :| lo <= i < lo + MODULUS && s[i] == 0 {
      k := i;
    } else {
      var n := EveryStateVisited(s[lo], 0);
      SeedingIterates(rand2, seeds, lo, lo + MODULUS, lo, lo + n);
      assert false;
    }
  }

  /** The 32-bit states whose name is that of `r`; 2^32 is 4 * 10^9 + 294967296. */
  function Preimages(r: Uint32): set<int> {
    var m := r % BILLION;
    {m, m + BILLION, m + 2 * BILLION, m + 3 * BILLION} + if m < 294967296 then {m + 4 * BILLION} else {}
  }

  function Multiplicity(r: Uint32): nat {
    if r % BILLION < 294967296 then 5 else 4
  }

  lemma {:induction false} PreimagesExact(r: Uint32, x: Uint32)
    ensures x in Preimages(r) <==> Name(x) == Name(r)
  {
    SameName(x, r);
    ResidueClass(x, r % BILLION);
  }

  lemma ResidueClass(x: Uint32, m: int)
    requires 0 <= m < BILLION
    ensures x % BILLION == m <==>
              x == m || x == m + BILLION || x == m + 2 * BILLION || x == m + 3 * BILLION || x == m + 4 * BILLION
  {
    var k, rest := x / BILLION, x % BILLION;
    assert x == rest + k * BILLION && 0 <= k < 5;
  }

  lemma PreimagesCount(r: Uint32)
    ensures |Preimages(r)| == Multiplicity(r)
    ensures forall x :: x in Preimages(r) ==> 0 <= x < MODULUS
  {
    var m := r % BILLION;
    assert |{m, m + BILLION, m + 2 * BILLION, m + 3 * BILLION}| == 4;
  }

  /** The calls from `lo` to `hi` that issued the name of `r`. */
  function Issued(s: seq<Uint32>, lo: nat, hi: nat, r: Uint32): set<nat>
    requires lo <= hi <= |s|
  {
    set i: nat | lo <= i < hi && Name(s[i]) == Name(r)
  }

  /** Within one seeding, the calls that issued a name correspond to distinct preimages of it. */
  lemma {:induction false} IssuedImage(rand2: Uint32, seeds: seq<Uint32>, lo: nat, hi: nat, r: Uint32) returns (image: set<int>)
    requires OneSeeding(States(rand2, seeds), lo, hi)
    ensures image == set i | i in Issued(States(rand2, seeds), lo, hi, r) :: States(rand2, seeds)[i]
    ensures |Issued(States(rand2, seeds), lo, hi, r)| == |image| && image <= Preimages(r)
  {
    var s := States(rand2, seeds);
    var calls := Issued(s, lo, hi, r);
    forall i, j | i in calls && j in calls && i != j ensures s[i] != s[j] {
      NoRepeatWithinSeeding(rand2, seeds, lo, hi, if i < j then i else j, if i < j then j else i);
    }
    ImageCount(s, calls);
    image := set i | i in calls :: s[i];
    forall i | i in calls ensures s[i] in Preimages(r) {
      PreimagesExact(r, s[i]);
    }
  }

  /** Within one seeding a name is issued at most five times, and at most four when its number is large. */
  lemma {:induction false} NamesWithinSeeding(rand2: Uint32, seeds: seq<Uint32>, lo: nat, hi: nat, r: Uint32)
    requires OneSeeding(States(rand2, seeds), lo, hi)
    ensures |Issued(States(rand2, seeds), lo, hi, r)| <= Multiplicity(r) <= 5
  {
    var image := IssuedImage(rand2, seeds, lo, hi, r);
    PreimagesCount(r);
    SubsetCount(image, Preimages(r));
  }

  /**
    The bound is sharp: a seeding of 2^32 calls issues every name exactly that often. Such seedings are
    those that start from the seed 0 (FullSeedingStart), and they exist (FullSeedingExists).
   */
  lemma {:induction false} FullSeedingIsExact(rand2: Uint32, seeds: seq<Uint32>, lo: nat, hi: nat, r: Uint32)
    requires hi == lo + MODULUS && OneSeeding(States(rand2, seeds), lo, hi)
    ensures |Issued(States(rand2, seeds), lo, hi, r)| == Multiplicity(r)
  {
    var image := IssuedImage(rand2, seeds, lo, hi, r);
    PreimagesCount(r);
    SubsetCount(image, Preimages(r));
    forall x | x in Preimages(r) ensures x in image {
      PreimagesExact(r, x);
      var i := StateIsReached(rand2, seeds, lo, hi, x);
      assert i in Issued(States(rand2, seeds), lo, hi, r);
    }
    SubsetCount(Preimages(r), image);
  }

  lemma {:induction false} StateIsReached(rand2: Uint32, seeds: seq<Uint32>, lo: nat, hi: nat, x: Uint32) returns (i: nat)
    requires hi == lo + MODULUS && OneSeeding(States(rand2, seeds), lo, hi)
    ensures lo <= i < hi && States(rand2, seeds)[i] == x
  {
    var n := EveryStateVisited(States(rand2, seeds)[lo], x);
    i := lo + n;
    SeedingIterates(rand2, seeds, lo, hi, lo, i);
  }

  /** A seeding of 2^32 calls leaves the state 0 only at its end, so its first call advanced from 0. */
  lemma {:induction false} FullSeedingStart(rand2: Uint32, seeds: seq<Uint32>, lo: nat, hi: nat)
    requires hi == lo + MODULUS && OneSeeding(States(rand2, seeds), lo, hi)
    ensures States(rand2, seeds)[hi - 1] == 0 && States(rand2, seeds)[lo] == Advance(0)
  {
    var s := States(rand2, seeds);
    var i := StateIsReached(rand2, seeds, lo, hi, 0);
    assert i == hi - 1;
    SeedingIterates(rand2, seeds, lo, hi, lo, hi - 1);
    FullPeriod(s[lo], MODULUS);
    assert Iterate(s[lo], MODULUS) == Advance(Iterate(s[lo], MODULUS - 1));
  }

  lemma {:induction false} ZeroSeeds(seeds: seq<Uint32>, j: nat)
    requires j < |seeds| && forall i :: 0 <= i < |seeds| ==> seeds[i] == 0
    ensures States(0, seeds)[j] == Iterate(0, j + 1)
    decreases j
  {
    if j > 0 {
      ZeroSeeds(seeds, j - 1);
      StatesStep(0, seeds, j);
    } else {
      assert Iterate(0, 1) == Advance(Iterate(0, 0));
    }
  }

  /** From a fresh source whose first seed is 0 the first 2^32 calls are one seeding. */
  lemma {:induction false} FullSeedingExists() returns (seeds: seq<Uint32>)
    ensures OneSeeding(States(0, seeds), 0, MODULUS)
  {
    seeds := seq(MODULUS, _ => 0);
    var s := States(0, seeds);
    forall i | 0 <= i < MODULUS - 1 ensures s[i] != 0 {
      ZeroSeeds(seeds, i);
      FullPeriod(0, i + 1);
    }
  }
}
