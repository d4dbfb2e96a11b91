/**
 * The short identifier generator `nanoid`. One random seed r in [1, 256] is
 * drawn per call; character i of the result is the six low bits of i·r sent
 * through a fixed 64-character map. The seed and the UUID of the long form are
 * parameters, so the generator is a pure function here.
 */
module Identifiers {
  import opened Types

  /** A value of Math.floor(Math.random() * 256 + 1). */
  type Seed = r: int | 1 <= r <= 256 witness 1

  /** The largest size served by the short form. */
  const MaxShortSize: int := 256

  /** The digits of base 36, in value order. */
  const Base36Alphabet: string := "0123456789abcdefghijklmnopqrstuvwxyz"

  /** Number.prototype.toString(36) of a single base-36 digit. */
  function Base36Digit(d: nat): (c: char)
    requires d < 36
    ensures c == Base36Alphabet[d]
  {
    if d < 10 then ('0' as int + d) as char else ('a' as int + d - 10) as char
  }

  /** String.prototype.toUpperCase on one character of a base-36 rendering. */
  function UpperCase(c: char): char {
    if 'a' <= c <= 'z' then (c as int - 32) as char else c
  }

  /** The six low bits of a non-negative number: `e & 63`. */
  function Low6(e: nat): (b: nat)
    ensures b < 64
  {
    e % 64
  }

  /** The character the reducer appends for the six-bit value e. */
  function CharOf(e: nat): char
    requires e < 64
  {
    if e < 36 then Base36Digit(e)
    else if e < 62 then UpperCase(Base36Digit(e - 26))
    else if e > 62 then '-'
    else '_'
  }

  /** The URL-safe alphabet [0-9a-zA-Z_-]. */
  predicate UrlSafe(c: char) {
    ('0' <= c <= '9') || ('a' <= c <= 'z') || ('A' <= c <= 'Z') || c == '_' || c == '-'
  }

  /** The position of a URL-safe character in the generator's map. */
  function IndexOf(c: char): (e: nat)
    requires UrlSafe(c)
    ensures e < 64
  {
    if '0' <= c <= '9' then c as int - '0' as int
    else if 'a' <= c <= 'z' then c as int - 'a' as int + 10
    else if 'A' <= c <= 'Z' then c as int - 'A' as int + 36
    else if c == '_' then 62
    else 63
  }

  /** Where each band of six-bit values lands in the alphabet. */
  lemma CharOfBands(e: nat)
    requires e < 64
    ensures e < 10 ==> CharOf(e) as int == '0' as int + e
    ensures 10 <= e < 36 ==> CharOf(e) as int == 'a' as int + (e - 10)
    ensures 36 <= e < 62 ==> CharOf(e) as int == 'A' as int + (e - 36)
    ensures e == 62 ==> CharOf(e) == '_'
    ensures e == 63 ==> CharOf(e) == '-'
  {
  }

  /** CharOf maps [0, 64) into the URL-safe alphabet and IndexOf undoes it. */
  lemma CharOfRoundTrip(e: nat)
    requires e < 64
    ensures UrlSafe(CharOf(e))
    ensures IndexOf(CharOf(e)) == e
  {
    CharOfBands(e);
  }

  /** Every URL-safe character is produced by exactly the value IndexOf names. */
  lemma IndexOfRoundTrip(c: char)
    requires UrlSafe(c)
    ensures CharOf(IndexOf(c)) == c
  {
    CharOfBands(IndexOf(c));
  }

  /** No two six-bit values share a character. */
  lemma CharOfInjective(a: nat, b: nat)
    requires a < 64 && b < 64
    requires CharOf(a) == CharOf(b)
    ensures a == b
  {
    CharOfRoundTrip(a);
    CharOfRoundTrip(b);
  }

  /**
   * The string the reduce over [0·r, 1·r, …, (n-1)·r] builds, one character
   * appended per element from left to right.
   */
  function ShortId(n: nat, seed: Seed): (id: string)
    ensures |id| == n
    ensures forall i :: 0 <= i < n ==> id[i] == CharOf(Low6(i * seed))
  {
    if n == 0 then "" else ShortId(n - 1, seed) + [CharOf(Low6((n - 1) * seed))]
  }

  /** The size test `size && size <= 256`: present, non-zero and at most 256. */
  predicate ShortForm(size: Option<int>) {
    size.Some? && size.value != 0 && size.value <= MaxShortSize
  }

  /**
   * nanoid(size): the short form for sizes that pass the test, the UUID
   * otherwise. A negative size passes the test and yields an empty array.
   */
  function Nanoid(size: Option<int>, seed: Seed, uuid: string): (id: string)
    ensures size.Some? && 1 <= size.value <= MaxShortSize ==>
              |id| == size.value && forall i :: 0 <= i < |id| ==> UrlSafe(id[i])
    ensures size.Some? && size.value < 0 ==> id == ""
    ensures size.Some? && 1 <= size.value <= MaxShortSize ==> id == ShortId(size.value, seed)
    ensures !ShortForm(size) ==> id == uuid
  {
    if ShortForm(size) then
      var n := if size.value < 0 then 0 else size.value;
      var id := ShortId(n, seed);
      assert forall i :: 0 <= i < |id| ==> UrlSafe(id[i]) by {
        forall i | 0 <= i < |id| {
          CharOfRoundTrip(Low6(i * seed));
        }
      }
      id
    else
      uuid
  }

  /** Every character of a short id is URL-safe. */
  lemma ShortIdUrlSafe(n: nat, seed: Seed)
    ensures forall i :: 0 <= i < n ==> UrlSafe(ShortId(n, seed)[i])
  {
    forall i | 0 <= i < n {
      CharOfRoundTrip(Low6(i * seed));
    }
  }

  /** Character 0 is built from 0·r, so every non-empty short id starts with '0'. */
  lemma ShortIdStartsWithZero(n: nat, seed: Seed)
    requires n >= 1
    ensures ShortId(n, seed)[0] == '0'
  {
  }

  /** i·a and i·b agree in their low six bits when a and b do. */
  lemma Low6OfMultiple(i: nat, a: int, b: int)
    requires a >= 0 && b >= 0
    requires a % 64 == b % 64
    ensures Low6(i * a) == Low6(i * b)
  {
    var k := a / 64 - b / 64;
    assert a == b + 64 * k;
    assert i * a == i * b + 64 * (i * k);
  }

  /** The short id depends on the seed only through r mod 64. */
  lemma ShortIdResidue(n: nat, a: Seed, b: Seed)
    requires a % 64 == b % 64
    ensures ShortId(n, a) == ShortId(n, b)
  {
    forall i | 0 <= i < n
      ensures ShortId(n, a)[i] == ShortId(n, b)[i]
    {
      Low6OfMultiple(i, a, b);
    }
  }

  /**
   * From two characters on, the short id determines r mod 64: two seeds give
   * the same id exactly when they agree mod 64.
   */
  lemma ShortIdCollision(n: nat, a: Seed, b: Seed)
    requires n >= 2
    ensures ShortId(n, a) == ShortId(n, b) <==> a % 64 == b % 64
  {
    if ShortId(n, a) == ShortId(n, b) {
      assert ShortId(n, a)[1] == ShortId(n, b)[1];
      CharOfInjective(Low6(1 * a), Low6(1 * b));
    }
    if a % 64 == b % 64 {
      ShortIdResidue(n, a, b);
    }
  }

  /** The seed 64 draws six-bit value 0 at every position. */
  lemma AllZerosAt64(n: nat)
    ensures ShortId(n, 64) == seq(n, _ => '0')
  {
    var zeros := ShortId(n, 64);
    assert CharOf(0) == '0';
    forall i | 0 <= i < n
      ensures zeros[i] == '0'
    {
      MultipleOf64IsZero(i);
    }
  }

  lemma MultipleOf64IsZero(i: nat)
    ensures Low6(i * 64) == 0
  {
    assert i * 64 == 64 * i;
  }

  /** The seeds in [1, 256] that are multiples of 64. */
  lemma MultiplesOf64(seed: Seed)
    ensures seed % 64 == 0 <==> seed in {64, 128, 192, 256}
  {
  }

  /** Seeds 64, 128, 192 and 256 give an id of '0's only, and no other seed does. */
  lemma ZeroSeeds(n: nat, seed: Seed)
    requires n >= 2
    ensures ShortId(n, seed) == seq(n, _ => '0') <==> seed in {64, 128, 192, 256}
  {
    ShortIdCollision(n, seed, 64);
    AllZerosAt64(n);
    MultiplesOf64(seed);
  }

  /** A subset is no larger than its superset. */
  lemma {:induction false} SubsetSize<T>(a: set<T>, b: set<T>)
    requires a <= b
    ensures |a| <= |b|
  {
    if a != {} {
      var x :| x in a;
      SubsetSize(a - {x}, b - {x});
    }
  }

  /** Every id a seed can produce, for a fixed size. */
  ghost function Outcomes(n: nat): set<string> {
    set s: int | 1 <= s <= 256 :: ShortId(n, s)
  }

  /** The ids produced by seeds 1 to k. */
  ghost function OutcomesUpTo(n: nat, k: nat): set<string>
    requires k <= 256
  {
    set s: int | 1 <= s <= k :: ShortId(n, s)
  }

  lemma {:induction false} OutcomesUpToBound(n: nat, k: nat)
    requires k <= 256
    ensures |OutcomesUpTo(n, k)| <= k
  {
    if k > 0 {
      OutcomesUpToBound(n, k - 1);
      assert OutcomesUpTo(n, k) == OutcomesUpTo(n, k - 1) + {ShortId(n, k)};
    } else {
      assert OutcomesUpTo(n, k) == {};
    }
  }

  /** Every seed's id is also produced by one of the seeds 1 to 64. */
  lemma SmallSeedSuffices(n: nat, s: Seed)
    ensures ShortId(n, s) in OutcomesUpTo(n, 64)
  {
    var t: Seed := (s - 1) % 64 + 1;
    ShortIdResidue(n, s, t);
    assert ShortId(n, t) in OutcomesUpTo(n, 64);
  }

  /** For a fixed size at most 64 distinct ids exist, whatever the seed. */
  lemma AtMost64Outcomes(n: nat)
    ensures |Outcomes(n)| <= 64
  {
    forall id | id in Outcomes(n)
      ensures id in OutcomesUpTo(n, 64)
    {
      var s: int :| 1 <= s <= 256 && id == ShortId(n, s);
      SmallSeedSuffices(n, s);
    }
    SubsetSize(Outcomes(n), OutcomesUpTo(n, 64));
    OutcomesUpToBound(n, 64);
  }

  /** The seeds that produce a given id. */
  ghost function SeedsOf(n: nat, id: string): set<int> {
    set s: int | 1 <= s <= 256 && ShortId(n, s) == id
  }

  /** The seeds in [1, 256] congruent to a given seed mod 64. */
  ghost function ResidueClass(seed: Seed): set<int> {
    set s: int | 1 <= s <= 256 && s % 64 == seed % 64
  }

  /** A residue class mod 64 within [1, 256] holds exactly four seeds. */
  lemma ResidueClassSize(seed: Seed)
    ensures |ResidueClass(seed)| == 4
  {
    var r := (seed - 1) % 64 + 1;
    assert ResidueClass(seed) == {r, r + 64, r + 128, r + 192};
  }

  /** Seeds collide on ids of two or more characters exactly within a residue class. */
  lemma SeedsOfIsResidueClass(n: nat, seed: Seed)
    requires n >= 2
    ensures SeedsOf(n, ShortId(n, seed)) == ResidueClass(seed)
  {
    forall s: int | 1 <= s <= 256
      ensures s in SeedsOf(n, ShortId(n, seed)) <==> s in ResidueClass(seed)
    {
      ShortIdCollision(n, s, seed);
    }
  }

  /**
   * Each id of two or more characters is produced by exactly four of the 256
   * seeds, so two independent draws collide with probability 1/64.
   */
  lemma FourSeedsPerId(n: nat, seed: Seed)
    requires n >= 2
    ensures |SeedsOf(n, ShortId(n, seed))| == 4
  {
    SeedsOfIsResidueClass(n, seed);
    ResidueClassSize(seed);
  }
}
