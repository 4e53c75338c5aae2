/**
 This module models the 32-bit integer arithmetic MyHashMap uses to turn a
 key's hash into a bucket index, and the load-factor threshold.
 */
module JavaInt {

  /** 2^31: the magnitude of Integer.MIN_VALUE. */
  const TWO_POW_31: int := 0x8000_0000
  /** 2^32: the modulus of Java's `int` arithmetic. */
  const TWO_POW_32: int := 2 * TWO_POW_31

  const MIN_INT: int := -TWO_POW_31
  const MAX_INT: int := TWO_POW_31 - 1

  /** Java's `int`. */
  newtype int32 = x: int | MIN_INT <= x <= MAX_INT

  const DEFAULT_START_CAPACITY: nat := 16
  const INCREASE_CAPACITY_VALUE: nat := 2

  /** Two's complement truncation of an exact integer to 32 bits. */
  function Wrap32(x: int): (r: int32)
    ensures (x - r as int) % TWO_POW_32 == 0
  {
    var u := x % TWO_POW_32;
    if u <= MAX_INT then u as int32 else (u - TWO_POW_32) as int32
  }

  /**
   MyHashMap.hashCode normalisation: a negative hash is multiplied by -1.
   The product wraps, so Integer.MIN_VALUE stays negative.
   */
  function HashCode(raw: int32): (r: int32)
    ensures raw as int != MIN_INT ==> r >= 0 && (r == raw || r as int == -(raw as int))
    ensures raw as int == MIN_INT ==> r == raw
  {
    if raw < 0 then Wrap32(raw as int * -1) else raw
  }

  /**
   Java's `%` on int for a positive divisor: the quotient truncates toward
   zero, so the remainder takes the dividend's sign.
   */
  function Rem(a: int, b: int): (r: int)
    requires b > 0
    ensures a >= 0 ==> 0 <= r < b && r == a % b
    ensures a < 0 ==> -b < r <= 0
  {
    if a >= 0 then a % b else -((-a) % b)
  }

  /** MyHashMap.defineIndex: `hashcode % capacity`; a valid index whenever the hash is not negative. */
  function DefineIndex(hashcode: int, capacity: int): (r: int)
    requires capacity > 0
    ensures hashcode >= 0 ==> 0 <= r < capacity && r == hashcode % capacity
    ensures hashcode < 0 ==> -capacity < r <= 0
  {
    Rem(hashcode, capacity)
  }

  /** `(int) (DEFAULT_LOAD_FACTOR * capacity)` with the load factor 0.75, in exact arithmetic. */
  function Threshold(capacity: nat): (r: nat)
    ensures r as real <= 0.75 * capacity as real < r as real + 1.0
  {
    capacity * 3 / 4
  }

  /**
   Integer.MIN_VALUE is the one hash whose normalisation stays negative; for
   every capacity dividing 2^31 -- all capacities 16 * 2^n the map reaches
   before `capacity * 2` overflows -- its index is nevertheless 0, a valid
   bucket.
   */
  lemma MinValueIndex(capacity: int)
    requires capacity > 0 && TWO_POW_31 % capacity == 0
    ensures DefineIndex(HashCode(MIN_INT as int32) as int, capacity) == 0
  {
  }
}
