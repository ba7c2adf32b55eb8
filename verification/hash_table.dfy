/**
 * The fixed-size chained hash table of developer records, keyed by an int
 * and indexed by the key modulo 101. Each bucket's chain is a sequence,
 * most recent insert first.
 */
module DeveloperHashing {
  import opened Wrappers
  import opened DeveloperRecords

  const HashTableSize := 101

  /** hash, for the non-negative keys it is meant for: a valid bucket index. */
  function Hash(key: int): (index: int)
    requires key >= 0
    ensures 0 <= index < HashTableSize
    ensures key < HashTableSize ==> index == key
  {
    key % HashTableSize
  }

  /** C's `%` on a negative left operand: the remainder takes the sign of the dividend. */
  function TruncatedRemainder(a: int, b: int): (r: int)
    requires b > 0
    ensures -b < r < b
    ensures a >= 0 ==> r == a % b
  {
    if a >= 0 then a % b else -((-a) % b)
  }

  /**
   * hash exactly as written: a 32-bit `int` key, C's `%`, and the result
   * converted to `unsigned int`.
   */
  function HashAsWritten(key: int): (index: int)
    requires -0x8000_0000 <= key < 0x8000_0000
    ensures 0 <= index < 0x1_0000_0000
  {
    TruncatedRemainder(key, HashTableSize) % 0x1_0000_0000
  }

  /** On the keys the table is meant for, the code as written and the model agree. */
  lemma HashAsWrittenOnNaturalKeys(key: int)
    requires 0 <= key < 0x8000_0000
    ensures HashAsWritten(key) == Hash(key)
  {
  }

  /** A negative key, which nothing in hashInsert or hashSearch rejects, indexes far outside the table. */
  lemma NegativeKeyIndexesOutsideTable()
    ensures HashAsWritten(-1) == 0xFFFF_FFFF
    ensures HashAsWritten(-1) >= HashTableSize
  {
    assert TruncatedRemainder(-1, HashTableSize) == -1;
  }

  /**
   * Every negative 32-bit key that is not a multiple of 101 indexes at least
   * 2^32 - 100, far outside the table; negative multiples of 101 land in bucket 0.
   */
  lemma NegativeKeysIndexOutsideTable(key: int)
    requires -0x8000_0000 <= key < 0
    ensures TruncatedRemainder(key, HashTableSize) != 0 ==> HashAsWritten(key) >= 0x1_0000_0000 - 100
    ensures TruncatedRemainder(key, HashTableSize) == 0 ==> HashAsWritten(key) == 0
  {
    var r := TruncatedRemainder(key, HashTableSize);
    assert r == -((-key) % HashTableSize);
    if r != 0 {
      assert -100 <= r < 0;
      assert r % 0x1_0000_0000 == r + 0x1_0000_0000;
    }
  }

  datatype Entry = Entry(key: int, value: Developer)

  /** The value of the first entry in `chain` with key `key`, as hashSearch's walk finds it. */
  function ChainFind(chain: seq<Entry>, key: int): (found: Option<Developer>)
    ensures found.Some? ==> Entry(key, found.value) in chain
    ensures found.None? <==> forall i :: 0 <= i < |chain| ==> chain[i].key != key
  {
    if chain == [] then None
    else if chain[0].key == key then Some(chain[0].value)
    else ChainFind(chain[1..], key)
  }

  class HashTable {
    const buckets: array<seq<Entry>>

    /** 101 buckets, and every entry sits in the bucket its key hashes to. */
    ghost predicate Valid()
      reads this, buckets
    {
      && buckets.Length == HashTableSize
      && forall i, e :: 0 <= i < buckets.Length && e in buckets[i] ==> e.key >= 0 && Hash(e.key) == i
    }

    /** What hashSearch answers for `key`. */
    ghost function Lookup(key: int): Option<Developer>
      reads this, buckets
      requires Valid() && key >= 0
    {
      ChainFind(buckets[Hash(key)], key)
    }

    /** createHashTable: every bucket empty. */
    constructor ()
      ensures Valid() && fresh(buckets)
      ensures forall i :: 0 <= i < buckets.Length ==> buckets[i] == []
      ensures forall key :: key >= 0 ==> Lookup(key) == None
    {
      buckets := new seq<Entry>[HashTableSize](_ => []);
    }

    /** hashInsert: the new entry goes to the front of its key's bucket. */
    method HashInsert(key: int, dev: Developer)
      requires Valid() && key >= 0
      modifies buckets
      ensures Valid()
      ensures buckets[Hash(key)] == [Entry(key, dev)] + old(buckets[Hash(key)])
      ensures forall i :: 0 <= i < buckets.Length && i != Hash(key) ==> buckets[i] == old(buckets[i])
      ensures Lookup(key) == Some(dev)
      ensures forall k :: k >= 0 && k != key ==> Lookup(k) == old(Lookup(k))
    {
      var index := Hash(key);
      buckets[index] := [Entry(key, dev)] + buckets[index];
    }

    /** hashSearch: walks the key's bucket from the front. */
    method HashSearch(key: int) returns (found: Option<Developer>)
      requires Valid() && key >= 0
      ensures found == Lookup(key)
      ensures found.Some? ==> Entry(key, found.value) in buckets[Hash(key)]
    {
      var chain := buckets[Hash(key)];
      var i := 0;
      while i < |chain|
        invariant 0 <= i <= |chain|
        invariant ChainFind(chain, key) == ChainFind(chain[i..], key)
      {
        if chain[i].key == key {
          return Some(chain[i].value);
        }
        assert chain[i..][1..] == chain[i + 1..];
        i := i + 1;
      }
      return None;
    }
  }
}
