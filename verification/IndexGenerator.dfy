/** Index generation: consecutive 64 bit indices that never become zero. */
module IndexGeneration {
  import opened AnyValues

  const WRAP: int := 0x1_0000_0000_0000_0000

  /** The k-th index handed out by a generator, k counting from one. */
  function NthIndex(k: int): uint64
    requires k >= 1
  {
    (k - 1) % (WRAP - 1) + 1
  }

  /** `++x` on a 64 bit unsigned integer. */
  function Increment(x: uint64): uint64 {
    (x + 1) % WRAP
  }

  /** The index that a generator hands out next: zero is skipped. */
  function Successor(x: uint64): uint64 {
    if Increment(x) == 0 then Increment(0) else Increment(x)
  }

  class IndexGenerator {
    var lastIdx: uint64
    ghost var issued: nat

    /** The generator has handed out `issued` indices, the last of which it remembers. */
    ghost predicate Valid()
      reads this
    {
      lastIdx == if issued == 0 then 0 else NthIndex(issued)
    }

    constructor ()
      ensures Valid() && issued == 0
    {
      lastIdx := 0;
      issued := 0;
    }

    method NewIndex() returns (r: uint64)
      requires Valid()
      modifies this
      ensures Valid() && issued == old(issued) + 1
      ensures r == NthIndex(issued) == lastIdx
      ensures issued <= 0xFFFF_FFFF_FFFF_FFFF ==> r == issued
    {
      NthIndexSuccessor(issued);
      FirstIndices(issued + 1);
      lastIdx := Increment(lastIdx);
      if lastIdx == 0 {
        lastIdx := Increment(lastIdx);
      }
      issued := issued + 1;
      r := lastIdx;
    }
  }

  /** One generator step, zero skipped, leads from the k-th index to the next one. */
  lemma NthIndexSuccessor(k: nat)
    ensures NthIndex(k + 1) == Successor(if k == 0 then 0 else NthIndex(k))
  {
    if k > 0 {
      var q, r := (k - 1) / (WRAP - 1), (k - 1) % (WRAP - 1);
      assert k == (WRAP - 1) * q + r + 1;
      if r + 1 == WRAP - 1 {
        assert k == (WRAP - 1) * (q + 1);
        assert k % (WRAP - 1) == 0;
      } else {
        assert k % (WRAP - 1) == r + 1;
      }
    }
  }

  /** The first 2^64 - 1 indices are 1, 2, 3 and so on, and then they start again. */
  lemma FirstIndices(k: int)
    requires k >= 1
    ensures k <= 0xFFFF_FFFF_FFFF_FFFF ==> NthIndex(k) == k
    ensures NthIndex(k + 0xFFFF_FFFF_FFFF_FFFF) == NthIndex(k)
  {
  }

  /** Indices are never zero, and two of them coincide exactly when they were issued a
      multiple of 2^64 - 1 apart. */
  lemma IndicesDistinct(j: int, k: int)
    requires 1 <= j <= k
    ensures NthIndex(j) != 0
    ensures NthIndex(j) == NthIndex(k) <==> (k - j) % 0xFFFF_FFFF_FFFF_FFFF == 0
    ensures 0 < k - j < 0xFFFF_FFFF_FFFF_FFFF ==> NthIndex(j) != NthIndex(k)
  {
    var m := WRAP - 1;
    var a, b := j - 1, k - 1;
    assert a == m * (a / m) + a % m;
    assert b == m * (b / m) + b % m;
    assert k - j == m * (b / m - a / m) + (b % m - a % m);
  }
}
