/** Block sizes and header words, as both heaps of mm/allocator.c use them. */
module BlockHeader {
  const HDR: nat := 8
  const WRAP: nat := 0x1_0000_0000

  type size_t = n: nat | n < 0x1_0000_0000

  /** b->sz & SIZE_MASK */
  function Bsz(word: nat): nat { word / 4 * 4 }

  /** sz | FREE_BIT */
  function WithFree(word: nat): nat { if word % 2 == 1 then word else word + 1 }

  /** sz & ~FREE_BIT */
  function NoFree(word: nat): nat { if word % 2 == 1 then word - 1 else word }

  lemma BitKept(word: nat)
    ensures Bsz(WithFree(word)) == Bsz(word) == Bsz(NoFree(word))
  {
    Bit0(word);
    Quarter(word, if word % 2 == 1 then word - 1 else word + 1);
  }

  lemma Bit0(word: nat)
    ensures word % 2 == 1 <==> word % 4 == 1 || word % 4 == 3
  {
    var q, r := word / 4, word % 4;
    assert word == 4 * q + r;
    TwoOf(if r < 2 then 2 * q else 2 * q + 1, word, if r < 2 then r else r - 2);
  }

  lemma TwoOf(m: nat, n: nat, r: nat)
    requires n == 2 * m + r && r < 2
    ensures n % 2 == r
  {
  }

  /** A word that is a multiple of four keeps its value under the mask, with or without the free bit. */
  lemma Quads(k: nat, n: nat)
    requires n == 4 * k
    ensures Bsz(n) == n && Bsz(n + 1) == n
  {
  }

  lemma Quarter(a: nat, b: nat)
    requires if a % 4 == 1 || a % 4 == 3 then b == a - 1 else b == a + 1
    ensures a / 4 == b / 4
  {
    var q, r := a / 4, a % 4;
    assert a == 4 * q + r;
  }
}
