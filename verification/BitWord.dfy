/** A machine word as its bits, least significant first, and the searches the kernel and the heap do with it. */
module BitWord {
  type bits = w: seq<bool> | |w| == 32 witness seq(32, _ => false)

  const ZERO: bits := seq(32, _ => false)

  predicate IsZero(w: bits) {
    forall i | 0 <= i < 32 :: !w[i]
  }

  /** w | BIT(i) */
  function Set(w: bits, i: nat): bits
    requires i < 32
  {
    w[i := true]
  }

  /** w & ~BIT(i) */
  function Clear(w: bits, i: nat): bits
    requires i < 32
  {
    w[i := false]
  }

  /** w & ~(BIT(i) - 1) */
  function From(w: bits, i: nat): bits
    requires i <= 32
  {
    seq(32, j requires 0 <= j < 32 => i <= j && w[j])
  }

  /** __builtin_ctz: the lowest one bit. */
  function Lowest(w: bits): (i: nat)
    requires !IsZero(w)
    ensures i < 32 && w[i] && forall j | 0 <= j < i :: !w[j]
  {
    LowestFrom(w, 0)
  }

  function LowestFrom(w: bits, k: nat): (i: nat)
    requires k <= 32 && !IsZero(w) && forall j | 0 <= j < k :: !w[j]
    ensures k <= i < 32 && w[i] && forall j | 0 <= j < i :: !w[j]
    decreases 32 - k
  {
    if w[k] then k else LowestFrom(w, k + 1)
  }

  /** 31 - __builtin_clz: the highest one bit. */
  function Highest(w: bits): (i: nat)
    requires !IsZero(w)
    ensures i < 32 && w[i] && forall j | i < j < 32 :: !w[j]
  {
    HighestBelow(w, 32)
  }

  function HighestBelow(w: bits, k: nat): (i: nat)
    requires k <= 32 && !IsZero(w) && forall j | k <= j < 32 :: !w[j]
    ensures i < k && w[i] && forall j | i < j < 32 :: !w[j]
  {
    if w[k - 1] then k - 1 else HighestBelow(w, k - 1)
  }
}
