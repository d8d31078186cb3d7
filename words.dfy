// Machine words of spp_bitset: a size_t of 64 bits, bit j being the
// coefficient of 2^j. A word is modelled by its 64 bits, and the word
// operations the bitset uses (|, &, ^, ~, shifts, one-bit masks, popcount,
// leading/trailing zero counts) are defined bit by bit.
module Words {

  /** bits_per_word */
  const W: nat := 64

  /** size_t(-1), the npos value of the bitset and the "unset" start of the allocator. */
  const NPOS: nat := 0xFFFF_FFFF_FFFF_FFFF

  /** 2^64: size_t arithmetic wraps modulo this value. */
  const SIZE_RANGE: nat := 0x1_0000_0000_0000_0000

  /** a - b computed on size_t. */
  function SizeSub(a: nat, b: nat): (r: nat)
    requires a < SIZE_RANGE && b < SIZE_RANGE
    ensures r < SIZE_RANGE
    ensures b <= a ==> r == a - b
    ensures a < b ==> r == SIZE_RANGE - (b - a)
  {
    (a - b) % SIZE_RANGE
  }

  type Word = w: seq<bool> | |w| == W witness seq(64, _ => false)

  function Zero(): (w: Word)
    ensures forall j :: 0 <= j < W ==> !w[j]
  {
    seq(W, _ => false)
  }

  /** size_t(-1) */
  function Ones(): (w: Word)
    ensures forall j :: 0 <= j < W ==> w[j]
  {
    seq(W, _ => true)
  }

  function Or(a: Word, b: Word): (w: Word)
  {
    seq(W, j requires 0 <= j < W => a[j] || b[j])
  }

  function And(a: Word, b: Word): (w: Word)
  {
    seq(W, j requires 0 <= j < W => a[j] && b[j])
  }

  function Xor(a: Word, b: Word): (w: Word)
  {
    seq(W, j requires 0 <= j < W => a[j] != b[j])
  }

  function Not(a: Word): (w: Word)
  {
    seq(W, j requires 0 <= j < W => !a[j])
  }

  /** a << r, for 0 <= r < 64 */
  function Shl(a: Word, r: nat): (w: Word)
    requires r < W
  {
    seq(W, j requires 0 <= j < W => j >= r && a[j - r])
  }

  /** a >> r, for 0 <= r < 64 */
  function Shr(a: Word, r: nat): (w: Word)
    requires r < W
  {
    seq(W, j requires 0 <= j < W => j + r < W && a[j + r])
  }

  /** _mask(pos) = size_t(1) << (pos % 64) */
  function Mask(pos: nat): (w: Word)
  {
    seq(W, j requires 0 <= j < W => j == pos % W)
  }

  /** _mask(pos) - 1 = 2^(pos % 64) - 1: the bits strictly below pos % 64. */
  function BelowMask(pos: nat): (w: Word)
  {
    seq(W, j requires 0 <= j < W => j < pos % W)
  }

  /** Number of true entries of a bit sequence. */
  function CountTrue(s: seq<bool>): (c: nat)
    ensures c <= |s|
  {
    if s == [] then 0 else CountTrue(s[..|s| - 1]) + (if s[|s| - 1] then 1 else 0)
  }

  /** s_popcount: the number of bits set in the word. */
  function Popcount(w: Word): (c: nat)
    ensures c <= W
  {
    CountTrue(w)
  }

  /** Index of the lowest set bit, or 64 for the zero word. */
  function LowestSet(w: Word, from: nat := 0): (k: nat)
    requires from <= W
    ensures from <= k <= W
    ensures forall j :: from <= j < k ==> !w[j]
    ensures k < W ==> w[k]
    decreases W - from
  {
    if from == W then W else if w[from] then from else LowestSet(w, from + 1)
  }

  /** count_trailing_zeroes: the zero bits below the lowest set bit (64 for the zero word). */
  function Ctz(w: Word): (c: nat)
    ensures c <= W
    ensures forall j :: 0 <= j < c ==> !w[j]
    ensures c < W ==> w[c]
  {
    LowestSet(w)
  }

  /** Number of zero bits above the highest set bit, scanning down from bit `top - 1`. */
  function ZerosAbove(w: Word, top: nat): (c: nat)
    requires top <= W
    ensures c <= top
    ensures forall j :: top - c <= j < top ==> !w[j]
    ensures c < top ==> w[top - c - 1]
  {
    if top == 0 then 0 else if w[top - 1] then 0 else 1 + ZerosAbove(w, top - 1)
  }

  /** count_leading_zeros: the zero bits above the highest set bit (64 for the zero word). */
  function Clz(w: Word): (c: nat)
    ensures c <= W
    ensures forall j :: W - c <= j < W ==> !w[j]
    ensures c < W ==> w[W - c - 1]
  {
    ZerosAbove(w, W)
  }

  /** The zero word is the one word without a lowest set bit. */
  lemma CtzZero(w: Word)
    ensures Ctz(w) == W <==> w == Zero()
  {
    if Ctz(w) == W {
      assert forall j :: 0 <= j < W ==> w[j] == Zero()[j];
    }
    if w == Zero() {
      assert forall j :: 0 <= j < W ==> !w[j];
    }
  }

  /** Shifting right by 0 keeps the word; shifting by a and then by 1 shifts by a + 1. */
  lemma ShrBy(v: Word, a: nat)
    requires a < W
    ensures a == 0 ==> Shr(v, 0) == v
    ensures a + 1 < W ==> Shr(Shr(v, a), 1) == Shr(v, a + 1)
  {
    if a == 0 {
      assert forall j :: 0 <= j < W ==> Shr(v, 0)[j] == v[j];
    }
    if a + 1 < W {
      assert forall j :: 0 <= j < W ==> Shr(Shr(v, a), 1)[j] == Shr(v, a + 1)[j];
    }
  }

  lemma OnesIff(w: Word)
    ensures w == Ones() <==> forall j :: 0 <= j < W ==> w[j]
  {
    if forall j :: 0 <= j < W ==> w[j] {
      assert forall j :: 0 <= j < W ==> w[j] == Ones()[j];
    }
  }

  lemma ZeroIff(w: Word)
    ensures w == Zero() <==> forall j :: 0 <= j < W ==> !w[j]
  {
    if forall j :: 0 <= j < W ==> !w[j] {
      assert forall j :: 0 <= j < W ==> w[j] == Zero()[j];
    }
  }

  /** (w & m) == m: every bit of the mask is set in w. */
  lemma AndCovers(w: Word, m: Word)
    ensures And(w, m) == m <==> forall j :: 0 <= j < W && m[j] ==> w[j]
  {
    if forall j :: 0 <= j < W && m[j] ==> w[j] {
      assert forall j :: 0 <= j < W ==> And(w, m)[j] == m[j];
    }
  }

  /** (w & m) != 0: some bit of the mask is set in w. */
  lemma AndMeets(w: Word, m: Word)
    ensures And(w, m) != Zero() <==> exists j :: 0 <= j < W && m[j] && w[j]
  {
    ZeroIff(And(w, m));
    assert forall j :: 0 <= j < W ==> And(w, m)[j] == (w[j] && m[j]);
  }
  /** The identities of the zero and all-ones words under | and &. */
  lemma WordIdentities(w: Word)
    ensures Or(w, Zero()) == w && Or(w, Ones()) == Ones()
    ensures And(w, Ones()) == w && And(w, Zero()) == Zero()
    ensures Not(Zero()) == Ones() && Not(Ones()) == Zero()
  {
    assert forall j :: 0 <= j < W ==> Or(w, Zero())[j] == w[j];
    assert forall j :: 0 <= j < W ==> Or(w, Ones())[j] == Ones()[j];
    assert forall j :: 0 <= j < W ==> And(w, Ones())[j] == w[j];
    assert forall j :: 0 <= j < W ==> And(w, Zero())[j] == Zero()[j];
    assert forall j :: 0 <= j < W ==> Not(Zero())[j] == Ones()[j];
    assert forall j :: 0 <= j < W ==> Not(Ones())[j] == Zero()[j];
  }
  lemma NotNot(w: Word)
    ensures Not(Not(w)) == w
  {
    assert forall j :: 0 <= j < W ==> Not(Not(w))[j] == w[j];
  }
}
