// spp_bitset<N>: a fixed-size bitset of N bits (N a positive multiple of 64)
// stored as an array of 64-bit words, updated in place.
module SppBitset {
  import opened Words
  import opened BitSpec

  /** count_trailing_zeroes_naive: 64 for the zero word, else the index of the lowest set bit. */
  method CountTrailingZeroesNaive(v: Word) returns (count: nat)
    ensures count == Ctz(v)
    ensures count <= W && (forall j :: 0 <= j < count ==> !v[j]) && (count < W ==> v[count])
  {
    CtzZero(v);
    if v == Zero() {
      return W;
    }
    count := 0;
    var x := v;
    ShrBy(v, 0);
    while !x[0]
      invariant count <= Ctz(v) < W
      invariant x == Shr(v, count)
      decreases W - count
    {
      ShrBy(v, count);
      count := count + 1;
      x := Shr(x, 1);
    }
  }

  /** _num_words(num_bits): the number of words needed for num_bits bits. */
  function NumWords(numBits: nat): (r: nat)
    ensures r * W >= numBits && (r == 0 || (r - 1) * W < numBits)
  {
    (numBits + W - 1) / W
  }

  class Bitset {
    /** N */
    const n: nat
    /** _bits */
    const words: array<Word>

    ghost predicate Valid()
    {
      0 < n < NPOS && n % W == 0 && words.Length == n / W
    }

    /** The N bits, bit i being bit i % 64 of word i / 64. */
    ghost function Bits(): (b: seq<bool>)
      reads words
      requires Valid()
      ensures |b| == n
    {
      Flatten(words[..])
    }

    /** spp_bitset(): every bit clear. */
    constructor (size: nat)
      requires 0 < size < NPOS && size % W == 0
      ensures Valid() && n == size && fresh(words)
      ensures NoneSet(Bits())
    {
      n := size;
      words := new Word[size / W](_ => Zero());
      new;
      forall i | 0 <= i < n ensures !Bits()[i] {
        assert words[i / W] == Zero();
      }
    }

    /** The implicit copy constructor: same N, same bits, own storage. */
    constructor Copy(o: Bitset)
      requires o.Valid()
      ensures Valid() && n == o.n && fresh(words)
      ensures Bits() == o.Bits()
    {
      n := o.n;
      var ws := new Word[o.words.Length](_ => Zero());
      var i := 0;
      while i < ws.Length
        invariant 0 <= i <= ws.Length
        invariant forall k :: 0 <= k < i ==> ws[k] == o.words[k]
      {
        ws[i] := o.words[i];
        i := i + 1;
      }
      words := ws;
      new;
      assert words[..] == o.words[..];
    }

    /** size() */
    function Size(): (r: nat)
      requires Valid()
      ensures r > 0 && r % W == 0
    {
      n
    }

    /** test(pos) */
    method Test(pos: nat) returns (b: bool)
      requires Valid() && pos < n
      ensures b == Bits()[pos]
    {
      var w := And(words[pos / W], Mask(pos));
      b := w != Zero();
      if words[pos / W][pos % W] {
        assert w[pos % W] != Zero()[pos % W];
      } else {
        assert forall j :: 0 <= j < W ==> w[j] == Zero()[j];
      }
    }

    /** set(pos) */
    method Set(pos: nat)
      requires Valid() && pos < n
      modifies words
      ensures Bits() == old(Bits())[pos := true]
    {
      ghost var before := words[..];
      words[pos / W] := Or(words[pos / W], Mask(pos));
      forall k, j | 0 <= k < words.Length && 0 <= j < W
        ensures words[k][j] == old(Bits())[pos := true][k * W + j]
      {
        FlattenAt(before, k, j);
      }
      FlattenExt(words[..], old(Bits())[pos := true]);
    }

    /** reset(pos) */
    method Reset(pos: nat)
      requires Valid() && pos < n
      modifies words
      ensures Bits() == old(Bits())[pos := false]
    {
      ghost var before := words[..];
      words[pos / W] := And(words[pos / W], Not(Mask(pos)));
      forall k, j | 0 <= k < words.Length && 0 <= j < W
        ensures words[k][j] == old(Bits())[pos := false][k * W + j]
      {
        FlattenAt(before, k, j);
      }
      FlattenExt(words[..], old(Bits())[pos := false]);
    }

    /**
     * flip(pos) as the source writes it: the word is XORed with ~_mask(pos),
     * which inverts the 63 other bits of pos's word and leaves bit pos alone.
     */
    method FlipAsWritten(pos: nat)
      requires Valid() && pos < n
      modifies words
      ensures Bits() == FlipOthersInWord(old(Bits()), pos)
    {
      ghost var before := words[..];
      words[pos / W] := Xor(words[pos / W], Not(Mask(pos)));
      forall k, j | 0 <= k < words.Length && 0 <= j < W
        ensures words[k][j] == FlipOthersInWord(old(Bits()), pos)[k * W + j]
      {
        FlattenAt(before, k, j);
      }
      FlattenExt(words[..], FlipOthersInWord(old(Bits()), pos));
    }

    /** flip(pos) as evidently intended: XOR with _mask(pos) inverts bit pos only. */
    method Flip(pos: nat)
      requires Valid() && pos < n
      modifies words
      ensures Bits() == old(Bits())[pos := !old(Bits())[pos]]
    {
      ghost var before := words[..];
      ghost var target := old(Bits())[pos := !old(Bits())[pos]];
      words[pos / W] := Xor(words[pos / W], Mask(pos));
      forall k, j | 0 <= k < words.Length && 0 <= j < W
        ensures words[k][j] == target[k * W + j]
      {
        FlattenAt(before, k, j);
      }
      FlattenExt(words[..], target);
    }

    /** set(from, to): sets exactly the bits of [from, to), a word at a time. */
    method SetRange(from: nat, to: nat)
      requires Valid() && from <= to <= n
      modifies words
      ensures Bits() == BitSpec.SetRange(old(Bits()), from, to)
    {
      ghost var before := words[..];
      var first := NumWords(from);
      var last := to / W;
      if first <= last {
        if from % W != 0 {
          words[first - 1] := Or(words[first - 1], Not(BelowMask(from)));
        }
        var i := first;
        while i < last
          invariant first <= i <= last
          invariant forall k :: 0 <= k < words.Length && !(first <= k < i) && !(from % W != 0 && k == first - 1) ==> words[k] == before[k]
          invariant forall k :: first <= k < i ==> words[k] == Ones()
          invariant from % W != 0 ==> words[first - 1] == Or(before[first - 1], Not(BelowMask(from)))
        {
          words[i] := Ones();
          i := i + 1;
        }
        if to % W != 0 {
          words[i] := Or(words[i], BelowMask(to));
        }
      } else {
        words[last] := Or(words[last], Xor(BelowMask(from), BelowMask(to)));
      }
      forall k | 0 <= k < words.Length ensures words[k] == Or(before[k], RangeWord(k, from, to)) {
        RangeWordCases(k, from, to, first, last);
        WordIdentities(before[k]);
      }
      SetWords(before, words[..], from, to);
    }

    /** reset(from, to): clears exactly the bits of [from, to), a word at a time. */
    method ResetRange(from: nat, to: nat)
      requires Valid() && from <= to <= n
      modifies words
      ensures Bits() == BitSpec.ResetRange(old(Bits()), from, to)
    {
      ghost var before := words[..];
      var first := NumWords(from);
      var last := to / W;
      if first <= last {
        if from % W != 0 {
          words[first - 1] := And(words[first - 1], BelowMask(from));
        }
        var i := first;
        while i < last
          invariant first <= i <= last
          invariant forall k :: 0 <= k < words.Length && !(first <= k < i) && !(from % W != 0 && k == first - 1) ==> words[k] == before[k]
          invariant forall k :: first <= k < i ==> words[k] == Zero()
          invariant from % W != 0 ==> words[first - 1] == And(before[first - 1], BelowMask(from))
        {
          words[i] := Zero();
          i := i + 1;
        }
        if to % W != 0 {
          words[i] := And(words[i], Not(BelowMask(to)));
        }
      } else {
        words[last] := And(words[last], Not(Xor(BelowMask(from), BelowMask(to))));
      }
      forall k | 0 <= k < words.Length ensures words[k] == And(before[k], Not(RangeWord(k, from, to))) {
        RangeWordCases(k, from, to, first, last);
        WordIdentities(before[k]);
        NotNot(BelowMask(from));
      }
      ResetWords(before, words[..], from, to);
    }

    /** all(from, to): every bit of [from, to) is set. */
    method AllRange(from: nat, to: nat) returns (r: bool)
      requires Valid() && from <= to <= n
      ensures r == AllIn(Bits(), from, to)
    {
      AllInWords(words[..], from, to);
      var first := NumWords(from);
      var last := to / W;
      if first <= last {
        if from % W != 0 {
          var val := Not(BelowMask(from));
          if And(words[first - 1], val) != val {
            RangeWordCases(first - 1, from, to, first, last);
            assert words[..][first - 1] == words[first - 1];
            return false;
          }
        }
        var i := first;
        while i < last
          invariant first <= i <= last
          invariant forall k :: first <= k < i ==> words[k] == Ones()
        {
          if words[i] != Ones() {
            RangeWordCases(i, from, to, first, last);
            WordIdentities(words[i]);
            assert words[..][i] == words[i];
            return false;
          }
          i := i + 1;
        }
        if to % W != 0 {
          var val := BelowMask(to);
          if And(words[i], val) != val {
            RangeWordCases(i, from, to, first, last);
            assert words[..][i] == words[i];
            return false;
          }
        }
        r := true;
      } else {
        var val := Xor(BelowMask(from), BelowMask(to));
        RangeWordCases(last, from, to, first, last);
        assert words[..][last] == words[last];
        r := And(words[last], val) == val;
      }
      if r {
        forall k | 0 <= k < words.Length ensures And(words[k], RangeWord(k, from, to)) == RangeWord(k, from, to) {
          RangeWordCases(k, from, to, first, last);
          WordIdentities(words[k]);
        }
      }
    }

    /** any(from, to): some bit of [from, to) is set. */
    method AnyRange(from: nat, to: nat) returns (r: bool)
      requires Valid() && from <= to <= n
      ensures r == AnyIn(Bits(), from, to)
    {
      AnyInWords(words[..], from, to);
      var first := NumWords(from);
      var last := to / W;
      if first <= last {
        if from % W != 0 {
          if And(words[first - 1], Not(BelowMask(from))) != Zero() {
            RangeWordCases(first - 1, from, to, first, last);
            assert words[..][first - 1] == words[first - 1];
            return true;
          }
        }
        var i := first;
        while i < last
          invariant first <= i <= last
          invariant forall k :: first <= k < i ==> words[k] == Zero()
        {
          if words[i] != Zero() {
            RangeWordCases(i, from, to, first, last);
            WordIdentities(words[i]);
            assert words[..][i] == words[i];
            return true;
          }
          i := i + 1;
        }
        if to % W != 0 {
          if And(words[i], BelowMask(to)) != Zero() {
            RangeWordCases(i, from, to, first, last);
            assert words[..][i] == words[i];
            return true;
          }
        }
        r := false;
      } else {
        var val := Xor(BelowMask(from), BelowMask(to));
        RangeWordCases(last, from, to, first, last);
        assert words[..][last] == words[last];
        r := And(words[last], val) != Zero();
      }
      if !r {
        forall k | 0 <= k < words.Length ensures And(words[k], RangeWord(k, from, to)) == Zero() {
          RangeWordCases(k, from, to, first, last);
          WordIdentities(words[k]);
        }
      }
    }

    /** none(from, to) = !any(from, to) */
    method NoneRange(from: nat, to: nat) returns (r: bool)
      requires Valid() && from <= to <= n
      ensures r == NoneIn(Bits(), from, to)
    {
      var a := AnyRange(from, to);
      r := !a;
    }

    /** all(): every bit is set. */
    method All() returns (r: bool)
      requires Valid()
      ensures r == AllSet(Bits())
    {
      var i := 0;
      while i < words.Length
        invariant 0 <= i <= words.Length
        invariant AllIn(Bits(), 0, i * W)
      {
        OnesIff(words[i]);
        if words[i] != Ones() {
          var j :| 0 <= j < W && !words[i][j];
          FlattenAt(words[..], i, j);
          return false;
        }
        forall p | i * W <= p < (i + 1) * W ensures Bits()[p] {
          assert p / W == i;
        }
        i := i + 1;
      }
      return true;
    }

    /**
     * all(start_pos): when some bit is clear, returns false and the index of
     * the first clear bit; when every bit is set, returns true and start_pos
     * unchanged.
     */
    method AllFirstZero(startPos: nat) returns (r: bool, pos: nat)
      requires Valid()
      ensures r == AllSet(Bits())
      ensures r ==> pos == startPos
      ensures !r ==> pos < n && !Bits()[pos] && AllIn(Bits(), 0, pos)
    {
      var i := 0;
      while i < words.Length
        invariant 0 <= i <= words.Length
        invariant AllIn(Bits(), 0, i * W)
      {
        if words[i] != Ones() {
          var inv := Not(words[i]);
          var c := Ctz(inv);
          CtzZero(inv);
          OnesIff(words[i]);
          var j :| 0 <= j < W && !words[i][j];
          assert inv[j];
          assert forall q :: 0 <= q < W ==> inv[q] == !words[i][q];
          pos := i * W + c;
          FlattenAt(words[..], i, c);
          WordRangeAll(words[..], i, 0, c);
          return false, pos;
        }
        forall p | i * W <= p < (i + 1) * W ensures Bits()[p] {
          assert p / W == i;
        }
        i := i + 1;
      }
      return true, startPos;
    }

    /** any(): some bit is set. */
    method Any() returns (r: bool)
      requires Valid()
      ensures r == !NoneSet(Bits())
    {
      var i := 0;
      while i < words.Length
        invariant 0 <= i <= words.Length
        invariant NoneIn(Bits(), 0, i * W)
      {
        ZeroIff(words[i]);
        if words[i] != Zero() {
          var j :| 0 <= j < W && words[i][j];
          FlattenAt(words[..], i, j);
          return true;
        }
        forall p | i * W <= p < (i + 1) * W ensures !Bits()[p] {
          assert p / W == i;
        }
        i := i + 1;
      }
      return false;
    }

    /** none() = !any() */
    method None() returns (r: bool)
      requires Valid()
      ensures r == NoneSet(Bits())
    {
      var a := Any();
      r := !a;
    }

    /** count(): the sum of the words' popcounts, that is the number of set bits. */
    method Count() returns (cnt: nat)
      requires Valid()
      ensures cnt == CountTrue(Bits())
      ensures n - cnt == CountZero(Bits())
    {
      cnt := 0;
      var i := 0;
      while i < words.Length
        invariant 0 <= i <= words.Length
        invariant cnt == SumPopcount(words[..i])
      {
        assert words[..i + 1][..i] == words[..i];
        cnt := cnt + Popcount(words[i]);
        i := i + 1;
      }
      assert words[..i] == words[..];
      FlattenCount(words[..]);
    }

    /** operator==: same bits (both bitsets have the same N). */
    method Equals(rhs: Bitset) returns (r: bool)
      requires Valid() && rhs.Valid() && rhs.n == n
      ensures r == (Bits() == rhs.Bits())
    {
      var i := 0;
      while i < words.Length
        invariant 0 <= i <= words.Length
        invariant forall k :: 0 <= k < i ==> words[k] == rhs.words[k]
      {
        if words[i] != rhs.words[i] {
          var j :| 0 <= j < W && words[i][j] != rhs.words[i][j];
          FlattenAt(words[..], i, j);
          FlattenAt(rhs.words[..], i, j);
          return false;
        }
        i := i + 1;
      }
      assert words[..] == rhs.words[..];
      return true;
    }

    /** operator&=, operator|= and operator^=: combines every word with rhs's, in place. */
    method CombineWith(rhs: Bitset, op: BitOp)
      requires Valid() && rhs.Valid() && rhs.n == n
      modifies words
      ensures Bits() == Combine(old(Bits()), old(rhs.Bits()), op)
    {
      ghost var before := words[..];
      ghost var other := rhs.words[..];
      var i := 0;
      while i < words.Length
        invariant 0 <= i <= words.Length
        invariant forall k :: 0 <= k < i ==> words[k] == CombineWord(before[k], other[k], op)
        invariant forall k :: i <= k < words.Length ==> words[k] == before[k] && rhs.words[k] == other[k]
      {
        words[i] := CombineWord(words[i], rhs.words[i], op);
        i := i + 1;
      }
      ghost var target := Combine(old(Bits()), old(rhs.Bits()), op);
      forall k, j | 0 <= k < words.Length && 0 <= j < W
        ensures words[k][j] == target[k * W + j]
      {
        FlattenAt(before, k, j);
        FlattenAt(other, k, j);
      }
      FlattenExt(words[..], target);
    }

    /** set(): every bit set. */
    method SetAll()
      requires Valid()
      modifies words
      ensures AllSet(Bits())
    {
      var i := 0;
      while i < words.Length
        invariant 0 <= i <= words.Length
        invariant forall k :: 0 <= k < i ==> words[k] == Ones()
      {
        words[i] := Ones();
        i := i + 1;
      }
      forall p | 0 <= p < n ensures Bits()[p] {
        assert words[p / W] == Ones();
      }
    }

    /** reset(): every bit clear. */
    method ResetAll()
      requires Valid()
      modifies words
      ensures NoneSet(Bits())
    {
      var i := 0;
      while i < words.Length
        invariant 0 <= i <= words.Length
        invariant forall k :: 0 <= k < i ==> words[k] == Zero()
      {
        words[i] := Zero();
        i := i + 1;
      }
      forall p | 0 <= p < n ensures !Bits()[p] {
        assert words[p / W] == Zero();
      }
    }

    /** flip(): every bit inverted. */
    method FlipAll()
      requires Valid()
      modifies words
      ensures Bits() == NotBits(old(Bits()))
    {
      ghost var before := words[..];
      var i := 0;
      while i < words.Length
        invariant 0 <= i <= words.Length
        invariant forall k :: 0 <= k < i ==> words[k] == Not(before[k])
        invariant forall k :: i <= k < words.Length ==> words[k] == before[k]
      {
        words[i] := Not(words[i]);
        i := i + 1;
      }
      ghost var target := NotBits(old(Bits()));
      forall k, j | 0 <= k < words.Length && 0 <= j < W
        ensures words[k][j] == target[k * W + j]
      {
        FlattenAt(before, k, j);
      }
      FlattenExt(words[..], target);
    }

    /** The word moves of operator<<=: word q >= div receives its shifted bits. */
    method MoveWordsUp(div: nat, r: nat)
      requires Valid() && div < words.Length && r < W
      modifies words
      ensures forall q :: 0 <= q < div ==> words[q] == old(words[q])
      ensures forall q :: div <= q < words.Length ==> words[q] == WordShiftedUp(old(words[..]), div, r, q)
    {
      ghost var before := words[..];
      var last := words.Length - 1;
      var i := last - div;
      while i > 0
        invariant 0 <= i <= last - div
        invariant forall q :: 0 <= q <= i + div ==> words[q] == before[q]
        invariant forall q :: i + div < q <= last ==> words[q] == WordShiftedUp(before, div, r, q)
      {
        if r != 0 {
          words[i + div] := Or(Shl(words[i], r), Shr(words[i - 1], W - r));
        } else {
          words[i + div] := words[i];
        }
        i := i - 1;
      }
      if r != 0 {
        words[div] := Shl(words[0], r);
      } else {
        words[div] := words[0];
      }
    }

    /** The word moves of operator>>=: word q < N/64 - div receives its shifted bits. */
    method MoveWordsDown(div: nat, r: nat)
      requires Valid() && div < words.Length && r < W
      modifies words
      ensures forall q :: words.Length - div <= q < words.Length ==> words[q] == old(words[q])
      ensures forall q :: 0 <= q < words.Length - div ==> words[q] == WordShiftedDown(old(words[..]), div, r, q)
    {
      ghost var before := words[..];
      var last := words.Length - 1;
      if r != 0 {
        var i := div;
        while i < last
          invariant div <= i <= last
          invariant forall q :: i - div <= q <= last ==> words[q] == before[q]
          invariant forall q :: 0 <= q < i - div ==> words[q] == WordShiftedDown(before, div, r, q)
        {
          words[i - div] := Or(Shr(words[i], r), Shl(words[i + 1], W - r));
          i := i + 1;
        }
        words[last - div] := Shr(words[last], r);
      } else {
        var i := div;
        while i <= last
          invariant div <= i <= last + 1
          invariant forall q :: i - div <= q <= last ==> words[q] == before[q]
          invariant forall q :: 0 <= q < i - div ==> words[q] == WordShiftedDown(before, div, r, q)
        {
          words[i - div] := words[i];
          i := i + 1;
        }
      }
    }

    /** std::fill_n(&_bits[from], to - from, 0) */
    method ZeroWords(from: nat, to: nat)
      requires Valid() && from <= to <= words.Length
      modifies words
      ensures forall q :: 0 <= q < words.Length ==>
        words[q] == if from <= q < to then Zero() else old(words[q])
    {
      var z := from;
      while z < to
        invariant from <= z <= to
        invariant forall q :: 0 <= q < words.Length ==>
          words[q] == if from <= q < z then Zero() else old(words[q])
      {
        words[z] := Zero();
        z := z + 1;
      }
    }

    /** operator<<=(k): bit p moves to p + k; bits shifted past N are lost. */
    method ShiftUpBy(k: nat)
      requires Valid()
      modifies words
      ensures Bits() == ShiftUp(old(Bits()), k)
    {
      if k >= n {
        ResetAll();
        assert Bits() == ShiftUp(old(Bits()), k);
        return;
      }
      if k > 0 {
        ghost var before := words[..];
        var div := k / W;
        var r := k % W;
        MoveWordsUp(div, r);
        ZeroWords(0, div);
        assert words[..] == WordsShiftedUp(before, div, r);
        ShiftedUpWords(before, k);
      } else {
        assert Bits() == ShiftUp(old(Bits()), k);
      }
    }

    /** operator>>=(k): bit p moves to p - k; the k lowest bits are lost. */
    method ShiftDownBy(k: nat)
      requires Valid()
      modifies words
      ensures Bits() == ShiftDown(old(Bits()), k)
    {
      if k >= n {
        ResetAll();
        assert Bits() == ShiftDown(old(Bits()), k);
        return;
      }
      if k > 0 {
        ghost var before := words[..];
        var div := k / W;
        var r := k % W;
        MoveWordsDown(div, r);
        ZeroWords(words.Length - div, words.Length);
        assert words[..] == WordsShiftedDown(before, div, r);
        ShiftedDownWords(before, k);
      } else {
        assert Bits() == ShiftDown(old(Bits()), k);
      }
    }

    /** operator<<(k): a shifted copy. */
    method ShiftedUp(k: nat) returns (res: Bitset)
      requires Valid()
      ensures fresh(res) && fresh(res.words) && res.Valid() && res.n == n
      ensures res.Bits() == ShiftUp(Bits(), k)
    {
      res := new Bitset.Copy(this);
      res.ShiftUpBy(k);
    }

    /** operator>>(k): a shifted copy. */
    method ShiftedDown(k: nat) returns (res: Bitset)
      requires Valid()
      ensures fresh(res) && fresh(res.words) && res.Valid() && res.n == n
      ensures res.Bits() == ShiftDown(Bits(), k)
    {
      res := new Bitset.Copy(this);
      res.ShiftDownBy(k);
    }

    /** operator|, operator& (and ^): a combined copy. */
    method Combined(o: Bitset, op: BitOp) returns (res: Bitset)
      requires Valid() && o.Valid() && o.n == n
      ensures fresh(res) && fresh(res.words) && res.Valid() && res.n == n
      ensures res.Bits() == Combine(Bits(), o.Bits(), op)
    {
      res := new Bitset.Copy(this);
      res.CombineWith(o, op);
    }

    /** operator~: an inverted copy. */
    method Inverted() returns (res: Bitset)
      requires Valid()
      ensures fresh(res) && fresh(res.words) && res.Valid() && res.n == n
      ensures res.Bits() == NotBits(Bits())
    {
      res := new Bitset.Copy(this);
      res.FlipAll();
    }

    /** state | state << s, the next state of longest_zero_sequence, as a new bitset. */
    method OrShiftedUp(s: nat) returns (res: Bitset)
      requires Valid()
      ensures fresh(res) && fresh(res.words) && res.Valid() && res.n == n
      ensures res.Bits() == OrBits(Bits(), ShiftUp(Bits(), s))
    {
      var sh := ShiftedUp(s);
      res := Combined(sh, OrOp);
    }

    /** (*this) | (*this) << 1 with bit 0 set: the state of width 1. */
    method FirstState() returns (state: Bitset)
      requires Valid()
      ensures fresh(state) && fresh(state.words) && state.Valid() && state.n == n
      ensures state.Bits() == Window(Bits(), 1)
    {
      state := OrShiftedUp(1);
      state.Set(0);
      WindowStart(Bits());
    }

    /**
     * state | state << (u - s), the state of width u built from the state of
     * width s, and state.all(): whether no run of u + 1 zero bits exists.
     */
    method Widen(state: Bitset, s: nat, u: nat) returns (next: Bitset, allSet: bool)
      requires Valid() && state.Valid() && state.n == n && state.Bits() == Window(Bits(), s)
      requires s < u <= s + s
      ensures fresh(next) && fresh(next.words) && next.Valid() && next.n == n
      ensures next.Bits() == Window(Bits(), u)
      ensures allSet == !HasZeroRun(Bits(), u + 1)
    {
      next := state.OrShiftedUp(u - s);
      WindowStep(Bits(), s, u);
      allSet := next.All();
    }

    /** As Widen, with all(start_pos) reporting the first clear bit of the new state. */
    method WidenFrom(state: Bitset, s: nat, u: nat, sp0: nat) returns (next: Bitset, allSet: bool, sp: nat)
      requires Valid() && state.Valid() && state.n == n && state.Bits() == Window(Bits(), s)
      requires s < u <= s + s
      ensures fresh(next) && fresh(next.words) && next.Valid() && next.n == n
      ensures next.Bits() == Window(Bits(), u)
      ensures allSet == !HasZeroRun(Bits(), u + 1)
      ensures allSet ==> sp == sp0
      ensures !allSet ==> FirstClear(Window(Bits(), u), sp)
    {
      next := state.OrShiftedUp(u - s);
      WindowStep(Bits(), s, u);
      allSet, sp := next.AllFirstZero(sp0);
    }

    /**
     * The binary search of longest_zero_sequence(): between steps and
     * 2 * steps, probing the state of width med built from the state of width
     * steps, until hi - lo == 1; hi is then the longest zero run.
     */
    method Narrow(state: Bitset, steps: nat) returns (hi: nat)
      requires Valid() && state.Valid() && state.n == n && state.Bits() == Window(Bits(), steps)
      requires 1 <= steps && HasZeroRun(Bits(), steps + 1) && !HasZeroRun(Bits(), steps + steps + 1)
      ensures IsLongestZeroRun(Bits(), hi)
    {
      ghost var b := Bits();
      var lo := steps;
      hi := steps + steps;
      while hi - lo > 1
        invariant state.Valid() && state.n == n && state.Bits() == Window(b, steps)
        invariant steps <= lo < hi <= steps + steps
        invariant HasZeroRun(b, lo + 1) && !HasZeroRun(b, hi + 1)
        decreases hi - lo
      {
        var med := lo + (hi - lo) / 2;
        var medState, medAll := Widen(state, steps, med);
        if medAll {
          hi := med;
        } else {
          lo := med;
        }
      }
    }

    /**
     * The binary search of longest_zero_sequence(ceiling, start_pos): as
     * Narrow, each failing all(start_pos) recording the first clear bit of
     * the state of width lo.
     */
    method NarrowFrom(state: Bitset, steps: nat, sp0: nat) returns (lo: nat, hi: nat, sp: nat)
      requires Valid() && state.Valid() && state.n == n && state.Bits() == Window(Bits(), steps)
      requires 1 <= steps && HasZeroRun(Bits(), steps + 1) && !HasZeroRun(Bits(), steps + steps + 1)
      requires steps > 1 ==> FirstClear(Window(Bits(), steps), sp0)
      ensures steps <= lo && hi == lo + 1
      ensures HasZeroRun(Bits(), lo + 1) && !HasZeroRun(Bits(), hi + 1)
      ensures lo == 1 ==> sp == sp0
      ensures lo > 1 ==> FirstClear(Window(Bits(), lo), sp)
    {
      ghost var b := Bits();
      lo, hi, sp := steps, steps + steps, sp0;
      while hi - lo > 1
        invariant state.Valid() && state.n == n && state.Bits() == Window(b, steps)
        invariant steps <= lo < hi <= steps + steps
        invariant HasZeroRun(b, lo + 1) && !HasZeroRun(b, hi + 1)
        invariant lo == steps ==> sp == sp0
        invariant lo > steps ==> FirstClear(Window(b, lo), sp)
        decreases hi - lo
      {
        var med := lo + (hi - lo) / 2;
        var medState, medAll;
        medState, medAll, sp := WidenFrom(state, steps, med, sp);
        if medAll {
          hi := med;
        } else {
          lo := med;
        }
      }
    }

    /**
     * The doubling loop of longest_zero_sequence(ceiling, start_pos): from the
     * state of width 1, doubling the width while a run longer than it exists;
     * `early` when such a run exists and the width has reached the ceiling.
     */
    method DoublingFrom(state0: Bitset, sp0: nat, ceiling: nat) returns (state: Bitset, steps: nat, sp: nat, early: bool)
      requires Valid() && state0.Valid() && state0.n == n && state0.Bits() == Window(Bits(), 1)
      requires HasZeroRun(Bits(), 2)
      ensures state.Valid() && state.n == n && state.Bits() == Window(Bits(), steps)
      ensures 1 <= steps && HasZeroRun(Bits(), steps + 1)
      ensures early ==> ceiling <= steps && HasZeroRun(Bits(), steps + steps + 1)
      ensures !early ==> !HasZeroRun(Bits(), steps + steps + 1)
      ensures steps == 1 ==> sp == sp0
      ensures steps > 1 ==> FirstClear(Window(Bits(), steps), sp)
    {
      ghost var b := Bits();
      state, steps, sp := state0, 1, sp0;
      while true
        invariant state.Valid() && state.n == n && state.Bits() == Window(b, steps)
        invariant 1 <= steps && HasZeroRun(b, steps + 1)
        invariant steps == 1 ==> sp == sp0
        invariant steps > 1 ==> FirstClear(Window(b, steps), sp)
        decreases n - steps
      {
        var newState, newAll, newSp := WidenFrom(state, steps, steps + steps, sp);
        if newAll {
          return state, steps, sp, false;
        }
        if steps >= ceiling {
          return state, steps, sp, true;
        }
        state, steps, sp := newState, steps + steps, newSp;
      }
    }

    /**
     * longest_zero_sequence(): Forisek's doubling and binary search over the
     * state bitsets; the result is the length of the longest zero run.
     */
    method LongestZeroSequence() returns (r: nat)
      requires Valid()
      ensures IsLongestZeroRun(Bits(), r)
    {
      ghost var b := Bits();
      var none := None();
      if none {
        NoneSetLongest(b);
        return n;
      }
      var all := All();
      if all {
        AllSetLongest(b);
        return 0;
      }
      SomeZeroRun(b);
      var state := FirstState();
      var stateAll := state.All();
      WindowAllSet(b, 1);
      if stateAll {
        return 1;
      }
      var steps := 1;
      while true
        invariant fresh(state.words) && state.Valid() && state.n == n
        invariant 1 <= steps && state.Bits() == Window(b, steps) && HasZeroRun(b, steps + 1)
        decreases n - steps
      {
        var newState, newAll := Widen(state, steps, steps + steps);
        if newAll {
          break;
        }
        state := newState;
        steps := steps + steps;
      }
      r := Narrow(state, steps);
    }

    /**
     * longest_zero_sequence(ceiling, start_pos): as longest_zero_sequence(),
     * stopping at `ceiling`, and reporting in start_pos where the run starts;
     * CappedOutcome states what each case returns.
     */
    method LongestZeroSequenceCapped(ceiling: nat, startPos: nat) returns (r: nat, sp: nat)
      requires Valid() && startPos < SIZE_RANGE
      ensures NoneSet(Bits()) ==> r == n && sp == startPos
      ensures !NoneSet(Bits()) ==> CappedOutcome(Bits(), ceiling, startPos, r, sp)
    {
      ghost var b := Bits();
      sp := startPos;
      var none := None();
      if none {
        return n, sp;
      }
      var all := All();
      if all {
        AllSetLongest(b);
        CappedShort(b, ceiling, startPos, 0);
        return 0, sp;
      }
      SomeZeroRun(b);
      var state := FirstState();
      var stateAll := state.All();
      WindowAllSet(b, 1);
      if stateAll {
        CappedShort(b, ceiling, startPos, 1);
        return 1, sp;
      }
      var steps, early;
      state, steps, sp, early := DoublingFrom(state, sp, ceiling);
      if early {
        CappedEarly(b, ceiling, startPos, steps + steps + 1);
        return ceiling, NPOS;
      }
      var lo, hi;
      lo, hi, sp := NarrowFrom(state, steps, sp);
      CappedEnd(b, ceiling, startPos, lo, hi, sp);
      if hi >= ceiling {
        return ceiling, NPOS;
      }
      if sp != NPOS {
        sp := SizeSub(sp, hi - 1);
      }
      r := hi;
    }

    /**
     * _find_next_n(num_zeros, start_pos, end_pos): the first run of num
     * zero bits starting at or after start and ending by end (clamped to N),
     * or npos. The scan steps over a word whose bit 0 is set when the word is
     * all ones, or has fewer than num clear bits (then up to its highest set bit).
     */
    method FindNextNIn(num: nat, start: nat, end: nat) returns (r: nat)
      requires Valid() && num <= n && start <= end
      requires end < start + num || start + num <= n
      ensures r == NPOS <==> NoZeroRunIn(Bits(), start, Min(end, n), num)
      ensures r != NPOS ==> FirstZeroRunFrom(Bits(), start, r, num) && r + num <= Min(end, n)
    {
      ghost var b := Bits();
      if end < start + num {
        return NPOS;
      }
      var none := NoneRange(start, start + num);
      if none {
        assert ZeroRunAt(b, start, num) && start + num <= Min(end, n);
        return start;
      }
      var e := if end > n then n else end;
      r := ScanForZeroRun(num, start, e);
    }

    /** The scan loop of _find_next_n over [start, e), for num >= 1. */
    method ScanForZeroRun(num: nat, start: nat, e: nat) returns (r: nat)
      requires Valid() && 1 <= num && start <= e <= n
      ensures r == NPOS <==> NoZeroRunIn(Bits(), start, e, num)
      ensures r != NPOS ==> FirstZeroRunFrom(Bits(), start, r, num) && r + num <= e
    {
      ghost var b := Bits();
      var lg := 0;
      var cur := start;
      while cur < e
        invariant start <= cur <= e
        invariant ScanState(b, start, cur, lg, num)
        decreases e - cur
      {
        var t := Test(cur);
        if !t {
          if lg + 1 == num {
            FoundZeroRun(b, start, cur, lg, num);
            return cur - lg;
          }
          ScanZeroStep(b, start, cur, lg, num);
          lg := lg + 1;
        } else {
          cur := SkipSetBit(cur, start, num);
          if cur >= e {
            return NPOS;
          }
          ScanSetStep(b, start, cur, num);
          lg := 0;
        }
        cur := cur + 1;
      }
      return NPOS;
    }

    /**
     * The set-bit step of _find_next_n at a set bit cur: at the start of a
     * word that is all ones, the scan moves to the word's last bit; at the
     * start of a word with fewer than num clear bits, to its highest set bit;
     * otherwise it stays at cur. No run of num zero bits from start ends
     * before the new position, which holds a set bit.
     */
    method SkipSetBit(cur: nat, start: nat, num: nat) returns (next: nat)
      requires Valid() && cur < n && Bits()[cur] && 1 <= num
      requires NoZeroRunIn(Bits(), start, cur, num)
      ensures cur <= next < n && Bits()[next]
      ensures NoZeroRunIn(Bits(), start, next + 1, num)
    {
      ghost var ws := words[..];
      next := cur;
      if cur % W == 0 {
        var q := cur / W;
        assert cur == q * W;
        var x := words[q];
        if x == Ones() {
          SkipOnesWord(ws, q, start, num);
          next := cur + W - 1;
          return;
        } else if W - Popcount(x) < num {
          FlattenAt(ws, q, 0);
          var h := W - Clz(x) - 1;
          SkipSparseWord(ws, q, start, num, h);
          next := cur + h;
          return;
        }
      }
      NoRunThroughSet(Bits(), start, cur, cur + 1, num);
    }

    /**
     * find_next_n(num_zeros, start_pos): the first run of num zero bits at or
     * after start; when there is none, the first run of the whole bitset
     * (the search wraps around to [0, start + num)); npos when num is 0,
     * start is past N, or no run exists.
     */
    method FindNextN(num: nat, start: nat) returns (r: nat)
      requires Valid() && num <= n
      ensures r == NPOS <==> num == 0 || start > n || !HasZeroRun(Bits(), num)
      ensures r != NPOS && !NoZeroRunIn(Bits(), start, n, num) ==> FirstZeroRunFrom(Bits(), start, r, num)
      ensures r != NPOS && NoZeroRunIn(Bits(), start, n, num) ==> FirstZeroRunFrom(Bits(), 0, r, num)
    {
      ghost var b := Bits();
      NoZeroRunAll(b, num);
      if start > n || num == 0 {
        return NPOS;
      }
      r := FindNextNIn(num, start, n);
      if r == NPOS && start != 0 {
        r := FindNextNIn(num, 0, start + num);
        if r == NPOS {
          forall s: nat | s + num <= n ensures !ZeroRunAt(b, s, num) {
            if s < start {
              assert s + num <= Min(start + num, n);
            }
          }
        }
      }
    }

    /** find_first_n(num_zeros): the first run of num zero bits, or npos (also for num = 0). */
    method FindFirstN(num: nat) returns (r: nat)
      requires Valid() && num <= n
      ensures r == NPOS <==> num == 0 || !HasZeroRun(Bits(), num)
      ensures r != NPOS ==> FirstZeroRun(Bits(), r, num)
    {
      NoZeroRunAll(Bits(), num);
      if num == 0 {
        return NPOS;
      }
      r := FindNextNIn(num, 0, n);
    }

    /**
     * zero_sequence_size_around(start, end, start_pos): extends [start, end)
     * over the clear bits to its left and right; returns the length lg of the
     * extended range and its start sp. When [start, end) is clear, that is the
     * maximal zero run around it.
     */
    method ZeroSequenceSizeAround(start: nat, end: nat) returns (lg: nat, sp: nat)
      requires Valid() && start <= end <= n
      ensures sp <= start && NoneIn(Bits(), sp, start) && (sp == 0 || Bits()[sp - 1])
      ensures end <= sp + lg <= n && NoneIn(Bits(), end, sp + lg) && (sp + lg == n || Bits()[sp + lg])
      ensures NoneIn(Bits(), start, end) ==> MaximalZeroRun(Bits(), sp, lg)
    {
      ghost var b := Bits();
      lg := end - start;
      var cur: nat := start;
      while cur > 0
        invariant cur <= start && lg == end - cur && NoneIn(b, cur, start)
      {
        cur := cur - 1;
        var t := Test(cur);
        if t {
          break;
        }
        lg := lg + 1;
      }
      sp := end - lg;
      cur := end;
      while cur < n
        invariant end <= cur <= n && sp + lg == cur && NoneIn(b, end, cur)
      {
        var t := Test(cur);
        cur := cur + 1;
        if t {
          break;
        }
        lg := lg + 1;
      }
    }

    /** has_zero_word(): some word other than word 0 is all zero (word 0 is not examined). */
    method HasZeroWord() returns (r: bool)
      requires Valid()
      ensures r <==> exists q :: 1 <= q < words.Length && words[q] == Zero()
      ensures r ==> HasZeroRun(Bits(), W)
    {
      var i := words.Length - 1;
      while i > 0
        invariant 0 <= i < words.Length
        invariant forall q :: i < q < words.Length ==> words[q] != Zero()
      {
        if words[i] == Zero() {
          ZeroWordRun(words[..], i);
          return true;
        }
        i := i - 1;
      }
      return false;
    }

    // ---------------------------------------------------------------
    // The bit-at-a-time reference versions (SPP_TEST)
    // ---------------------------------------------------------------

    /** set_naive(from, to): set(cur) for each cur in [from, to). */
    method SetNaive(from: nat, to: nat)
      requires Valid() && from <= to <= n
      modifies words
      ensures Bits() == BitSpec.SetRange(old(Bits()), from, to)
    {
      ghost var b := Bits();
      if from == to {
        assert BitSpec.SetRange(b, from, to) == b;
        return;
      }
      SetRangeStep(b, from, from);
      var cur := from;
      while cur < to
        invariant from <= cur <= to
        invariant Valid() && Bits() == BitSpec.SetRange(b, from, cur)
      {
        Set(cur);
        SetRangeStep(b, from, cur);
        cur := cur + 1;
      }
    }

    /** reset_naive(from, to): reset(cur) for each cur in [from, to). */
    method ResetNaive(from: nat, to: nat)
      requires Valid() && from <= to <= n
      modifies words
      ensures Bits() == BitSpec.ResetRange(old(Bits()), from, to)
    {
      ghost var b := Bits();
      if from == to {
        assert BitSpec.ResetRange(b, from, to) == b;
        return;
      }
      ResetRangeStep(b, from, from);
      var cur := from;
      while cur < to
        invariant from <= cur <= to
        invariant Valid() && Bits() == BitSpec.ResetRange(b, from, cur)
      {
        Reset(cur);
        ResetRangeStep(b, from, cur);
        cur := cur + 1;
      }
    }

    /** all_naive(from, to) */
    method AllNaive(from: nat, to: nat) returns (r: bool)
      requires Valid() && from <= to <= n
      ensures r == AllIn(Bits(), from, to)
    {
      var cur := from;
      while cur < to
        invariant from <= cur <= to && AllIn(Bits(), from, cur)
      {
        var t := Test(cur);
        if !t {
          return false;
        }
        cur := cur + 1;
      }
      return true;
    }

    /** all_naive(start_idx): as all(start_pos), a bit at a time. */
    method AllNaiveFirstZero(startIdx: nat) returns (r: bool, idx: nat)
      requires Valid()
      ensures r == AllSet(Bits())
      ensures r ==> idx == startIdx
      ensures !r ==> FirstClear(Bits(), idx)
    {
      var cur := 0;
      while cur < n
        invariant cur <= n && AllIn(Bits(), 0, cur)
      {
        var t := Test(cur);
        if !t {
          return false, cur;
        }
        cur := cur + 1;
      }
      return true, startIdx;
    }

    /** any_naive(from, to) */
    method AnyNaive(from: nat, to: nat) returns (r: bool)
      requires Valid() && from <= to <= n
      ensures r == AnyIn(Bits(), from, to)
    {
      var cur := from;
      while cur < to
        invariant from <= cur <= to && NoneIn(Bits(), from, cur)
      {
        var t := Test(cur);
        if t {
          return true;
        }
        cur := cur + 1;
      }
      return false;
    }

    /** longest_zero_sequence_naive(): the longest zero run, counting the current run bit by bit. */
    method LongestZeroSequenceNaive() returns (longest: nat)
      requires Valid()
      ensures IsLongestZeroRun(Bits(), longest)
    {
      ghost var b := Bits();
      longest := 0;
      var lg := 0;
      var cur := 0;
      assert ZeroRunAt(b, 0, 0);
      while cur < n
        invariant cur <= n && LongestScan(b, cur, lg, longest)
      {
        var t := Test(cur);
        if !t {
          LongestScanZero(b, cur, lg, longest);
          lg := lg + 1;
          if lg > longest {
            longest := lg;
          }
        } else {
          LongestScanSet(b, cur, lg, longest);
          lg := 0;
        }
        cur := cur + 1;
      }
      LongestScanEnd(b, lg, longest);
    }

    /**
     * longest_zero_sequence_naive(ceiling, start_pos): the ceiling and npos
     * as soon as the longest run so far reaches the ceiling; otherwise the
     * longest run L and, in start_pos, the start of the first run of length L
     * (end_pos - (L - 1) on size_t, which is 1 when no bit is clear).
     */
    method LongestZeroSequenceNaiveCapped(ceiling: nat) returns (r: nat, sp: nat)
      requires Valid()
      ensures LongestZeroRun(Bits()) == 0 ==> r == 0 && sp == 1
      ensures 1 <= LongestZeroRun(Bits()) && ceiling <= LongestZeroRun(Bits()) ==> r == ceiling && sp == NPOS
      ensures 1 <= LongestZeroRun(Bits()) < ceiling ==> r == LongestZeroRun(Bits()) && FirstZeroRun(Bits(), sp, r)
    {
      ghost var b := Bits();
      var longest := 0;
      var lg := 0;
      var endPos := 0;
      var cur := 0;
      assert ZeroRunAt(b, 0, 0);
      while cur < n
        invariant cur <= n && LongestScan(b, cur, lg, longest)
        invariant longest == 0 ==> endPos == 0
        invariant longest > 0 ==> longest < ceiling && longest <= endPos + 1 <= cur
        invariant longest > 0 ==> FirstZeroRun(b, endPos + 1 - longest, longest)
      {
        var t := Test(cur);
        if !t {
          LongestScanZero(b, cur, lg, longest);
          lg := lg + 1;
          if lg > longest {
            longest := lg;
            endPos := cur;
            if longest >= ceiling {
              LongestAtLeast(b, longest);
              return ceiling, NPOS;
            }
          }
        } else {
          LongestScanSet(b, cur, lg, longest);
          lg := 0;
        }
        cur := cur + 1;
      }
      LongestScanEnd(b, lg, longest);
      sp := SizeSub(endPos, SizeSub(longest, 1));
      r := longest;
    }
  }

  /** The bits flip(pos) as written produces: pos's word inverted except bit pos. */
  function FlipOthersInWord(b: seq<bool>, pos: nat): (r: seq<bool>)
    ensures |r| == |b|
  {
    seq(|b|, i requires 0 <= i < |b| => if i / W == pos / W && i != pos then !b[i] else b[i])
  }

  /**
   * flip(pos) as written leaves bit pos as it was, so it never produces the
   * bitset with bit pos inverted; when pos's word has another bit q, it
   * inverts q as well.
   */
  lemma FlipAsWrittenMissesBit(b: seq<bool>, pos: nat, q: nat)
    requires pos < |b| && q < |b| && q != pos && q / W == pos / W
    ensures FlipOthersInWord(b, pos)[pos] == b[pos]
    ensures FlipOthersInWord(b, pos)[q] != b[q]
    ensures FlipOthersInWord(b, pos) != b[pos := !b[pos]]
  {
    assert FlipOthersInWord(b, pos)[pos] != b[pos := !b[pos]][pos];
  }

  /** The three word-wise operators &=, |= and ^=. */
  datatype BitOp = AndOp | OrOp | XorOp

  function CombineWord(a: Word, b: Word, op: BitOp): Word
  {
    match op
    case AndOp => And(a, b)
    case OrOp => Or(a, b)
    case XorOp => Xor(a, b)
  }

  function Combine(a: seq<bool>, b: seq<bool>, op: BitOp): (r: seq<bool>)
    requires |a| == |b|
    ensures |r| == |a|
  {
    match op
    case AndOp => AndBits(a, b)
    case OrOp => OrBits(a, b)
    case XorOp => XorBits(a, b)
  }

  /** The bits of word k that lie in [from, to): the mask the range members apply to word k. */
  function RangeWord(k: nat, from: nat, to: nat): Word
  {
    seq(W, j requires 0 <= j < W => from <= k * W + j < to)
  }

  /** The first, partial word of a range: ~(_mask(from) - 1). */
  lemma RangeHead(k: nat, from: nat, to: nat)
    requires from % W != 0 && k == from / W && k * W + W <= to
    ensures RangeWord(k, from, to) == Not(BelowMask(from))
  {
    forall j | 0 <= j < W ensures RangeWord(k, from, to)[j] == Not(BelowMask(from))[j] {
      assert from == k * W + from % W;
    }
  }

  /** A word wholly inside the range: size_t(-1). */
  lemma RangeFull(k: nat, from: nat, to: nat)
    requires from <= k * W && k * W + W <= to
    ensures RangeWord(k, from, to) == Ones()
  {
    assert forall j :: 0 <= j < W ==> RangeWord(k, from, to)[j] == Ones()[j];
  }

  /** The last, partial word of a range: _mask(to) - 1. */
  lemma RangeTail(k: nat, from: nat, to: nat)
    requires from <= k * W && k == to / W
    ensures RangeWord(k, from, to) == BelowMask(to)
  {
    forall j | 0 <= j < W ensures RangeWord(k, from, to)[j] == BelowMask(to)[j] {
      assert to == k * W + to % W;
    }
  }

  /** A range within one word: (_mask(from) - 1) ^ (_mask(to) - 1). */
  lemma RangeSingle(k: nat, from: nat, to: nat)
    requires from <= to && k == from / W && k == to / W
    ensures RangeWord(k, from, to) == Xor(BelowMask(from), BelowMask(to))
  {
    forall j | 0 <= j < W ensures RangeWord(k, from, to)[j] == Xor(BelowMask(from), BelowMask(to))[j] {
      assert from == k * W + from % W && to == k * W + to % W;
    }
  }

  /** A word outside the range: no bit. */
  lemma RangeOutside(k: nat, from: nat, to: nat)
    requires k * W + W <= from || to <= k * W
    ensures RangeWord(k, from, to) == Zero()
  {
    assert forall j :: 0 <= j < W ==> RangeWord(k, from, to)[j] == Zero()[j];
  }

  /**
   * The mask of word k for the range [from, to), in the cases the range
   * members distinguish: first = _num_words(from), last = _idx(to).
   */
  lemma RangeWordCases(k: nat, from: nat, to: nat, first: nat, last: nat)
    requires from <= to && first == NumWords(from) && last == to / W
    ensures first <= last && (k + 1 < first || (k + 1 == first && from % W == 0) || last < k || (k == last && to % W == 0))
      ==> RangeWord(k, from, to) == Zero()
    ensures first <= last && k + 1 == first && from % W != 0 ==> RangeWord(k, from, to) == Not(BelowMask(from))
    ensures first <= k < last ==> RangeWord(k, from, to) == Ones()
    ensures first <= last && k == last && to % W != 0 ==> RangeWord(k, from, to) == BelowMask(to)
    ensures last < first && k == last ==> RangeWord(k, from, to) == Xor(BelowMask(from), BelowMask(to))
    ensures last < first && k != last ==> RangeWord(k, from, to) == Zero()
  {
    if first <= last {
      if k + 1 < first || (k + 1 == first && from % W == 0) {
        assert k * W + W <= from;
        RangeOutside(k, from, to);
      } else if last < k || (k == last && to % W == 0) {
        assert to <= k * W;
        RangeOutside(k, from, to);
      } else if k + 1 == first {
        RangeHead(k, from, to);
      } else if k < last {
        assert first * W <= k * W && k * W + W <= last * W;
        RangeFull(k, from, to);
      } else {
        assert first * W <= k * W;
        RangeTail(k, from, to);
      }
    } else {
      assert from / W == last;
      if k == last {
        RangeSingle(k, from, to);
      } else if k < last {
        assert k * W + W <= from;
        RangeOutside(k, from, to);
      } else {
        assert to <= k * W;
        RangeOutside(k, from, to);
      }
    }
  }

  /** Words each ORed with their range mask flatten to the bits with [from, to) set. */
  lemma SetWords(before: seq<Word>, after: seq<Word>, from: nat, to: nat)
    requires |after| == |before|
    requires forall k :: 0 <= k < |before| ==> after[k] == Or(before[k], RangeWord(k, from, to))
    ensures Flatten(after) == SetRange(Flatten(before), from, to)
  {
    forall k, j | 0 <= k < |after| && 0 <= j < W
      ensures after[k][j] == SetRange(Flatten(before), from, to)[k * W + j]
    {
      FlattenAt(before, k, j);
    }
    FlattenExt(after, SetRange(Flatten(before), from, to));
  }

  /** Words each ANDed with their inverted range mask flatten to the bits with [from, to) clear. */
  lemma ResetWords(before: seq<Word>, after: seq<Word>, from: nat, to: nat)
    requires |after| == |before|
    requires forall k :: 0 <= k < |before| ==> after[k] == And(before[k], Not(RangeWord(k, from, to)))
    ensures Flatten(after) == ResetRange(Flatten(before), from, to)
  {
    forall k, j | 0 <= k < |after| && 0 <= j < W
      ensures after[k][j] == ResetRange(Flatten(before), from, to)[k * W + j]
    {
      FlattenAt(before, k, j);
    }
    FlattenExt(after, ResetRange(Flatten(before), from, to));
  }

  /** Every bit of [from, to) is set exactly when each word covers its range mask. */
  lemma AllInWords(ws: seq<Word>, from: nat, to: nat)
    requires from <= to <= |ws| * W
    ensures AllIn(Flatten(ws), from, to) <==>
      forall k :: 0 <= k < |ws| ==> And(ws[k], RangeWord(k, from, to)) == RangeWord(k, from, to)
  {
    if AllIn(Flatten(ws), from, to) {
      forall k | 0 <= k < |ws| ensures And(ws[k], RangeWord(k, from, to)) == RangeWord(k, from, to) {
        forall j | 0 <= j < W && RangeWord(k, from, to)[j] ensures ws[k][j] {
          FlattenAt(ws, k, j);
        }
        AndCovers(ws[k], RangeWord(k, from, to));
      }
    } else {
      var p :| from <= p < to && !Flatten(ws)[p];
      var k, j := p / W, p % W;
      FlattenAt(ws, k, j);
      assert RangeWord(k, from, to)[j] && !ws[k][j];
      assert And(ws[k], RangeWord(k, from, to))[j] != RangeWord(k, from, to)[j];
    }
  }

  /** Some bit of [from, to) is set exactly when some word meets its range mask. */
  lemma AnyInWords(ws: seq<Word>, from: nat, to: nat)
    requires from <= to <= |ws| * W
    ensures AnyIn(Flatten(ws), from, to) <==>
      exists k :: 0 <= k < |ws| && And(ws[k], RangeWord(k, from, to)) != Zero()
  {
    if AnyIn(Flatten(ws), from, to) {
      var p :| from <= p < to && Flatten(ws)[p];
      var k, j := p / W, p % W;
      FlattenAt(ws, k, j);
      assert And(ws[k], RangeWord(k, from, to))[j] != Zero()[j];
    } else {
      forall k | 0 <= k < |ws| ensures And(ws[k], RangeWord(k, from, to)) == Zero() {
        forall j | 0 <= j < W ensures And(ws[k], RangeWord(k, from, to))[j] == Zero()[j] {
          FlattenAt(ws, k, j);
        }
      }
    }
  }

  /** Word q after operator<<= shifts by div words and r bits. */
  function WordShiftedUp(ws: seq<Word>, div: nat, r: nat, q: nat): Word
    requires r < W && q < |ws|
  {
    if q < div then Zero()
    else if r == 0 then ws[q - div]
    else if q == div then Shl(ws[0], r)
    else Or(Shl(ws[q - div], r), Shr(ws[q - div - 1], W - r))
  }

  /** Word q after operator>>= shifts by div words and r bits. */
  function WordShiftedDown(ws: seq<Word>, div: nat, r: nat, q: nat): Word
    requires r < W && q < |ws|
  {
    if q + div >= |ws| then Zero()
    else if r == 0 then ws[q + div]
    else if q + div == |ws| - 1 then Shr(ws[|ws| - 1], r)
    else Or(Shr(ws[q + div], r), Shl(ws[q + div + 1], W - r))
  }

  function WordsShiftedUp(ws: seq<Word>, div: nat, r: nat): (res: seq<Word>)
    requires r < W
    ensures |res| == |ws|
  {
    seq(|ws|, q requires 0 <= q < |ws| => WordShiftedUp(ws, div, r, q))
  }

  function WordsShiftedDown(ws: seq<Word>, div: nat, r: nat): (res: seq<Word>)
    requires r < W
    ensures |res| == |ws|
  {
    seq(|ws|, q requires 0 <= q < |ws| => WordShiftedDown(ws, div, r, q))
  }

  /** Positions within words: q*64+j lies before k = div*64+r exactly when (q, j) precedes (div, r). */
  lemma WordPosBefore(q: nat, j: nat, div: nat, r: nat)
    requires j < W && r < W
    ensures q * W + j < div * W + r <==> q < div || (q == div && j < r)
  {
    if q < div {
      assert q * W + W <= div * W;
    } else if q > div {
      assert div * W + W <= q * W;
    }
  }

  /** q*64+j - (div*64+r) split into a word index and a bit index. */
  lemma WordPosSub(q: nat, j: nat, div: nat, r: nat)
    requires j < W && r < W && (div < q || (div == q && r <= j))
    ensures j >= r ==> q >= div && q * W + j - (div * W + r) == (q - div) * W + (j - r)
    ensures j < r ==> q > div && q * W + j - (div * W + r) == (q - div - 1) * W + (j + W - r)
  {
  }

  /** q*64+j + (div*64+r) split into a word index and a bit index. */
  lemma WordPosAdd(q: nat, j: nat, div: nat, r: nat)
    requires j < W && r < W
    ensures j + r < W ==> q * W + j + (div * W + r) == (q + div) * W + (j + r)
    ensures j + r >= W ==> q * W + j + (div * W + r) == (q + div + 1) * W + (j + r - W)
  {
  }

  /** A bit of the shifted bits taken from word a, bit c, of the original words. */
  lemma ShiftUpTakes(ws: seq<Word>, k: nat, q: nat, j: nat, a: nat, c: nat)
    requires q < |ws| && j < W && a < |ws| && c < W
    requires k <= q * W + j && q * W + j - k == a * W + c
    ensures q * W + j < |ws| * W
    ensures ShiftUp(Flatten(ws), k)[q * W + j] == ws[a][c]
  {
    FlattenAt(ws, q, j);
    FlattenAt(ws, a, c);
  }

  /** A bit of the shifted bits that no original bit reaches. */
  lemma ShiftUpZero(ws: seq<Word>, k: nat, q: nat, j: nat)
    requires q < |ws| && j < W && q * W + j < k
    ensures q * W + j < |ws| * W
    ensures !ShiftUp(Flatten(ws), k)[q * W + j]
  {
    FlattenAt(ws, q, j);
  }

  /** The bit of the original words that bit j of word q receives in the left shift. */
  lemma WordShiftedUpBit(ws: seq<Word>, div: nat, r: nat, q: nat, j: nat)
    requires r < W && q < |ws| && j < W
    ensures q < div || (q == div && j < r) ==> !WordShiftedUp(ws, div, r, q)[j]
    ensures q >= div && j >= r ==> WordShiftedUp(ws, div, r, q)[j] == ws[q - div][j - r]
    ensures q > div && j < r ==> WordShiftedUp(ws, div, r, q)[j] == ws[q - div - 1][j + W - r]
  {
    var w := WordShiftedUp(ws, div, r, q);
    if q < div {
      assert w == Zero();
    } else if r == 0 {
      assert w == ws[q - div];
    } else if q == div {
      assert w == Shl(ws[0], r);
    } else {
      var a, c := Shl(ws[q - div], r), Shr(ws[q - div - 1], W - r);
      assert w == Or(a, c);
      assert w[j] == (a[j] || c[j]);
    }
  }

  /** The bits of the left shift that no original bit reaches. */
  lemma ShiftUpBelow(ws: seq<Word>, div: nat, r: nat, q: nat, j: nat)
    requires r < W && q < |ws| && j < W && (q < div || (q == div && j < r))
    ensures q * W + j < |ws| * W && !ShiftUp(Flatten(ws), div * W + r)[q * W + j]
  {
    WordPosBefore(q, j, div, r);
    ShiftUpZero(ws, div * W + r, q, j);
  }

  /** The bits of the left shift that come from the same bit position r lower in word q - div. */
  lemma ShiftUpSameWord(ws: seq<Word>, div: nat, r: nat, q: nat, j: nat)
    requires r < W && q < |ws| && j < W && q >= div && j >= r
    ensures q * W + j < |ws| * W && ShiftUp(Flatten(ws), div * W + r)[q * W + j] == ws[q - div][j - r]
  {
    WordPosSub(q, j, div, r);
    ShiftUpTakes(ws, div * W + r, q, j, q - div, j - r);
  }

  /** The bits of the left shift that come from the top of word q - div - 1. */
  lemma ShiftUpCrossWord(ws: seq<Word>, div: nat, r: nat, q: nat, j: nat)
    requires r < W && q < |ws| && j < W && q > div && j < r
    ensures q * W + j < |ws| * W && ShiftUp(Flatten(ws), div * W + r)[q * W + j] == ws[q - div - 1][j + W - r]
  {
    WordPosSub(q, j, div, r);
    ShiftUpTakes(ws, div * W + r, q, j, q - div - 1, j + W - r);
  }

  /** Bit j of word q after the word-level left shift is bit q*64+j of the shifted bits. */
  lemma ShiftedUpBit(ws: seq<Word>, div: nat, r: nat, q: nat, j: nat)
    requires r < W && q < |ws| && j < W
    ensures q * W + j < |ws| * W
    ensures WordShiftedUp(ws, div, r, q)[j] == ShiftUp(Flatten(ws), div * W + r)[q * W + j]
  {
    WordShiftedUpBit(ws, div, r, q, j);
    if q < div || (q == div && j < r) {
      ShiftUpBelow(ws, div, r, q, j);
    } else if j >= r {
      ShiftUpSameWord(ws, div, r, q, j);
    } else {
      ShiftUpCrossWord(ws, div, r, q, j);
    }
  }

  /** A bit of the right-shifted bits taken from word a, bit c, of the original words. */
  lemma ShiftDownTakes(ws: seq<Word>, k: nat, q: nat, j: nat, a: nat, c: nat)
    requires q < |ws| && j < W && a < |ws| && c < W
    requires q * W + j + k == a * W + c
    ensures q * W + j < |ws| * W
    ensures ShiftDown(Flatten(ws), k)[q * W + j] == ws[a][c]
  {
    FlattenAt(ws, q, j);
    FlattenAt(ws, a, c);
  }

  /** A bit of the right-shifted bits that no original bit reaches. */
  lemma ShiftDownZero(ws: seq<Word>, k: nat, q: nat, j: nat)
    requires q < |ws| && j < W && q * W + j + k >= |ws| * W
    ensures q * W + j < |ws| * W
    ensures !ShiftDown(Flatten(ws), k)[q * W + j]
  {
    FlattenAt(ws, q, j);
  }

  /** The bit of the original words that bit j of word q receives in the right shift. */
  lemma WordShiftedDownBit(ws: seq<Word>, div: nat, r: nat, q: nat, j: nat)
    requires r < W && q < |ws| && j < W
    ensures j + r < W && q + div < |ws| ==> WordShiftedDown(ws, div, r, q)[j] == ws[q + div][j + r]
    ensures j + r < W && q + div >= |ws| ==> !WordShiftedDown(ws, div, r, q)[j]
    ensures j + r >= W && q + div + 1 < |ws| ==> WordShiftedDown(ws, div, r, q)[j] == ws[q + div + 1][j + r - W]
    ensures j + r >= W && q + div + 1 >= |ws| ==> !WordShiftedDown(ws, div, r, q)[j]
  {
    var w := WordShiftedDown(ws, div, r, q);
    if q + div >= |ws| {
      assert w == Zero();
    } else if r == 0 {
      assert w == ws[q + div];
    } else if q + div == |ws| - 1 {
      assert w == Shr(ws[|ws| - 1], r);
    } else {
      var a, c := Shr(ws[q + div], r), Shl(ws[q + div + 1], W - r);
      assert w == Or(a, c);
      assert w[j] == (a[j] || c[j]);
    }
  }

  /** The bits of the right shift that come from word q + div. */
  lemma ShiftDownSameWord(ws: seq<Word>, div: nat, r: nat, q: nat, j: nat)
    requires r < W && q + div < |ws| && j + r < W
    ensures q * W + j < |ws| * W && ShiftDown(Flatten(ws), div * W + r)[q * W + j] == ws[q + div][j + r]
  {
    WordPosAdd(q, j, div, r);
    ShiftDownTakes(ws, div * W + r, q, j, q + div, j + r);
  }

  /** The bits of the right shift that come from the bottom of word q + div + 1. */
  lemma ShiftDownCrossWord(ws: seq<Word>, div: nat, r: nat, q: nat, j: nat)
    requires r < W && q + div + 1 < |ws| && j < W && j + r >= W
    ensures q * W + j < |ws| * W && ShiftDown(Flatten(ws), div * W + r)[q * W + j] == ws[q + div + 1][j + r - W]
  {
    WordPosAdd(q, j, div, r);
    ShiftDownTakes(ws, div * W + r, q, j, q + div + 1, j + r - W);
  }

  /** The bits of the right shift that no original bit reaches. */
  lemma ShiftDownAbove(ws: seq<Word>, div: nat, r: nat, q: nat, j: nat)
    requires r < W && q < |ws| && j < W
    requires (j + r < W && q + div >= |ws|) || (j + r >= W && q + div + 1 >= |ws|)
    ensures q * W + j < |ws| * W && !ShiftDown(Flatten(ws), div * W + r)[q * W + j]
  {
    WordPosAdd(q, j, div, r);
    if j + r < W {
      WordPosBefore(|ws|, 0, q + div, j + r);
    } else {
      WordPosBefore(|ws|, 0, q + div + 1, j + r - W);
    }
    ShiftDownZero(ws, div * W + r, q, j);
  }

  /** Bit j of word q after the word-level right shift is bit q*64+j of the shifted bits. */
  lemma ShiftedDownBit(ws: seq<Word>, div: nat, r: nat, q: nat, j: nat)
    requires r < W && q < |ws| && j < W
    ensures q * W + j < |ws| * W
    ensures WordShiftedDown(ws, div, r, q)[j] == ShiftDown(Flatten(ws), div * W + r)[q * W + j]
  {
    WordShiftedDownBit(ws, div, r, q, j);
    if j + r < W && q + div < |ws| {
      ShiftDownSameWord(ws, div, r, q, j);
    } else if j + r >= W && q + div + 1 < |ws| {
      ShiftDownCrossWord(ws, div, r, q, j);
    } else {
      ShiftDownAbove(ws, div, r, q, j);
    }
  }

  /** Shifting the words by k / 64 words and k % 64 bits shifts the bits by k. */
  lemma ShiftedUpWords(ws: seq<Word>, k: nat)
    ensures Flatten(WordsShiftedUp(ws, k / W, k % W)) == ShiftUp(Flatten(ws), k)
  {
    var div, r := k / W, k % W;
    assert k == div * W + r;
    var after, target := WordsShiftedUp(ws, div, r), ShiftUp(Flatten(ws), k);
    forall q, j | 0 <= q < |ws| && 0 <= j < W
      ensures after[q][j] == target[q * W + j]
    {
      ShiftedUpBit(ws, div, r, q, j);
    }
    FlattenExt(after, target);
  }

  lemma ShiftedDownWords(ws: seq<Word>, k: nat)
    ensures Flatten(WordsShiftedDown(ws, k / W, k % W)) == ShiftDown(Flatten(ws), k)
  {
    var div, r := k / W, k % W;
    assert k == div * W + r;
    var after, target := WordsShiftedDown(ws, div, r), ShiftDown(Flatten(ws), k);
    forall q, j | 0 <= q < |ws| && 0 <= j < W
      ensures after[q][j] == target[q * W + j]
    {
      ShiftedDownBit(ws, div, r, q, j);
    }
    FlattenExt(after, target);
  }

  /** p is the first clear bit of b. */
  predicate FirstClear(b: seq<bool>, p: nat)
  {
    p < |b| && !b[p] && AllIn(b, 0, p)
  }

  /**
   * What longest_zero_sequence(ceiling, start_pos) returns for a bitset with
   * some bit set, L being its longest zero run: L itself below 2, leaving
   * start_pos alone; the ceiling and npos once L reaches the ceiling; L with
   * the start of the first run of that length from 3 up; and for L = 2, which
   * no all(start_pos) call reports, the caller's start_pos less one.
   */
  ghost predicate CappedOutcome(b: seq<bool>, ceiling: nat, startPos: nat, r: nat, sp: nat)
    requires startPos < SIZE_RANGE
  {
    var L := LongestZeroRun(b);
    if L < 2 then r == L && sp == startPos
    else if ceiling <= L then r == ceiling && sp == NPOS
    else if L == 2 then r == 2 && sp == (if startPos == NPOS then NPOS else SizeSub(startPos, 1))
    else r == L && FirstZeroRun(b, sp, L)
  }

  /** No zero run longer than 1: longest_zero_sequence returns it and leaves start_pos alone. */
  lemma CappedShort(b: seq<bool>, ceiling: nat, startPos: nat, L: nat)
    requires startPos < SIZE_RANGE && IsLongestZeroRun(b, L) && L < 2
    ensures CappedOutcome(b, ceiling, startPos, L, startPos)
  {
    LongestZeroRunUnique(b, L, LongestZeroRun(b));
  }

  /** A run longer than the ceiling: longest_zero_sequence gives up with the ceiling and npos. */
  lemma CappedEarly(b: seq<bool>, ceiling: nat, startPos: nat, k: nat)
    requires startPos < SIZE_RANGE && HasZeroRun(b, k) && 2 <= k && ceiling <= k
    ensures CappedOutcome(b, ceiling, startPos, ceiling, NPOS)
  {
    LongestAtLeast(b, k);
  }

  /** The outcome once the binary search has closed in on hi = lo + 1. */
  lemma CappedEnd(b: seq<bool>, ceiling: nat, startPos: nat, lo: nat, hi: nat, sp: nat)
    requires startPos < SIZE_RANGE && |b| < NPOS && 1 <= lo && hi == lo + 1
    requires HasZeroRun(b, lo + 1) && !HasZeroRun(b, hi + 1)
    requires lo == 1 ==> sp == startPos
    requires lo > 1 ==> FirstClear(Window(b, lo), sp)
    ensures sp < SIZE_RANGE
    ensures hi >= ceiling ==> CappedOutcome(b, ceiling, startPos, ceiling, NPOS)
    ensures hi < ceiling ==>
      CappedOutcome(b, ceiling, startPos, hi, if sp == NPOS then NPOS else SizeSub(sp, hi - 1))
  {
    LongestZeroRunUnique(b, hi, LongestZeroRun(b));
    if lo > 1 {
      WindowFirstZero(b, lo, sp);
    }
  }

  function Min(a: nat, b: nat): (r: nat)
    ensures r <= a && r <= b && (r == a || r == b)
  {
    if a <= b then a else b
  }
}
