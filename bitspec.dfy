// Bit-level meaning of spp_bitset: the N bits of a bitset as a sequence of
// booleans, and the reference behaviour its word-level members are proved
// against (the slow SPP_TEST versions: set_naive, reset_naive, all_naive,
// any_naive, longest_zero_sequence_naive), stated declaratively.
module BitSpec {
  import opened Words

  /** The bits of a word array, bit i being bit i % 64 of word i / 64. */
  function Flatten(ws: seq<Word>): (b: seq<bool>)
    ensures |b| == |ws| * W
  {
    seq(|ws| * W, i requires 0 <= i < |ws| * W => ws[i / W][i % W])
  }

  lemma FlattenAt(ws: seq<Word>, k: nat, j: nat)
    requires k < |ws| && j < W
    ensures k * W + j < |ws| * W && Flatten(ws)[k * W + j] == ws[k][j]
  {
    assert (k * W + j) / W == k && (k * W + j) % W == j;
  }

  /** Two word arrays with the same bits, word by word, flatten to `b`. */
  lemma FlattenExt(ws: seq<Word>, b: seq<bool>)
    requires |b| == |ws| * W
    requires forall k, j :: 0 <= k < |ws| && 0 <= j < W ==> ws[k][j] == b[k * W + j]
    ensures Flatten(ws) == b
  {
    forall i | 0 <= i < |b| ensures Flatten(ws)[i] == b[i] {
      var k, j := i / W, i % W;
      assert k * W + j == i;
    }
  }

  /** Bits lo..hi-1 of word k of ws, all set, are bits k*64+lo..k*64+hi-1 of the flattened array. */
  lemma WordRangeAll(ws: seq<Word>, k: nat, lo: nat, hi: nat)
    requires k < |ws| && lo <= hi <= W
    requires forall j :: lo <= j < hi ==> ws[k][j]
    ensures k * W + hi <= |ws| * W
    ensures forall p :: k * W + lo <= p < k * W + hi ==> Flatten(ws)[p]
  {
    forall p | k * W + lo <= p < k * W + hi ensures Flatten(ws)[p] {
      FlattenAt(ws, k, p - k * W);
    }
  }

  /** As WordRangeAll, for clear bits. */
  lemma WordRangeNone(ws: seq<Word>, k: nat, lo: nat, hi: nat)
    requires k < |ws| && lo <= hi <= W
    requires forall j :: lo <= j < hi ==> !ws[k][j]
    ensures k * W + hi <= |ws| * W
    ensures forall p :: k * W + lo <= p < k * W + hi ==> !Flatten(ws)[p]
  {
    forall p | k * W + lo <= p < k * W + hi ensures !Flatten(ws)[p] {
      FlattenAt(ws, k, p - k * W);
    }
  }

  // ---------------------------------------------------------------
  // Range predicates: all_naive, any_naive and none
  // ---------------------------------------------------------------

  predicate AllIn(b: seq<bool>, from: nat, to: nat)
    requires from <= to <= |b|
  {
    forall i :: from <= i < to ==> b[i]
  }

  predicate NoneIn(b: seq<bool>, from: nat, to: nat)
    requires from <= to <= |b|
  {
    forall i :: from <= i < to ==> !b[i]
  }

  predicate AnyIn(b: seq<bool>, from: nat, to: nat)
    requires from <= to <= |b|
  {
    exists i :: from <= i < to && b[i]
  }

  predicate AllSet(b: seq<bool>)
  {
    forall i :: 0 <= i < |b| ==> b[i]
  }

  predicate NoneSet(b: seq<bool>)
  {
    forall i :: 0 <= i < |b| ==> !b[i]
  }

  // ---------------------------------------------------------------
  // Whole-bitset transformations
  // ---------------------------------------------------------------

  /** set_naive: the bits of [from, to) set, the others kept. */
  function SetRange(b: seq<bool>, from: nat, to: nat): (r: seq<bool>)
    ensures |r| == |b|
  {
    seq(|b|, i requires 0 <= i < |b| => (from <= i < to) || b[i])
  }

  /** reset_naive: the bits of [from, to) cleared, the others kept. */
  function ResetRange(b: seq<bool>, from: nat, to: nat): (r: seq<bool>)
    ensures |r| == |b|
  {
    seq(|b|, i requires 0 <= i < |b| => !(from <= i < to) && b[i])
  }

  /** Bit i + k of the result is bit i of b; the k lowest bits are zero. */
  function ShiftUp(b: seq<bool>, k: nat): (r: seq<bool>)
    ensures |r| == |b|
  {
    seq(|b|, i requires 0 <= i < |b| => i >= k && b[i - k])
  }

  /** Bit i of the result is bit i + k of b; the k highest bits are zero. */
  function ShiftDown(b: seq<bool>, k: nat): (r: seq<bool>)
    ensures |r| == |b|
  {
    seq(|b|, i requires 0 <= i < |b| => i + k < |b| && b[i + k])
  }

  function OrBits(a: seq<bool>, b: seq<bool>): (r: seq<bool>)
    requires |a| == |b|
    ensures |r| == |a|
  {
    seq(|a|, i requires 0 <= i < |a| => a[i] || b[i])
  }

  function AndBits(a: seq<bool>, b: seq<bool>): (r: seq<bool>)
    requires |a| == |b|
    ensures |r| == |a|
  {
    seq(|a|, i requires 0 <= i < |a| => a[i] && b[i])
  }

  function XorBits(a: seq<bool>, b: seq<bool>): (r: seq<bool>)
    requires |a| == |b|
    ensures |r| == |a|
  {
    seq(|a|, i requires 0 <= i < |a| => a[i] != b[i])
  }

  function NotBits(a: seq<bool>): (r: seq<bool>)
    ensures |r| == |a|
  {
    seq(|a|, i requires 0 <= i < |a| => !a[i])
  }

  // ---------------------------------------------------------------
  // Zero runs
  // ---------------------------------------------------------------

  /** The `len` bits starting at s exist and are all zero. */
  predicate ZeroRunAt(b: seq<bool>, s: nat, len: nat)
  {
    s + len <= |b| && NoneIn(b, s, s + len)
  }

  ghost predicate HasZeroRun(b: seq<bool>, len: nat)
  {
    exists s: nat :: ZeroRunAt(b, s, len)
  }

  /** L is the length of the longest sequence of consecutive zero bits. */
  ghost predicate IsLongestZeroRun(b: seq<bool>, L: nat)
  {
    HasZeroRun(b, L) && !HasZeroRun(b, L + 1)
  }

  /** The first run of `len` zero bits starts at s. */
  ghost predicate FirstZeroRun(b: seq<bool>, s: nat, len: nat)
  {
    ZeroRunAt(b, s, len) && forall t: nat :: t < s ==> !ZeroRunAt(b, t, len)
  }

  /** A zero run bounded by set bits (or the ends of the bitset) on both sides. */
  predicate MaximalZeroRun(b: seq<bool>, s: nat, len: nat)
  {
    ZeroRunAt(b, s, len) && (s == 0 || b[s - 1]) && (s + len == |b| || b[s + len])
  }

  lemma ShorterZeroRun(b: seq<bool>, k: nat, j: nat)
    requires HasZeroRun(b, k) && j <= k
    ensures HasZeroRun(b, j)
  {
    var s: nat :| ZeroRunAt(b, s, k);
    assert ZeroRunAt(b, s, j);
  }

  /** The longest zero run is unique: the reference and the fast versions agree. */
  lemma {:induction false} LongestZeroRunUnique(b: seq<bool>, L1: nat, L2: nat)
    requires IsLongestZeroRun(b, L1) && IsLongestZeroRun(b, L2)
    ensures L1 == L2
  {
    if L1 < L2 {
      ShorterZeroRun(b, L2, L1 + 1);
    } else if L2 < L1 {
      ShorterZeroRun(b, L1, L2 + 1);
    }
  }

  /** Every bitset has a longest zero run, between 0 and N. */
  lemma LongestZeroRunExists(b: seq<bool>) returns (L: nat)
    ensures IsLongestZeroRun(b, L) && L <= |b|
  {
    assert ZeroRunAt(b, 0, 0);
    L := 0;
    while L < |b| && HasZeroRun(b, L + 1)
      invariant L <= |b| && HasZeroRun(b, L)
      decreases |b| - L
    {
      L := L + 1;
    }
    var longer := L + 1;
    assert forall s: nat :: L == |b| ==> !ZeroRunAt(b, s, longer);
  }

  /** A longest zero run is maximal: a zero on either side would make it longer. */
  lemma LongestIsMaximal(b: seq<bool>, s: nat, L: nat)
    requires IsLongestZeroRun(b, L) && ZeroRunAt(b, s, L)
    ensures MaximalZeroRun(b, s, L)
  {
    if s > 0 && !b[s - 1] {
      assert ZeroRunAt(b, s - 1, L + 1);
    }
    if s + L < |b| && !b[s + L] {
      assert ZeroRunAt(b, s, L + 1);
    }
  }

  /** No bit set: the whole bitset is one zero run. */
  lemma NoneSetLongest(b: seq<bool>)
    requires NoneSet(b)
    ensures IsLongestZeroRun(b, |b|)
  {
    assert ZeroRunAt(b, 0, |b|);
  }

  /** Every bit set: no zero run at all. */
  lemma AllSetLongest(b: seq<bool>)
    requires AllSet(b)
    ensures IsLongestZeroRun(b, 0)
  {
    assert ZeroRunAt(b, 0, 0);
    forall s: nat ensures !ZeroRunAt(b, s, 1) {
      if s < |b| {
        assert b[s];
      }
    }
  }

  lemma HasLongestZeroRun(b: seq<bool>)
    ensures exists L: nat :: IsLongestZeroRun(b, L) && L <= |b|
  {
    var L := LongestZeroRunExists(b);
  }

  /** The length of the longest zero run of b. */
  ghost function LongestZeroRun(b: seq<bool>): (L: nat)
    ensures IsLongestZeroRun(b, L) && L <= |b|
  {
    HasLongestZeroRun(b);
    var L: nat :| IsLongestZeroRun(b, L) && L <= |b|; L
  }

  /** A clear bit is a zero run of length 1. */
  lemma SomeZeroRun(b: seq<bool>)
    requires !AllSet(b)
    ensures HasZeroRun(b, 1)
  {
    var i :| 0 <= i < |b| && !b[i];
    assert ZeroRunAt(b, i, 1);
  }

  /** No run of len zero bits lies inside [from, to). */
  ghost predicate NoZeroRunIn(b: seq<bool>, from: nat, to: nat, len: nat)
  {
    forall s: nat :: from <= s && s + len <= to ==> !ZeroRunAt(b, s, len)
  }

  /** An all-zero word is a run of 64 zero bits. */
  lemma ZeroWordRun(ws: seq<Word>, q: nat)
    requires q < |ws| && ws[q] == Zero()
    ensures q * W + W <= |ws| * W && ZeroRunAt(Flatten(ws), q * W, W)
  {
    WordRangeNone(ws, q, 0, W);
  }

  /** A run of k zero bits makes the longest run at least k. */
  lemma LongestAtLeast(b: seq<bool>, k: nat)
    requires HasZeroRun(b, k)
    ensures k <= LongestZeroRun(b)
  {
    var L := LongestZeroRun(b);
    if L < k {
      ShorterZeroRun(b, k, L + 1);
    }
  }

  /** No run of k zero bits makes the longest run shorter than k. */
  lemma LongestBelow(b: seq<bool>, k: nat)
    requires !HasZeroRun(b, k)
    ensures LongestZeroRun(b) < k
  {
    var L := LongestZeroRun(b);
    if k <= L {
      ShorterZeroRun(b, L, k);
    }
  }

  /** The first run of len zero bits at or after `from` starts at s. */
  ghost predicate FirstZeroRunFrom(b: seq<bool>, from: nat, s: nat, len: nat)
  {
    from <= s && ZeroRunAt(b, s, len) && forall t: nat :: from <= t < s ==> !ZeroRunAt(b, t, len)
  }

  /** A block [cur, hi) of set bits ends every run that would reach into it. */
  lemma NoRunThroughSet(b: seq<bool>, start: nat, cur: nat, hi: nat, len: nat)
    requires 1 <= len && cur <= hi <= |b| && AllIn(b, cur, hi)
    requires NoZeroRunIn(b, start, cur, len)
    ensures NoZeroRunIn(b, start, hi, len)
  {
    forall s: nat | start <= s && s + len <= hi ensures !ZeroRunAt(b, s, len) {
      if s + len > cur {
        assert b[s + len - 1];
      }
    }
  }

  /** A set bit at cur ends every run that would reach past it. */
  lemma NoRunAfterSet(b: seq<bool>, start: nat, cur: nat, hi: nat, len: nat)
    requires 1 <= len && cur < hi <= |b| && b[cur]
    requires NoZeroRunIn(b, start, cur, len) && NoZeroRunIn(b, cur + 1, hi, len)
    ensures NoZeroRunIn(b, start, hi, len)
  {
    forall s: nat | start <= s && s + len <= hi ensures !ZeroRunAt(b, s, len) {
      if s <= cur < s + len {
        assert b[cur];
      }
    }
  }

  /**
   * The state of a left-to-right scan for a run of len zero bits from start:
   * the lg bits before cur are clear and follow a set bit (or start), and no
   * run of len zero bits from start ends by cur.
   */
  ghost predicate ScanState(b: seq<bool>, start: nat, cur: nat, lg: nat, len: nat)
  {
    start + lg <= cur <= |b| && lg < len && ZeroRunAt(b, cur - lg, lg)
    && (cur - lg == start || b[cur - lg - 1]) && NoZeroRunIn(b, start, cur, len)
  }

  /** One scan step over a clear bit that does not complete a run of len. */
  lemma ScanZeroStep(b: seq<bool>, start: nat, cur: nat, lg: nat, len: nat)
    requires ScanState(b, start, cur, lg, len) && cur < |b| && !b[cur] && lg + 1 < len
    ensures ScanState(b, start, cur + 1, lg + 1, len)
  {
    forall s: nat | start <= s && s + len <= cur + 1 ensures !ZeroRunAt(b, s, len) {
      if s + len == cur + 1 {
        assert b[cur - lg - 1];
      }
    }
  }

  /** The scan resumes after a set bit at `next`. */
  lemma ScanSetStep(b: seq<bool>, start: nat, next: nat, len: nat)
    requires start <= next < |b| && b[next] && 1 <= len && NoZeroRunIn(b, start, next + 1, len)
    ensures ScanState(b, start, next + 1, 0, len)
  {
  }

  /** A zero run inside word q is no longer than the number of clear bits of that word. */
  lemma WordZeroRunBound(ws: seq<Word>, q: nat, s: nat, len: nat)
    requires q < |ws| && q * W <= s && s + len <= q * W + W && ZeroRunAt(Flatten(ws), s, len)
    ensures len <= W - Popcount(ws[q])
  {
    var a := s - q * W;
    forall j | a <= j < a + len ensures !ws[q][j] {
      FlattenAt(ws, q, j);
    }
    assert ZeroRunAt(ws[q], a, len);
    ZeroRunCount(ws[q], a, len);
  }

  /** Skipping an all-ones word q: no run of len ends inside it. */
  lemma SkipOnesWord(ws: seq<Word>, q: nat, start: nat, len: nat)
    requires q < |ws| && ws[q] == Ones() && 1 <= len
    requires NoZeroRunIn(Flatten(ws), start, q * W, len)
    ensures q * W + W <= |ws| * W
    ensures NoZeroRunIn(Flatten(ws), start, q * W + W, len)
    ensures Flatten(ws)[q * W + W - 1]
  {
    WordRangeAll(ws, q, 0, W);
    NoRunThroughSet(Flatten(ws), start, q * W, q * W + W, len);
  }

  /**
   * Skipping up to the highest set bit h of word q, whose bit 0 is set, when
   * the word has fewer than len clear bits.
   */
  lemma SkipSparseWord(ws: seq<Word>, q: nat, start: nat, len: nat, h: nat)
    requires q < |ws| && h < W && ws[q][0] && ws[q][h]
    requires W - Popcount(ws[q]) < len
    requires NoZeroRunIn(Flatten(ws), start, q * W, len)
    ensures q * W + h < |ws| * W
    ensures NoZeroRunIn(Flatten(ws), start, q * W + h + 1, len)
    ensures Flatten(ws)[q * W + h]
  {
    var b := Flatten(ws);
    FlattenAt(ws, q, 0);
    FlattenAt(ws, q, h);
    forall s: nat | q * W + 1 <= s && s + len <= q * W + h + 1 ensures !ZeroRunAt(b, s, len) {
      if ZeroRunAt(b, s, len) {
        WordZeroRunBound(ws, q, s, len);
      }
    }
    NoRunAfterSet(b, start, q * W, q * W + h + 1, len);
  }

  /** A bitset has a run of len zero bits exactly when [0, N) holds one. */
  lemma NoZeroRunAll(b: seq<bool>, len: nat)
    ensures HasZeroRun(b, len) <==> !NoZeroRunIn(b, 0, |b|, len)
  {
    if HasZeroRun(b, len) {
      var s: nat :| ZeroRunAt(b, s, len);
    }
  }

  /** No run of k zero bits inside [from, to): no longer run either. */
  lemma NoZeroRunLonger(b: seq<bool>, from: nat, to: nat, k: nat, j: nat)
    requires NoZeroRunIn(b, from, to, k) && k <= j
    ensures NoZeroRunIn(b, from, to, j)
  {
    forall s: nat | from <= s && s + j <= to ensures !ZeroRunAt(b, s, j) {
      if ZeroRunAt(b, s, j) {
        assert ZeroRunAt(b, s, k);
      }
    }
  }

  /**
   * The scan completes a run of len zero bits at cur: the lg zero bits before
   * cur and the clear bit cur form the first such run from start, no earlier
   * run having ended before cur.
   */
  lemma FoundZeroRun(b: seq<bool>, start: nat, cur: nat, lg: nat, len: nat)
    requires ScanState(b, start, cur, lg, len) && cur < |b| && !b[cur] && lg + 1 == len
    ensures FirstZeroRunFrom(b, start, cur - lg, len)
  {
    assert ZeroRunAt(b, cur - lg, len);
  }

  /**
   * A clear bit that makes the current run one longer than any run so far:
   * that run is the first of its length, and none longer ends by cur + 1.
   */
  lemma ScanNewLongest(b: seq<bool>, cur: nat, lg: nat)
    requires ScanState(b, 0, cur, lg, lg + 1) && cur < |b| && !b[cur]
    ensures ScanState(b, 0, cur + 1, lg + 1, lg + 2) && FirstZeroRun(b, cur - lg, lg + 1)
  {
    FoundZeroRun(b, 0, cur, lg, lg + 1);
    var len := lg + 2;
    forall s: nat | s + len <= cur + 1 ensures !ZeroRunAt(b, s, len) {
      if s + len <= cur {
        assert !ZeroRunAt(b, s, lg + 1);
      } else {
        assert b[cur - lg - 1];
      }
    }
  }

  /**
   * The state of longest_zero_sequence_naive before bit cur: the current run
   * of lg zero bits, and `longest`, the longest run that ends by cur.
   */
  ghost predicate LongestScan(b: seq<bool>, cur: nat, lg: nat, longest: nat)
  {
    ScanState(b, 0, cur, lg, longest + 1) && HasZeroRun(b, longest)
  }

  /** A clear bit: the current run grows, and the longest with it if it overtakes. */
  lemma LongestScanZero(b: seq<bool>, cur: nat, lg: nat, longest: nat)
    requires LongestScan(b, cur, lg, longest) && cur < |b| && !b[cur]
    ensures lg + 1 > longest ==> LongestScan(b, cur + 1, lg + 1, lg + 1) && FirstZeroRun(b, cur - lg, lg + 1)
    ensures lg + 1 <= longest ==> LongestScan(b, cur + 1, lg + 1, longest)
  {
    if lg + 1 > longest {
      ScanNewLongest(b, cur, lg);
    } else {
      ScanZeroStep(b, 0, cur, lg, longest + 1);
    }
  }

  /** A set bit ends the current run. */
  lemma LongestScanSet(b: seq<bool>, cur: nat, lg: nat, longest: nat)
    requires LongestScan(b, cur, lg, longest) && cur < |b| && b[cur]
    ensures LongestScan(b, cur + 1, 0, longest)
  {
    NoRunThroughSet(b, 0, cur, cur + 1, longest + 1);
    ScanSetStep(b, 0, cur, longest + 1);
  }

  /** At the end of the bitset, `longest` is the longest zero run. */
  lemma LongestScanEnd(b: seq<bool>, lg: nat, longest: nat)
    requires LongestScan(b, |b|, lg, longest)
    ensures IsLongestZeroRun(b, longest) && longest == LongestZeroRun(b)
  {
    NoZeroRunAll(b, longest + 1);
    LongestZeroRunUnique(b, longest, LongestZeroRun(b));
  }

  /** set_naive from `from` up to cur, then one bit more. */
  lemma SetRangeStep(b: seq<bool>, from: nat, cur: nat)
    requires from <= cur < |b|
    ensures SetRange(b, from, from) == b
    ensures SetRange(b, from, cur)[cur := true] == SetRange(b, from, cur + 1)
  {
    assert SetRange(b, from, from) == b;
    assert SetRange(b, from, cur)[cur := true] == SetRange(b, from, cur + 1);
  }

  /** reset_naive from `from` up to cur, then one bit more. */
  lemma ResetRangeStep(b: seq<bool>, from: nat, cur: nat)
    requires from <= cur < |b|
    ensures ResetRange(b, from, from) == b
    ensures ResetRange(b, from, cur)[cur := false] == ResetRange(b, from, cur + 1)
  {
    assert ResetRange(b, from, from) == b;
    assert ResetRange(b, from, cur)[cur := false] == ResetRange(b, from, cur + 1);
  }

  // ---------------------------------------------------------------
  // The "state" bitsets of longest_zero_sequence
  // ---------------------------------------------------------------

  /**
   * After the algorithm has reached width s, bit p of its state is zero exactly
   * when the s + 1 bits ending at p are all zero.
   */
  function Window(b: seq<bool>, s: nat): (r: seq<bool>)
    ensures |r| == |b|
  {
    seq(|b|, p requires 0 <= p < |b| => !(p >= s && NoneIn(b, p - s, p + 1)))
  }

  /** state = *this | *this << 1; state.set(0) gives the width-1 state. */
  lemma {:induction false} WindowStart(b: seq<bool>)
    requires |b| > 0
    ensures OrBits(b, ShiftUp(b, 1))[0 := true] == Window(b, 1)
  {
    var l, r := OrBits(b, ShiftUp(b, 1))[0 := true], Window(b, 1);
    forall p | 0 <= p < |b| ensures l[p] == r[p] {
      if p >= 1 {
        assert l[p] == (b[p] || b[p - 1]);
        if !l[p] {
          assert NoneIn(b, p - 1, p + 1);
        } else if b[p] {
          assert !NoneIn(b, p - 1, p + 1);
        } else {
          assert !NoneIn(b, p - 1, p + 1);
        }
      }
    }
  }

  /** state | state << t widens the window from s to s + t, for 1 <= t <= s. */
  lemma {:induction false} WindowGrow(b: seq<bool>, s: nat, t: nat)
    requires 1 <= t <= s
    ensures OrBits(Window(b, s), ShiftUp(Window(b, s), t)) == Window(b, s + t)
  {
    var st := Window(b, s);
    var l, r := OrBits(st, ShiftUp(st, t)), Window(b, s + t);
    forall p | 0 <= p < |b| ensures l[p] == r[p] {
      if !l[p] {
        assert !st[p] && p >= t && !st[p - t];
        assert NoneIn(b, p - s, p + 1) && NoneIn(b, p - t - s, p - t + 1);
        forall i | p - (s + t) <= i < p + 1 ensures !b[i] {
          if i < p - s {
            assert p - t - s <= i < p - t + 1;
          }
        }
      }
      if !r[p] {
        assert p >= s + t && NoneIn(b, p - s - t, p + 1);
        assert NoneIn(b, p - s, p + 1);
        assert NoneIn(b, p - t - s, p - t + 1);
        assert !st[p] && !st[p - t];
      }
    }
  }

  /**
   * The state of width s combined with itself shifted by u - s is the state
   * of width u, which is all set exactly when no run of u + 1 zero bits exists.
   */
  lemma WindowStep(b: seq<bool>, s: nat, u: nat)
    requires s < u <= s + s
    ensures OrBits(Window(b, s), ShiftUp(Window(b, s), u - s)) == Window(b, u)
    ensures AllSet(Window(b, u)) <==> !HasZeroRun(b, u + 1)
  {
    WindowGrow(b, s, u - s);
    assert s + (u - s) == u;
    WindowAllSet(b, u);
  }

  /** The state of width s has every bit set exactly when no zero run exceeds s. */
  lemma {:induction false} WindowAllSet(b: seq<bool>, s: nat)
    ensures AllSet(Window(b, s)) <==> !HasZeroRun(b, s + 1)
  {
    var st := Window(b, s);
    if HasZeroRun(b, s + 1) {
      var q: nat :| ZeroRunAt(b, q, s + 1);
      assert !st[q + s];
    }
    if !AllSet(st) {
      var p :| 0 <= p < |b| && !st[p];
      assert ZeroRunAt(b, p - s, s + 1);
    }
  }

  /** The first zero bit p of the state of width s ends the first run of s + 1 zeros. */
  lemma {:induction false} WindowFirstZero(b: seq<bool>, s: nat, p: nat)
    requires p < |b| && !Window(b, s)[p]
    requires forall q :: 0 <= q < p ==> Window(b, s)[q]
    ensures p >= s && FirstZeroRun(b, p - s, s + 1)
  {
    var st := Window(b, s);
    var len := s + 1;
    forall t: nat | t + s < p ensures !ZeroRunAt(b, t, len) {
      assert st[t + s];
    }
  }

  // ---------------------------------------------------------------
  // Zero runs after set and reset
  // ---------------------------------------------------------------

  /** Clearing bits keeps every zero run. */
  lemma ResetKeepsZeroRun(b: seq<bool>, from: nat, to: nat, s: nat, len: nat)
    requires ZeroRunAt(b, s, len)
    ensures ZeroRunAt(ResetRange(b, from, to), s, len)
  {
  }

  /** Setting bits outside a zero run keeps it. */
  lemma SetOutsideKeepsZeroRun(b: seq<bool>, from: nat, to: nat, s: nat, len: nat)
    requires ZeroRunAt(b, s, len)
    requires to <= s || s + len <= from
    ensures ZeroRunAt(SetRange(b, from, to), s, len)
  {
  }

  // ---------------------------------------------------------------
  // Counting
  // ---------------------------------------------------------------

  /** Number of zero bits. */
  function CountZero(b: seq<bool>): (c: nat)
    ensures c + CountTrue(b) == |b|
  {
    if b == [] then 0 else CountZero(b[..|b| - 1]) + (if b[|b| - 1] then 0 else 1)
  }

  lemma {:induction false} CountTrueAppend(a: seq<bool>, b: seq<bool>)
    ensures CountTrue(a + b) == CountTrue(a) + CountTrue(b)
    decreases |b|
  {
    if b == [] {
      assert a + b == a;
    } else {
      assert (a + b)[..|a + b| - 1] == a + b[..|b| - 1];
      CountTrueAppend(a, b[..|b| - 1]);
    }
  }

  /** The number of set bits of a word array is the sum of its words' popcounts. */
  lemma {:induction false} FlattenCount(ws: seq<Word>)
    ensures CountTrue(Flatten(ws)) == SumPopcount(ws)
    decreases |ws|
  {
    if ws != [] {
      var init := ws[..|ws| - 1];
      assert Flatten(ws) == Flatten(init) + ws[|ws| - 1] by {
        FlattenSnoc(init, ws[|ws| - 1]);
        assert init + [ws[|ws| - 1]] == ws;
      }
      CountTrueAppend(Flatten(init), ws[|ws| - 1]);
      FlattenCount(init);
    }
  }

  lemma FlattenSnoc(ws: seq<Word>, w: Word)
    ensures Flatten(ws + [w]) == Flatten(ws) + w
  {
    var l, r := Flatten(ws + [w]), Flatten(ws) + w;
    forall i | 0 <= i < |l| ensures l[i] == r[i] {
      if i < |ws| * W {
        assert i / W < |ws|;
      } else {
        assert i / W == |ws| && i % W == i - |ws| * W;
      }
    }
  }

  /** Sum of s_popcount over the words, as count() accumulates it. */
  function SumPopcount(ws: seq<Word>): nat
  {
    if ws == [] then 0 else SumPopcount(ws[..|ws| - 1]) + Popcount(ws[|ws| - 1])
  }

  /** A zero run of length len fits in the zero bits. */
  lemma {:induction false} ZeroRunCount(b: seq<bool>, s: nat, len: nat)
    requires ZeroRunAt(b, s, len)
    ensures len <= CountZero(b)
    decreases |b|
  {
    if b != [] {
      var init := b[..|b| - 1];
      if s + len == |b| && len > 0 {
        assert ZeroRunAt(init, s, len - 1);
        ZeroRunCount(init, s, len - 1);
      } else if s + len < |b| {
        assert ZeroRunAt(init, s, len);
        ZeroRunCount(init, s, len);
      }
    }
  }

  /** A zero run holding every zero bit leaves every other bit set. */
  lemma {:induction false} AllZerosInRun(b: seq<bool>, s: nat, len: nat, i: nat)
    requires ZeroRunAt(b, s, len) && len == CountZero(b)
    requires i < |b| && !(s <= i < s + len)
    ensures b[i]
    decreases |b|
  {
    var last := |b| - 1;
    var init := b[..last];
    if s + len == |b| && len > 0 {
      assert ZeroRunAt(init, s, len - 1);
      AllZerosInRun(init, s, len - 1, i);
    } else {
      var s' := if len == 0 then 0 else s;
      assert ZeroRunAt(init, s', len);
      if !b[last] {
        ZeroRunCount(init, s', len);
      }
      if i < last {
        AllZerosInRun(init, s', len, i);
      }
    }
  }

  /** Changing bit i to v moves the zero count by one when the bit changes. */
  lemma {:induction false} CountZeroUpdate(b: seq<bool>, i: nat, v: bool)
    requires i < |b|
    ensures CountZero(b[i := v]) + (if v then 1 else 0) == CountZero(b) + (if b[i] then 1 else 0)
    decreases |b|
  {
    var last := |b| - 1;
    if i == last {
      assert b[i := v][..last] == b[..last];
    } else {
      assert b[i := v][..last] == b[..last][i := v];
      CountZeroUpdate(b[..last], i, v);
    }
  }

  /** Setting a clear range takes its length off the zero count. */
  lemma {:induction false} CountZeroSet(b: seq<bool>, from: nat, to: nat)
    requires from <= to <= |b| && NoneIn(b, from, to)
    ensures CountZero(SetRange(b, from, to)) + (to - from) == CountZero(b)
    decreases (to)
  {
    if from == to {
      assert SetRange(b, from, from) == b;
    } else {
      CountZeroSet(b, from, to - 1);
      SetRangeStep(b, from, to - 1);
      CountZeroUpdate(SetRange(b, from, to - 1), to - 1, true);
    }
  }

  /** Clearing a busy range adds its length to the zero count. */
  lemma {:induction false} CountZeroReset(b: seq<bool>, from: nat, to: nat)
    requires from <= to <= |b| && AllIn(b, from, to)
    ensures CountZero(ResetRange(b, from, to)) == CountZero(b) + (to - from)
    decreases (to)
  {
    if from == to {
      assert ResetRange(b, from, from) == b;
    } else {
      CountZeroReset(b, from, to - 1);
      ResetRangeStep(b, from, to - 1);
      CountZeroUpdate(ResetRange(b, from, to - 1), to - 1, false);
    }
  }

  /** Every bit is zero exactly when all are counted; none is zero exactly when the count is 0. */
  lemma {:induction false} CountZeroExtremes(b: seq<bool>)
    ensures CountZero(b) == |b| <==> NoneSet(b)
    ensures CountZero(b) == 0 <==> AllSet(b)
    decreases |b|
  {
    if b != [] {
      var init := b[..|b| - 1];
      CountZeroExtremes(init);
      assert NoneSet(b) <==> NoneSet(init) && !b[|b| - 1];
      assert AllSet(b) <==> AllSet(init) && b[|b| - 1];
    }
  }
}
