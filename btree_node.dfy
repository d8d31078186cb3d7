/**
 * btree_node of spp_btree.h: one node of the B-tree, a fixed buffer of
 * max_count values of which the first count are live and, on an internal
 * node, count + 1 child pointers. Keys are ints ordered by <; the parent
 * and position back-links are not stored, so the operations that touch a
 * node's parent are handed the parent and the node's index in it.
 */
module SppBtreeNode {

  /**
   * btree_compare_keys(comp, a, k) with the plain comparator (a < k), or
   * with btree_upper_bound_adapter wrapped around it, which asks !(k < a).
   */
  predicate Before(a: int, k: int, upper: bool)
  {
    if upper then !(k < a) else a < k
  }

  /** The first index of s whose key is not Before k, or |s| when there is none. */
  function FirstNotBefore(s: seq<int>, k: int, upper: bool): (r: nat)
    ensures r <= |s|
    ensures forall i :: 0 <= i < r ==> Before(s[i], k, upper)
    ensures r < |s| ==> !Before(s[r], k, upper)
  {
    if |s| == 0 || !Before(s[0], k, upper) then 0 else 1 + FirstNotBefore(s[1..], k, upper)
  }

  /** Keys in non-decreasing order, as the values of a node always are. */
  ghost predicate Sorted(s: seq<int>)
  {
    forall i, j :: 0 <= i < j < |s| ==> s[i] <= s[j]
  }

  /** The first index is determined: any index with the first-index property is FirstNotBefore. */
  lemma FirstIndex(s: seq<int>, r: nat, k: int, upper: bool)
    requires r <= |s|
    requires forall i :: 0 <= i < r ==> Before(s[i], k, upper)
    requires r < |s| ==> !Before(s[r], k, upper)
    ensures r == FirstNotBefore(s, k, upper)
  {
  }

  /**
   * On sorted keys the keys Before k form a prefix: the lower and upper
   * bounds split the node at one index, everything before it is Before k
   * and nothing after it is.
   */
  lemma {:induction false} SortedSplit(s: seq<int>, k: int, upper: bool)
    requires Sorted(s)
    ensures var r := FirstNotBefore(s, k, upper);
      forall i :: r <= i < |s| ==> !Before(s[i], k, upper)
  {
    var r := FirstNotBefore(s, k, upper);
    forall i | r <= i < |s|
      ensures !Before(s[i], k, upper)
    {
      assert s[r] <= s[i];
    }
  }

  /**
   * The keys equal to k lie exactly between the lower and the upper bound
   * of k, so the upper bound is never before the lower bound.
   */
  lemma {:induction false} EqualRange(s: seq<int>, k: int)
    requires Sorted(s)
    ensures FirstNotBefore(s, k, false) <= FirstNotBefore(s, k, true)
    ensures forall i :: 0 <= i < |s| ==>
      (s[i] == k <==> FirstNotBefore(s, k, false) <= i < FirstNotBefore(s, k, true))
  {
    var lo := FirstNotBefore(s, k, false);
    var hi := FirstNotBefore(s, k, true);
    SortedSplit(s, k, false);
    SortedSplit(s, k, true);
  }

  /** Two different nodes with different buffers. */
  predicate Apart(a: Node, b: Node)
  {
    a != b && a.values != b.values && a.children != b.children
  }

  class Node {
    /** leaf(): fixed when the node is made. */
    const leaf: bool
    /** max_count(): the number of values the buffer holds. */
    const maxCount: nat
    /** count(): the live values are values[..count]. */
    var count: nat
    /** values[kNodeValues]. */
    const values: array<int>
    /** children[kNodeValues + 1], only on an internal node (empty on a leaf). */
    const children: array<Node?>

    ghost predicate Valid()
      reads this
    {
      values.Length == maxCount && count <= maxCount
      && children.Length == (if leaf then 0 else maxCount + 1)
    }

    /** The node's live keys in order. */
    function Keys(): (ks: seq<int>)
      reads this, values
      requires Valid()
      ensures |ks| == count
    {
      values[..count]
    }

    /** The node's count + 1 child pointers. */
    function Kids(): (cs: seq<Node?>)
      reads this, children
      requires Valid() && !leaf
      ensures |cs| == count + 1
    {
      children[..count + 1]
    }

    /** init_leaf / init_internal: an empty node with room for maxCount values. */
    constructor (isLeaf: bool, size: nat)
      ensures Valid() && leaf == isLeaf && maxCount == size && count == 0
      ensures fresh(values) && fresh(children)
      ensures !leaf ==> Kids() == [null]
    {
      leaf := isLeaf;
      maxCount := size;
      count := 0;
      values := new int[size];
      children := new Node?[if isLeaf then 0 else size + 1](_ => null);
    }

    /**
     * linear_search_plain_compare(k, s, e): the first index in [s, e)
     * whose key is not Before k, found by stepping from s.
     */
    method LinearSearch(k: int, s: nat, e: nat, upper: bool) returns (r: nat)
      requires Valid() && s <= e <= count
      ensures r == s + FirstNotBefore(values[s..e], k, upper)
    {
      r := s;
      while r < e
        invariant s <= r <= e
        invariant forall i :: s <= i < r ==> Before(values[i], k, upper)
      {
        if !Before(values[r], k, upper) {
          break;
        }
        r := r + 1;
      }
      FirstIndex(values[s..e], r - s, k, upper);
    }

    /**
     * binary_search_plain_compare(k, s, e): on sorted keys the same index
     * as the linear search, found by halving [s, e).
     */
    method BinarySearch(k: int, s: nat, e: nat, upper: bool) returns (r: nat)
      requires Valid() && s <= e <= count && Sorted(values[s..e])
      ensures r == s + FirstNotBefore(values[s..e], k, upper)
    {
      ghost var w := values[s..e];
      var lo, hi := s, e;
      while lo != hi
        invariant s <= lo <= hi <= e
        invariant forall i :: s <= i < lo ==> Before(values[i], k, upper)
        invariant forall i :: hi <= i < e ==> !Before(values[i], k, upper)
        decreases hi - lo
      {
        var mid := (lo + hi) / 2;
        if Before(values[mid], k, upper) {
          forall i | lo <= i <= mid
            ensures Before(values[i], k, upper)
          {
            assert w[i - s] <= w[mid - s];
          }
          lo := mid + 1;
        } else {
          forall i | mid <= i < hi
            ensures !Before(values[i], k, upper)
          {
            assert w[mid - s] <= w[i - s];
          }
          hi := mid;
        }
      }
      r := lo;
      FirstIndex(w, r - s, k, upper);
    }

    /** lower_bound(k): the node's search_type is the linear search. */
    method LowerBound(k: int) returns (r: nat)
      requires Valid()
      ensures r == FirstNotBefore(Keys(), k, false)
    {
      r := LinearSearch(k, 0, count, false);
      assert values[0..count] == Keys();
    }

    /** upper_bound(k): the linear search with the upper-bound adapter. */
    method UpperBound(k: int) returns (r: nat)
      requires Valid()
      ensures r == FirstNotBefore(Keys(), k, true)
    {
      r := LinearSearch(k, 0, count, true);
      assert values[0..count] == Keys();
    }

    /**
     * insert_value(i, x): x goes in at i, the values from i on move one
     * to the right, and on an internal node a null child is opened at
     * i + 1 with the children after it moved one to the right.
     */
    method InsertValue(i: nat, x: int)
      requires Valid() && i <= count < maxCount
      modifies this, values, children
      ensures Valid() && count == old(count) + 1
      ensures Keys() == old(Keys())[..i] + [x] + old(Keys())[i..]
      ensures !leaf ==> Kids() == old(Kids())[..i + 1] + [null] + old(Kids())[i + 1..]
    {
      SwapIn(values, count, i, x);
      if !leaf {
        ShiftRight(children, count + 1, i + 1, null);
      }
      count := count + 1;
    }

    /**
     * remove_value(i): the value at i goes and the values after it move
     * one to the left; on an internal node the child at i + 1, which must
     * be empty by then, goes and the children after it move one left.
     */
    method RemoveValue(i: nat)
      requires Valid() && i < count
      requires !leaf ==> children[i + 1] != null && children[i + 1].count == 0
      modifies this, values, children
      ensures Valid() && count == old(count) - 1
      ensures Keys() == old(Keys())[..i] + old(Keys())[i + 1..]
      ensures !leaf ==> Kids() == old(Kids())[..i + 1] + old(Kids())[i + 2..]
    {
      if !leaf {
        ShiftLeft(children, count + 1, i + 1, null);
      }
      count := count - 1;
      SwapOut(values, count + 1, i);
    }

    /**
     * split(dest, insert_position): the top values move to the empty
     * sibling dest, how many depending on where the pending insertion
     * goes (all but one when it goes first, none when it goes at
     * max_count, half otherwise); the largest value left becomes the
     * separator, inserted into the parent at pos with dest as the child
     * after it; on an internal node the children of the moved values
     * follow them.
     */
    method Split(dest: Node, insertPos: nat, parent: Node, pos: nat)
      requires Valid() && dest.Valid() && parent.Valid() && !parent.leaf
      requires Apart(this, dest) && Apart(this, parent) && Apart(dest, parent)
      requires dest.leaf == leaf && dest.maxCount == maxCount && dest.count == 0 && 1 <= count
      requires pos <= parent.count < parent.maxCount && parent.children[pos] == this
      modifies this, values, children, dest, dest.values, dest.children, parent, parent.values, parent.children
      ensures Valid() && dest.Valid() && parent.Valid()
      ensures count + 1 + dest.count == old(count)
      ensures insertPos == 0 ==> dest.count == old(count) - 1
      ensures insertPos != 0 && insertPos == maxCount ==> dest.count == 0
      ensures insertPos != 0 && insertPos != maxCount ==> dest.count == old(count) / 2
      ensures parent.count == old(parent.count) + 1
      ensures Keys() + [parent.Keys()[pos]] + dest.Keys() == old(Keys())
      ensures parent.Keys() == old(parent.Keys())[..pos] + [old(Keys())[count]] + old(parent.Keys())[pos..]
      ensures parent.Kids() == old(parent.Kids())[..pos + 1] + [dest] + old(parent.Kids())[pos + 1..]
      ensures !leaf ==> Kids() + dest.Kids() == old(Kids())
    {
      var d := if insertPos == 0 then count - 1 else if insertPos == maxCount then 0 else count / 2;
      var sep := MoveTop(dest, d);
      parent.PutSeparator(pos, sep, dest);
    }

    /**
     * The moves of split: the top d values, and on an internal node the
     * top d + 1 children, go to the front of the empty node dest, and the
     * largest value left, sep, leaves this node.
     */
    method MoveTop(dest: Node, d: nat) returns (sep: int)
      requires Valid() && dest.Valid() && Apart(this, dest)
      requires dest.leaf == leaf && dest.maxCount == maxCount && dest.count == 0 && d < count
      modifies this, dest, dest.values, dest.children, children
      ensures Valid() && dest.Valid() && count == old(count) - d - 1 && dest.count == d
      ensures Keys() + [sep] + dest.Keys() == old(Keys()) && sep == old(Keys())[count]
      ensures !leaf ==> Kids() + dest.Kids() == old(Kids())
    {
      if !leaf {
        MoveTopKids(dest, count - d, d + 1);
      }
      sep := MoveTopValues(dest, d);
    }

    /** The value loop of split, and the new counts of both nodes. */
    method MoveTopValues(dest: Node, d: nat) returns (sep: int)
      requires Valid() && dest.Valid() && Apart(this, dest)
      requires dest.maxCount == maxCount && dest.count == 0 && d < count
      modifies this, dest, dest.values
      ensures Valid() && dest.Valid() && count == old(count) - d - 1 && dest.count == d
      ensures Keys() + [sep] + dest.Keys() == old(Keys()) && sep == old(Keys())[count]
    {
      ghost var K := Keys();
      var left := count - d;
      Copy(values, left, dest.values, 0, d);
      sep := values[left - 1];
      count, dest.count := left - 1, d;
      Cut3(K, values[..count], sep, dest.values[..d], count);
    }

    /** The child loop of split: the n children from index from on go to the front of dest. */
    method MoveTopKids(dest: Node, from: nat, n: nat)
      requires Valid() && dest.Valid() && Apart(this, dest) && !leaf && !dest.leaf
      requires from + n == count + 1 && n <= dest.children.Length
      modifies children, dest.children
      ensures children[..from] + dest.children[..n] == old(Kids())
    {
      ghost var C := Kids();
      Transfer(children, from, dest.children, 0, n, null);
      Cut2(C, children[..from], dest.children[..n], from);
    }

    /**
     * The parent's side of split: a slot opened by insert_value at pos
     * receives the separator v, and right becomes the child after it.
     */
    method PutSeparator(pos: nat, v: int, right: Node)
      requires Valid() && !leaf && pos <= count < maxCount
      modifies this, values, children
      ensures Valid() && count == old(count) + 1
      ensures Keys() == old(Keys())[..pos] + [v] + old(Keys())[pos..]
      ensures Kids() == old(Kids())[..pos + 1] + [right] + old(Kids())[pos + 1..]
    {
      InsertValue(pos, 0);
      values[pos] := v;
      children[pos + 1] := right;
    }

    /**
     * merge(src): the separator at pos in the parent and then all of the
     * right sibling src's values are appended to this node (and src's
     * children after this node's), src is left empty, and the separator
     * and src's child slot leave the parent.
     */
    method Merge(src: Node, parent: Node, pos: nat)
      requires Valid() && src.Valid() && parent.Valid() && !parent.leaf
      requires Apart(this, src) && Apart(this, parent) && Apart(src, parent)
      requires src.leaf == leaf && 1 + count + src.count <= maxCount
      requires pos < parent.count && parent.children[pos] == this && parent.children[pos + 1] == src
      modifies this, values, children, src, src.children, parent, parent.values, parent.children
      ensures Valid() && src.Valid() && parent.Valid()
      ensures Keys() == old(Keys()) + [old(parent.Keys())[pos]] + old(src.Keys())
      ensures src.count == 0
      ensures parent.Keys() == old(parent.Keys())[..pos] + old(parent.Keys())[pos + 1..]
      ensures parent.Kids() == old(parent.Kids())[..pos + 1] + old(parent.Kids())[pos + 2..]
      ensures !leaf ==> Kids() == old(Kids()) + old(src.Kids())
    {
      Absorb(parent.values[pos], src);
      parent.RemoveValue(pos);
    }

    /** The moves of merge: sep and then all of src's values (and children) are appended here. */
    method Absorb(sep: int, src: Node)
      requires Valid() && src.Valid() && Apart(this, src)
      requires src.leaf == leaf && 1 + count + src.count <= maxCount
      modifies this, values, children, src, src.children
      ensures Valid() && src.Valid() && src.count == 0
      ensures Keys() == old(Keys()) + [sep] + old(src.Keys())
      ensures !leaf ==> Kids() == old(Kids()) + old(src.Kids())
    {
      if !leaf {
        AbsorbKids(src);
      }
      AbsorbValues(sep, src);
    }

    /** The value loop of merge, and the new counts of both nodes. */
    method AbsorbValues(sep: int, src: Node)
      requires Valid() && src.Valid() && Apart(this, src)
      requires 1 + count + src.count <= maxCount
      modifies this, values, src
      ensures Valid() && src.Valid() && src.count == 0 && count == 1 + old(count) + old(src.count)
      ensures Keys() == old(Keys()) + [sep] + old(src.Keys())
    {
      var c, sc := count, src.count;
      ghost var K, S := Keys(), src.Keys();
      AppendAfter(values, c, sep, src.values, sc);
      ghost var V := values[..c + 1 + sc];
      assert V == K + [sep] + S;
      count, src.count := 1 + c + sc, 0;
      assert Keys() == V;
    }

    /** The child loop of merge: src's children come over after this node's. */
    method AbsorbKids(src: Node)
      requires Valid() && src.Valid() && Apart(this, src) && !leaf && !src.leaf
      requires 1 + count + src.count <= maxCount
      modifies children, src.children
      ensures children[..count + src.count + 2] == old(Kids()) + old(src.Kids())
    {
      AppendClear(children, count + 1, src.children, src.count + 1, null);
    }

    /**
     * rebalance_right_to_left(src, to_move): to_move values come over
     * from the right sibling src through the parent: the separator is
     * appended here with the first to_move - 1 of src's values, src's
     * value to_move - 1 becomes the new separator, and src keeps the
     * rest; on an internal node src's first to_move children follow.
     */
    method RebalanceRightToLeft(src: Node, toMove: nat, parent: Node, pos: nat)
      requires Valid() && src.Valid() && parent.Valid() && !parent.leaf
      requires Apart(this, src) && Apart(this, parent) && Apart(src, parent)
      requires src.leaf == leaf && src.count >= count && 1 <= toMove <= src.count && count + toMove <= maxCount
      requires pos < parent.count && parent.children[pos] == this && parent.children[pos + 1] == src
      modifies this, values, children, src, src.values, src.children, parent.values
      ensures Valid() && src.Valid() && parent.Valid()
      ensures Keys() == old(Keys()) + [old(parent.Keys())[pos]] + old(src.Keys())[..toMove - 1]
      ensures parent.Keys() == old(parent.Keys())[pos := old(src.Keys())[toMove - 1]]
      ensures src.Keys() == old(src.Keys())[toMove..]
      ensures parent.Kids() == old(parent.Kids())
      ensures !leaf ==> Kids() == old(Kids()) + old(src.Kids())[..toMove] && src.Kids() == old(src.Kids())[toMove..]
    {
      var sep := parent.values[pos];
      parent.values[pos] := src.values[toMove - 1];
      TakeFront(src, toMove, sep);
    }

    /**
     * The moves of rebalance_right_to_left: sep and src's first m - 1
     * values (and first m children) are appended here, and src's others
     * move down by m.
     */
    method TakeFront(src: Node, m: nat, sep: int)
      requires Valid() && src.Valid() && Apart(this, src)
      requires src.leaf == leaf && 1 <= m <= src.count && count + m <= maxCount
      modifies this, values, children, src, src.values, src.children
      ensures Valid() && src.Valid()
      ensures Keys() == old(Keys()) + [sep] + old(src.Keys())[..m - 1]
      ensures src.Keys() == old(src.Keys())[m..]
      ensures !leaf ==> Kids() == old(Kids()) + old(src.Kids())[..m] && src.Kids() == old(src.Kids())[m..]
    {
      if !leaf {
        TakeFrontKids(src, m);
      }
      TakeFrontValues(src, m, sep);
    }

    /** The value loops of rebalance_right_to_left, and the new counts of both nodes. */
    method TakeFrontValues(src: Node, m: nat, sep: int)
      requires Valid() && src.Valid() && Apart(this, src)
      requires 1 <= m <= src.count && count + m <= maxCount
      modifies this, values, src, src.values
      ensures Valid() && src.Valid()
      ensures count == old(count) + m && src.count == old(src.count) - m
      ensures Keys() == old(Keys()) + [sep] + old(src.Keys())[..m - 1]
      ensures src.Keys() == old(src.Keys())[m..]
    {
      var c, sc := count, src.count;
      ghost var K, S := Keys(), src.Keys();
      AppendAfter(values, c, sep, src.values, m - 1);
      ghost var V := values[..c + m];
      assert V == K + [sep] + S[..m - 1] by {
        assert src.values[..m - 1] == S[..m - 1];
      }
      assert src.values[m..sc] == S[m..];
      ShiftDown(src.values, m, sc);
      ghost var W := src.values[..sc - m];
      count, src.count := c + m, sc - m;
      assert Keys() == V && src.Keys() == W;
    }

    /** The child loops of rebalance_right_to_left: src's first m children come over here. */
    method TakeFrontKids(src: Node, m: nat)
      requires Valid() && src.Valid() && Apart(this, src) && !leaf && !src.leaf
      requires 1 <= m <= src.count && count + m <= maxCount
      modifies children, src.children
      ensures children[..count + 1 + m] == old(Kids()) + old(src.Kids())[..m]
      ensures src.children[..src.count + 1 - m] == old(src.Kids())[m..]
    {
      ghost var C := Kids();
      ghost var D := src.Kids();
      Append(children, count + 1, src.children, m);
      assert children[..count + 1 + m] == C + D[..m];
      ShiftDownClear(src.children, m, src.count + 1, null);
    }

    /**
     * rebalance_left_to_right(dest, to_move): to_move values go over to
     * the right sibling dest through the parent: dest's values move up by
     * to_move, this node's last to_move - 1 values and then the separator
     * go in front of them, and this node's value count - to_move becomes
     * the new separator; on an internal node the last to_move children
     * follow.
     */
    method RebalanceLeftToRight(dest: Node, toMove: nat, parent: Node, pos: nat)
      requires Valid() && dest.Valid() && parent.Valid() && !parent.leaf
      requires Apart(this, dest) && Apart(this, parent) && Apart(dest, parent)
      requires dest.leaf == leaf && count >= dest.count && 1 <= toMove <= count && dest.count + toMove <= dest.maxCount
      requires pos < parent.count && parent.children[pos] == this && parent.children[pos + 1] == dest
      modifies this, children, dest, dest.values, dest.children, parent.values
      ensures Valid() && dest.Valid() && parent.Valid()
      ensures Keys() == old(Keys())[..old(count) - toMove]
      ensures parent.Keys() == old(parent.Keys())[pos := old(Keys())[old(count) - toMove]]
      ensures dest.Keys() == old(Keys())[old(count) - toMove + 1..] + [old(parent.Keys())[pos]] + old(dest.Keys())
      ensures parent.Kids() == old(parent.Kids())
      ensures !leaf ==> Kids() == old(Kids())[..old(count) - toMove + 1]
                        && dest.Kids() == old(Kids())[old(count) - toMove + 1..] + old(dest.Kids())
    {
      var sep := parent.values[pos];
      parent.values[pos] := values[count - toMove];
      GiveBack(dest, toMove, sep);
    }

    /**
     * The moves of rebalance_left_to_right: dest's values (and children)
     * move up by m, and this node's last m - 1 values, then sep, (and its
     * last m children) fill the front of dest; this node drops its last
     * m values.
     */
    method GiveBack(dest: Node, m: nat, sep: int)
      requires Valid() && dest.Valid() && Apart(this, dest)
      requires dest.leaf == leaf && 1 <= m <= count && dest.count + m <= dest.maxCount
      modifies this, children, dest, dest.values, dest.children
      ensures Valid() && dest.Valid()
      ensures Keys() == old(Keys())[..old(count) - m]
      ensures dest.Keys() == old(Keys())[old(count) - m + 1..] + [sep] + old(dest.Keys())
      ensures !leaf ==> Kids() == old(Kids())[..old(count) - m + 1]
                        && dest.Kids() == old(Kids())[old(count) - m + 1..] + old(dest.Kids())
    {
      if !leaf {
        GiveBackKids(dest, m);
      }
      GiveBackValues(dest, m, sep);
    }

    /** The value loops of rebalance_left_to_right, and the new counts of both nodes. */
    method GiveBackValues(dest: Node, m: nat, sep: int)
      requires Valid() && dest.Valid() && Apart(this, dest)
      requires dest.leaf == leaf && 1 <= m <= count && dest.count + m <= dest.maxCount
      modifies this, dest, dest.values
      ensures Valid() && dest.Valid()
      ensures count == old(count) - m && dest.count == old(dest.count) + m
      ensures Keys() == old(Keys())[..old(count) - m]
      ensures dest.Keys() == old(Keys())[old(count) - m + 1..] + [sep] + old(dest.Keys())
    {
      var c, dc := count, dest.count;
      ghost var K, DK := Keys(), dest.Keys();
      PrependAfter(dest.values, dc, sep, values, c - m + 1, m - 1);
      ghost var U, V := values[..c - m], dest.values[..dc + m];
      assert V == K[c - m + 1..] + [sep] + DK by {
        assert values[c - m + 1..c] == K[c - m + 1..];
      }
      assert U == K[..c - m];
      count, dest.count := c - m, dc + m;
      assert Keys() == U && dest.Keys() == V;
    }

    /** The child loops of rebalance_left_to_right: this node's last m children go to the front of dest. */
    method GiveBackKids(dest: Node, m: nat)
      requires Valid() && dest.Valid() && Apart(this, dest) && !leaf && !dest.leaf
      requires 1 <= m <= count && dest.count + m <= dest.maxCount
      modifies children, dest.children
      ensures children[..count - m + 1] == old(Kids())[..count - m + 1]
      ensures dest.children[..dest.count + 1 + m] == old(Kids())[count - m + 1..] + old(dest.Kids())
    {
      PrependClear(dest.children, dest.count + 1, children, count - m + 1, m, null);
    }

    /**
     * swap: this node and x of the same kind trade their values, their
     * children and their counts; each must have room for the other's values,
     * so a full leaf can move into a larger fresh one.
     */
    method Swap(x: Node)
      requires Valid() && x.Valid() && Apart(this, x) && x.leaf == leaf
      requires count <= x.maxCount && x.count <= maxCount
      modifies this, values, children, x, x.values, x.children
      ensures Valid() && x.Valid()
      ensures Keys() == old(x.Keys()) && x.Keys() == old(Keys())
      ensures !leaf ==> Kids() == old(x.Kids()) && x.Kids() == old(Kids())
    {
      var n := if count < x.count then x.count else count;
      SwapValues(x, n);
      if !leaf {
        SwapKids(x, n + 1);
      }
      count, x.count := x.count, count;
    }

    /** The values half of swap, over the first n slots. */
    method SwapValues(x: Node, n: nat)
      requires Valid() && x.Valid() && Apart(this, x)
      requires count <= n && x.count <= n && n <= maxCount && n <= x.maxCount
      modifies values, x.values
      ensures values[..x.count] == old(x.Keys()) && x.values[..count] == old(Keys())
    {
      ghost var V, X := values[..], x.values[..];
      Exchange(values, x.values, n);
      Head(values[..], X, n, x.count);
      Head(x.values[..], V, n, count);
    }

    /** The children half of swap, over the first n slots. */
    method SwapKids(x: Node, n: nat)
      requires Valid() && x.Valid() && Apart(this, x) && !leaf && !x.leaf
      requires count < n && x.count < n && n <= maxCount + 1 && n <= x.maxCount + 1
      modifies children, x.children
      ensures children[..x.count + 1] == old(x.Kids()) && x.children[..count + 1] == old(Kids())
    {
      ghost var C, D := children[..], x.children[..];
      Exchange(children, x.children, n);
      Head(children[..], D, n, x.count + 1);
      Head(x.children[..], C, n, count + 1);
    }
  }

  /** Sequences that agree on their first n elements agree on fewer. */
  lemma Head<T>(s: seq<T>, t: seq<T>, n: nat, c: nat)
    requires c <= n <= |s| && n <= |t| && s[..n] == t[..n]
    ensures s[..c] == t[..c]
  {
    assert forall i :: 0 <= i < c ==> s[i] == s[..n][i];
  }

  /** s cut around its element i: a before it, x at it, b after it. */
  lemma Cut3<T>(s: seq<T>, a: seq<T>, x: T, b: seq<T>, i: nat)
    requires i < |s| && a == s[..i] && x == s[i] && b == s[i + 1..]
    ensures a + [x] + b == s
  {
  }

  /** s cut at i: a before, b from i on. */
  lemma Cut2<T>(s: seq<T>, a: seq<T>, b: seq<T>, i: nat)
    requires i <= |s| && a == s[..i] && b == s[i..]
    ensures a + b == s
  {
  }

  /**
   * value_init(n, x) followed by the swaps of insert_value: x is carried
   * down from slot n to slot i, each value it passes moving up one.
   */
  method SwapIn<T>(a: array<T>, n: nat, i: nat, x: T)
    requires i <= n < a.Length
    modifies a
    ensures a[..n + 1] == old(a[..n])[..i] + [x] + old(a[..n])[i..]
  {
    ghost var A := a[..n];
    a[n] := x;
    var j := n;
    while j > i
      invariant i <= j <= n && a[j] == x
      invariant forall t :: 0 <= t < j ==> a[t] == A[t]
      invariant forall t :: j < t <= n ==> a[t] == A[t - 1]
    {
      a[j], a[j - 1] := a[j - 1], a[j];
      j := j - 1;
    }
    assert a[..n + 1] == A[..i] + [x] + A[i..];
  }

  /**
   * The swaps of remove_value: the value at i is carried up to slot
   * n - 1 (where it is destroyed), each value it passes moving down one.
   */
  method SwapOut<T>(a: array<T>, n: nat, i: nat)
    requires i < n <= a.Length
    modifies a
    ensures a[..n - 1] == old(a[..n])[..i] + old(a[..n])[i + 1..]
  {
    ghost var A := a[..n];
    var j := i;
    while j < n - 1
      invariant i <= j <= n - 1 && a[j] == A[i]
      invariant forall t :: 0 <= t < i ==> a[t] == A[t]
      invariant forall t :: i <= t < j ==> a[t] == A[t + 1]
      invariant forall t :: j < t < n ==> a[t] == A[t]
    {
      a[j], a[j + 1] := a[j + 1], a[j];
      j := j + 1;
    }
    assert a[..n - 1] == A[..i] + A[i + 1..];
  }

  /**
   * The child loop of insert_value over n children: each child from i on
   * is copied one slot up, from the top down, and slot i is cleared.
   */
  method ShiftRight<T>(a: array<T>, n: nat, i: nat, empty: T)
    requires i <= n < a.Length
    modifies a
    ensures a[..n + 1] == old(a[..n])[..i] + [empty] + old(a[..n])[i..]
  {
    ghost var A := a[..n];
    var j := n;
    while j > i
      invariant i <= j <= n
      invariant forall t :: 0 <= t < j ==> a[t] == A[t]
      invariant forall t :: j < t <= n ==> a[t] == A[t - 1]
    {
      a[j] := a[j - 1];
      j := j - 1;
    }
    a[i] := empty;
    assert a[..n + 1] == A[..i] + [empty] + A[i..];
  }

  /**
   * The child loop of remove_value over n children: each child after i
   * is copied one slot down, from the bottom up, and the last slot is
   * cleared.
   */
  method ShiftLeft<T>(a: array<T>, n: nat, i: nat, empty: T)
    requires i < n <= a.Length
    modifies a
    ensures a[..n - 1] == old(a[..n])[..i] + old(a[..n])[i + 1..]
    ensures a[n - 1] == empty
  {
    ghost var A := a[..n];
    var j := i;
    while j < n - 1
      invariant i <= j <= n - 1
      invariant forall t :: 0 <= t < i ==> a[t] == A[t]
      invariant forall t :: i <= t < j ==> a[t] == A[t + 1]
      invariant forall t :: j < t < n ==> a[t] == A[t]
    {
      a[j] := a[j + 1];
      j := j + 1;
    }
    a[n - 1] := empty;
    assert a[..n - 1] == A[..i] + A[i + 1..];
  }

  /** The first n slots of a and b change places. */
  method Exchange<T>(a: array<T>, b: array<T>, n: nat)
    requires a != b && n <= a.Length && n <= b.Length
    modifies a, b
    ensures a[..n] == old(b[..n]) && b[..n] == old(a[..n])
    ensures a[n..] == old(a[n..]) && b[n..] == old(b[n..])
  {
    var i := 0;
    while i < n
      invariant i <= n
      invariant forall t :: 0 <= t < i ==> a[t] == old(b[t]) && b[t] == old(a[t])
      invariant forall t :: i <= t < a.Length ==> a[t] == old(a[t])
      invariant forall t :: i <= t < b.Length ==> b[t] == old(b[t])
    {
      a[i], b[i] := b[i], a[i];
      i := i + 1;
    }
  }

  /** The loops that move len values from src[s..] to dst[d..] of another buffer. */
  method Copy<T>(src: array<T>, s: nat, dst: array<T>, d: nat, len: nat)
    requires src != dst && s + len <= src.Length && d + len <= dst.Length
    modifies dst
    ensures dst[d..d + len] == src[s..s + len]
    ensures dst[..d] == old(dst[..d]) && dst[d + len..] == old(dst[d + len..])
  {
    var i := 0;
    while i < len
      invariant i <= len
      invariant forall t :: d <= t < d + i ==> dst[t] == src[t - d + s]
      invariant forall t :: 0 <= t < dst.Length && !(d <= t < d + i) ==> dst[t] == old(dst[t])
    {
      dst[d + i] := src[s + i];
      i := i + 1;
    }
    assert dst[d..d + len] == src[s..s + len];
  }

  /** The child loops that move len children to another node, clearing the slots they leave. */
  method Transfer<T>(src: array<T>, s: nat, dst: array<T>, d: nat, len: nat, empty: T)
    requires src != dst && s + len <= src.Length && d + len <= dst.Length
    modifies src, dst
    ensures dst[d..d + len] == old(src[s..s + len])
    ensures dst[..d] == old(dst[..d]) && dst[d + len..] == old(dst[d + len..])
    ensures src[..s] == old(src[..s]) && src[s + len..] == old(src[s + len..])
  {
    var i := 0;
    while i < len
      invariant i <= len
      invariant forall t :: d <= t < d + i ==> dst[t] == old(src[t - d + s])
      invariant forall t :: 0 <= t < dst.Length && !(d <= t < d + i) ==> dst[t] == old(dst[t])
      invariant forall t :: 0 <= t < src.Length && !(s <= t < s + i) ==> src[t] == old(src[t])
    {
      dst[d + i] := src[s + i];
      src[s + i] := empty;
      i := i + 1;
    }
    assert dst[d..d + len] == old(src[s..s + len]);
  }

  /** a[i - m] := a[i] for i in [m, n): the values from m on move down by m. */
  method ShiftDown<T>(a: array<T>, m: nat, n: nat)
    requires m <= n <= a.Length
    modifies a
    ensures a[..n - m] == old(a[m..n])
  {
    var i := m;
    while i < n
      invariant m <= i <= n
      invariant forall t :: m <= t < i ==> a[t - m] == old(a[t])
      invariant forall t :: i <= t < a.Length ==> a[t] == old(a[t])
    {
      a[i - m] := a[i];
      i := i + 1;
    }
    assert a[..n - m] == old(a[m..n]);
  }

  /** The child loop of rebalance_right_to_left: n children move down by m, each vacated slot cleared. */
  method ShiftDownClear<T>(a: array<T>, m: nat, n: nat, empty: T)
    requires 1 <= m <= n <= a.Length
    modifies a
    ensures a[..n - m] == old(a[m..n])
  {
    var i := 0;
    while i < n - m
      invariant 0 <= i <= n - m
      invariant forall t :: m <= t < i + m ==> a[t - m] == old(a[t])
      invariant forall t :: i + m <= t < a.Length ==> a[t] == old(a[t])
    {
      a[i] := a[i + m];
      a[i + m] := empty;
      i := i + 1;
    }
    assert a[..n - m] == old(a[m..n]);
  }

  /** a[i + m] := a[i] from the top down: the first n values move up by m. */
  method ShiftUp<T>(a: array<T>, m: nat, n: nat)
    requires n + m <= a.Length
    modifies a
    ensures a[m..m + n] == old(a[..n]) && a[m + n..] == old(a[m + n..])
  {
    var i := n;
    while i > 0
      invariant 0 <= i <= n
      invariant forall t :: 0 <= t < i ==> a[t] == old(a[t])
      invariant forall t :: i + m <= t < n + m ==> a[t] == old(a[t - m])
      invariant forall t :: m + n <= t < a.Length ==> a[t] == old(a[t])
    {
      i := i - 1;
      a[i + m] := a[i];
    }
    assert a[m..m + n] == old(a[..n]);
  }

  /** The child loop of rebalance_left_to_right: n children move up by m, each vacated slot cleared. */
  method ShiftUpClear<T>(a: array<T>, m: nat, n: nat, empty: T)
    requires 1 <= m && n + m <= a.Length
    modifies a
    ensures a[m..m + n] == old(a[..n]) && a[m + n..] == old(a[m + n..])
  {
    var i := n;
    while i > 0
      invariant 0 <= i <= n
      invariant forall t :: 0 <= t < i ==> a[t] == old(a[t])
      invariant forall t :: i + m <= t < n + m ==> a[t] == old(a[t - m])
      invariant forall t :: m + n <= t < a.Length ==> a[t] == old(a[t])
    {
      i := i - 1;
      a[i + m] := a[i];
      a[i] := empty;
    }
    assert a[m..m + n] == old(a[..n]);
  }

  /** dst[n] := sep and then the copy loop of the first m values of src to just after it. */
  method AppendAfter<T>(dst: array<T>, n: nat, sep: T, src: array<T>, m: nat)
    requires src != dst && m <= src.Length && n + 1 + m <= dst.Length
    modifies dst
    ensures dst[..n + 1 + m] == old(dst[..n]) + [sep] + src[..m]
  {
    ghost var A := dst[..n];
    dst[n] := sep;
    Copy(src, 0, dst, n + 1, m);
    assert dst[..n + 1 + m] == dst[..n] + [dst[n]] + dst[n + 1..n + 1 + m];
  }

  /** The copy loop of the first m values of src to dst[n..]. */
  method Append<T>(dst: array<T>, n: nat, src: array<T>, m: nat)
    requires src != dst && m <= src.Length && n + m <= dst.Length
    modifies dst
    ensures dst[..n + m] == old(dst[..n]) + src[..m]
  {
    Copy(src, 0, dst, n, m);
    assert dst[..n + m] == dst[..n] + dst[n..n + m];
  }

  /** As Append, clearing each slot of src that a value leaves. */
  method AppendClear<T>(dst: array<T>, n: nat, src: array<T>, m: nat, empty: T)
    requires src != dst && m <= src.Length && n + m <= dst.Length
    modifies dst, src
    ensures dst[..n + m] == old(dst[..n]) + old(src[..m])
  {
    Transfer(src, 0, dst, n, m, empty);
    assert dst[..n + m] == dst[..n] + dst[n..n + m];
  }

  /**
   * The loops of rebalance_left_to_right on dest's values: its first dn
   * values move up by len + 1, sep goes in just before them and
   * src[s..s + len] in front.
   */
  method PrependAfter<T>(dst: array<T>, dn: nat, sep: T, src: array<T>, s: nat, len: nat)
    requires src != dst && s + len <= src.Length && dn + len + 1 <= dst.Length
    modifies dst
    ensures dst[..len + 1 + dn] == src[s..s + len] + [sep] + old(dst[..dn])
  {
    ShiftUp(dst, len + 1, dn);
    dst[len] := sep;
    Copy(src, s, dst, 0, len);
    assert dst[..len + 1 + dn] == dst[..len] + [dst[len]] + dst[len + 1..len + 1 + dn];
  }

  /**
   * The child loops of rebalance_left_to_right: dest's first dn children
   * move up by len (their old slots cleared), and src[s..s + len] is
   * moved in front of them (its slots cleared).
   */
  method PrependClear<T>(dst: array<T>, dn: nat, src: array<T>, s: nat, len: nat, empty: T)
    requires src != dst && s + len <= src.Length && dn + len <= dst.Length && 1 <= len
    modifies dst, src
    ensures dst[..len + dn] == old(src[s..s + len]) + old(dst[..dn])
    ensures src[..s] == old(src[..s])
  {
    ShiftUpClear(dst, len, dn, empty);
    Transfer(src, s, dst, 0, len, empty);
    assert dst[..len + dn] == dst[..len] + dst[len..len + dn];
  }
}
