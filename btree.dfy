/**
 * The structural steps of btree in spp_btree.h that keep nodes between
 * half full and full: making room in a full node before an insertion
 * (rebalance_or_split), repairing a node that an erase left short
 * (try_merge_or_rebalance) and dropping an empty root (try_shrink). Each
 * works on a parent and two adjacent children and is stated as what it
 * does to the keys around the separator between them and to the position
 * an iterator designates there.
 */
module SppBtree {
  import opened SppBtreeNode

  /** A node and its two buffers, the locations its operations may change. */
  function Frame(n: Node?): set<object>
  {
    if n == null then {} else {n, n.values, n.children}
  }

  /**
   * Children s and s + 1 of an internal parent, around its separator s:
   * present, valid, different nodes with different buffers, of the same
   * kind and with room for nodeValues values each.
   */
  ghost predicate Adjacent(parent: Node, s: nat, nodeValues: nat)
    reads parent, parent.children
    reads if s + 1 < parent.children.Length then {parent.children[s], parent.children[s + 1]} else {}
  {
    && parent.Valid() && !parent.leaf && s < parent.count
    && var a := parent.children[s];
    && var b := parent.children[s + 1];
    && a != null && b != null && a.Valid() && b.Valid()
    && Apart(a, b) && Apart(a, parent) && Apart(b, parent)
    && a.leaf == b.leaf && a.maxCount == nodeValues && b.maxCount == nodeValues
  }

  /**
   * Where a position lies among the keys left + [separator] + right: at
   * its index in left, or past left and the separator.
   */
  function Place(inLeft: bool, leftCount: nat, at: nat): (r: nat)
    ensures inLeft ==> r == at
    ensures !inLeft ==> r > leftCount && r - leftCount - 1 == at
  {
    if inLeft then at else leftCount + 1 + at
  }

  /**
   * Moving keys from the right node through the separator to the left
   * one keeps the keys in order: what rebalance_right_to_left leaves
   * reads the same as what it started from.
   */
  lemma RotateLeft(a: seq<int>, s: int, b: seq<int>, l: seq<int>, p: int, r: seq<int>, m: nat)
    requires 1 <= m <= |r|
    requires a == l + [p] + r[..m - 1] && s == r[m - 1] && b == r[m..]
    ensures a + [s] + b == l + [p] + r
  {
    assert r == r[..m - 1] + [r[m - 1]] + r[m..];
  }

  /** The mirror image, for rebalance_left_to_right. */
  lemma RotateRight(a: seq<int>, s: int, b: seq<int>, l: seq<int>, p: int, r: seq<int>, m: nat)
    requires 1 <= m <= |l|
    requires a == l[..|l| - m] && s == l[|l| - m] && b == l[|l| - m + 1..] + [p] + r
    ensures a + [s] + b == l + [p] + r
  {
    assert l == l[..|l| - m] + [l[|l| - m]] + l[|l| - m + 1..];
  }

  /** What rebalance_or_split did to make room. */
  datatype Room = LeftTook(toMove: nat) | RightTook(toMove: nat) | SplitOff(dest: Node)

  /**
   * How many values rebalance_or_split moves into a left sibling holding
   * count of maxCount values when the insertion goes at insertPos: half its
   * room, or all of it when the insertion goes at the end, but at least
   * one; 0 when the sibling is full or would be left full while the
   * insertion position moves into it.
   */
  function LeftMove(count: nat, maxCount: nat, insertPos: nat): (r: nat)
    ensures count < maxCount && insertPos == maxCount ==> r == maxCount - count
    ensures r != 0 ==> r <= maxCount - count
    ensures r != 0 && insertPos < r ==> count + r < maxCount
    ensures r == 0 ==> count >= maxCount || (insertPos < maxCount && count + 1 == maxCount && insertPos == 0)
  {
    if count >= maxCount then 0
    else
      var half := (maxCount - count) / (1 + if insertPos < maxCount then 1 else 0);
      var m := if half < 1 then 1 else half;
      if insertPos - m >= 0 || count + m < maxCount then m else 0
  }

  /**
   * The same for a right sibling: half its room, or all of it when the
   * insertion goes first, but at least one; 0 when the sibling is full or
   * would be left full while the insertion position moves into it.
   */
  function RightMove(count: nat, maxCount: nat, nodeCount: nat, insertPos: nat): (r: nat)
    requires insertPos <= nodeCount
    ensures count < maxCount && insertPos == 0 && maxCount - count <= nodeCount ==> r == maxCount - count
    ensures r != 0 ==> r <= maxCount - count
    ensures r != 0 && insertPos + r > nodeCount ==> count + r < maxCount
    ensures r == 0 ==> count >= maxCount || (0 < insertPos && count + 1 == maxCount && insertPos == nodeCount)
                       || (insertPos == 0 && nodeCount < maxCount - count)
  {
    if count >= maxCount then 0
    else
      var half := (maxCount - count) / (1 + if insertPos > 0 then 1 else 0);
      var m := if half < 1 then 1 else half;
      if insertPos <= nodeCount - m || count + m < maxCount then m else 0
  }

  /**
   * The first attempt of rebalance_or_split, once LeftMove has chosen m:
   * m values of the full node go through the separator into its left
   * sibling, and the insertion goes into whichever of the two now holds
   * its place.
   */
  method IntoLeft(parent: Node, pos: nat, node: Node, insertPos: nat, nodeValues: nat, m: nat)
    returns (target: Node, at: nat)
    requires 0 < pos && Adjacent(parent, pos - 1, nodeValues) && parent.children[pos] == node
    requires node.count == node.maxCount && insertPos <= node.count
    requires var left := parent.children[pos - 1]; m != 0 && m == LeftMove(left.count, left.maxCount, insertPos)
    modifies Frame(node), Frame(parent.children[pos - 1]), parent.values
    ensures Adjacent(parent, pos - 1, nodeValues) && parent.count == old(parent.count)
    ensures target == parent.children[pos - 1] || target == node
    ensures target.count < target.maxCount && at <= target.count
    ensures parent.children[pos - 1].Keys() + [parent.Keys()[pos - 1]] + node.Keys()
            == old(parent.children[pos - 1].Keys() + [parent.Keys()[pos - 1]] + node.Keys())
    ensures Place(target == parent.children[pos - 1], parent.children[pos - 1].count, at)
            == old(parent.children[pos - 1].count) + 1 + insertPos
  {
    var left := parent.children[pos - 1];
    ghost var L, P, N := left.Keys(), parent.Keys(), node.Keys();
    left.RebalanceRightToLeft(node, m, parent, pos - 1);
    RotateLeft(left.Keys(), parent.Keys()[pos - 1], node.Keys(), L, P[pos - 1], N, m);
    if insertPos < m {
      target, at := left, insertPos - m + left.count + 1;
    } else {
      target, at := node, insertPos - m;
    }
  }

  /**
   * The second attempt of rebalance_or_split, once RightMove has chosen
   * m: the top m values of the full node go through the separator into
   * its right sibling.
   */
  method IntoRight(parent: Node, pos: nat, node: Node, insertPos: nat, nodeValues: nat, m: nat)
    returns (target: Node, at: nat)
    requires Adjacent(parent, pos, nodeValues) && parent.children[pos] == node
    requires node.count == node.maxCount && insertPos <= node.count
    requires var right := parent.children[pos + 1]; m != 0 && m == RightMove(right.count, right.maxCount, node.count, insertPos)
    modifies Frame(node), Frame(parent.children[pos + 1]), parent.values
    ensures Adjacent(parent, pos, nodeValues) && parent.count == old(parent.count)
    ensures target == node || target == parent.children[pos + 1]
    ensures target.count < target.maxCount && at <= target.count
    ensures node.Keys() + [parent.Keys()[pos]] + parent.children[pos + 1].Keys()
            == old(node.Keys() + [parent.Keys()[pos]] + parent.children[pos + 1].Keys())
    ensures Place(target == node, node.count, at) == insertPos
  {
    var right := parent.children[pos + 1];
    ghost var N, P, R := node.Keys(), parent.Keys(), right.Keys();
    node.RebalanceLeftToRight(right, m, parent, pos);
    RotateRight(node.Keys(), parent.Keys()[pos], right.Keys(), N, P[pos], R, m);
    target, at := node, insertPos;
    if insertPos > node.count {
      target, at := right, insertPos - node.count - 1;
    }
  }

  /**
   * The last resort of rebalance_or_split below the root: a new node of
   * the same kind takes the top of this one through split, the separator
   * going into the parent, which must have room; the insertion goes into
   * whichever half now holds its place.
   */
  method SplitChild(parent: Node, pos: nat, node: Node, insertPos: nat, nodeValues: nat)
    returns (dest: Node, target: Node, at: nat)
    requires parent.Valid() && !parent.leaf && pos <= parent.count < parent.maxCount
    requires parent.children[pos] == node && node.Valid() && Apart(node, parent)
    requires node.maxCount == nodeValues && 1 <= node.count == node.maxCount && insertPos <= node.count
    modifies Frame(node), Frame(parent)
    ensures fresh(Frame(dest)) && dest.Valid() && node.Valid() && parent.Valid()
    ensures dest.leaf == node.leaf && dest.maxCount == nodeValues
    ensures Apart(node, dest) && Apart(dest, parent)
    ensures parent.count == old(parent.count) + 1
    ensures parent.Kids() == old(parent.Kids())[..pos + 1] + [dest] + old(parent.Kids())[pos + 1..]
    ensures node.Keys() + [parent.Keys()[pos]] + dest.Keys() == old(node.Keys())
    ensures !node.leaf ==> node.Kids() + dest.Kids() == old(node.Kids())
    ensures parent.Keys()[..pos] + parent.Keys()[pos + 1..] == old(parent.Keys())
    ensures target == node || target == dest
    ensures target.count < target.maxCount && at <= target.count
    ensures Place(target == node, node.count, at) == insertPos
  {
    ghost var P := parent.Keys();
    dest := new Node(node.leaf, nodeValues);
    node.Split(dest, insertPos, parent, pos);
    assert parent.Keys()[..pos] + parent.Keys()[pos + 1..] == P;
    target, at := node, insertPos;
    if insertPos > node.count {
      target, at := dest, insertPos - node.count - 1;
    }
  }

  /**
   * rebalance_or_split on a full node below the root: first the left
   * sibling, then the right one, then a split. The split needs room in
   * the parent, which the caller provides.
   */
  method RebalanceOrSplit(parent: Node, pos: nat, node: Node, insertPos: nat, nodeValues: nat)
    returns (room: Room, target: Node, at: nat)
    requires parent.Valid() && !parent.leaf && pos <= parent.count < parent.maxCount
    requires parent.children[pos] == node && node.Valid() && Apart(node, parent)
    requires 0 < pos ==> Adjacent(parent, pos - 1, nodeValues)
    requires pos < parent.count ==> Adjacent(parent, pos, nodeValues)
    requires 0 < pos < parent.count ==> Apart(parent.children[pos - 1], parent.children[pos + 1])
    requires node.maxCount == nodeValues && 1 <= node.count == node.maxCount && insertPos <= node.count
    modifies Frame(node), Frame(parent)
    modifies if 0 < pos then Frame(parent.children[pos - 1]) else {}
    modifies if pos < parent.count then Frame(parent.children[pos + 1]) else {}
    ensures target.Valid() && target.count < target.maxCount && at <= target.count
    ensures parent.Valid() && node.Valid()
    ensures room.LeftTook? ==> 0 < pos && Adjacent(parent, pos - 1, nodeValues)
    ensures room.LeftTook? ==> (target == parent.children[pos - 1] || target == node) && parent.Kids() == old(parent.Kids())
    ensures room.LeftTook? ==>
      parent.children[pos - 1].Keys() + [parent.Keys()[pos - 1]] + node.Keys()
      == old(parent.children[pos - 1].Keys() + [parent.Keys()[pos - 1]] + node.Keys())
    ensures room.LeftTook? ==>
      Place(target == parent.children[pos - 1], parent.children[pos - 1].count, at)
      == old(parent.children[pos - 1].count) + 1 + insertPos
    ensures room.RightTook? ==> pos < parent.count && Adjacent(parent, pos, nodeValues)
    ensures room.RightTook? ==> (target == node || target == parent.children[pos + 1]) && parent.Kids() == old(parent.Kids())
    ensures room.RightTook? ==>
      node.Keys() + [parent.Keys()[pos]] + parent.children[pos + 1].Keys()
      == old(node.Keys() + [parent.Keys()[pos]] + parent.children[pos + 1].Keys())
    ensures room.RightTook? ==> Place(target == node, node.count, at) == insertPos
    ensures room.SplitOff? ==> fresh(room.dest) && room.dest.Valid() && (target == node || target == room.dest)
    ensures room.SplitOff? ==> parent.Kids() == old(parent.Kids())[..pos + 1] + [room.dest] + old(parent.Kids())[pos + 1..]
    ensures room.SplitOff? ==> node.Keys() + [parent.Keys()[pos]] + room.dest.Keys() == old(node.Keys())
    ensures room.SplitOff? ==> parent.Keys()[..pos] + parent.Keys()[pos + 1..] == old(parent.Keys())
    ensures room.SplitOff? ==> Place(target == node, node.count, at) == insertPos
  {
    var lm := if 0 < pos then LeftMove(parent.children[pos - 1].count, nodeValues, insertPos) else 0;
    if lm != 0 {
      target, at := IntoLeft(parent, pos, node, insertPos, nodeValues, lm);
      return LeftTook(lm), target, at;
    }
    var rm := if pos < parent.count then RightMove(parent.children[pos + 1].count, nodeValues, node.count, insertPos) else 0;
    if rm != 0 {
      target, at := IntoRight(parent, pos, node, insertPos, nodeValues, rm);
      return RightTook(rm), target, at;
    }
    var dest;
    dest, target, at := SplitChild(parent, pos, node, insertPos, nodeValues);
    room := SplitOff(dest);
  }

  /**
   * The full leaf root of internal_insert that is smaller than a full node:
   * a new leaf root of twice its size (at most nodeValues) takes its values
   * by swap, and the old root is released.
   */
  method GrowLeafRoot(root: Node, nodeValues: nat) returns (newRoot: Node)
    requires root.Valid() && root.leaf && 1 <= root.count == root.maxCount < nodeValues
    modifies Frame(root)
    ensures fresh(newRoot) && newRoot.Valid() && newRoot.leaf
    ensures newRoot.maxCount == if 2 * root.maxCount < nodeValues then 2 * root.maxCount else nodeValues
    ensures newRoot.Keys() == old(root.Keys()) && newRoot.count < newRoot.maxCount
  {
    var size := if 2 * root.maxCount < nodeValues then 2 * root.maxCount else nodeValues;
    newRoot := new Node(true, size);
    newRoot.Swap(root);
  }

  /**
   * rebalance_or_split on a full root, which has no siblings: a leaf root
   * becomes the only child of a new internal root; an internal root keeps
   * its place (it is where the tree's size lives) and swaps its contents
   * into a new internal node that becomes its only child. Either way the
   * node that now holds the values is split under the root.
   */
  method GrowRoot(root: Node, insertPos: nat, nodeValues: nat)
    returns (newRoot: Node, node: Node, dest: Node, target: Node, at: nat)
    requires root.Valid() && root.maxCount == nodeValues && 1 <= root.count == root.maxCount
    requires insertPos <= root.count
    modifies Frame(root)
    ensures newRoot.Valid() && node.Valid() && dest.Valid() && fresh(dest) && dest.leaf == node.leaf
    ensures root.leaf ==> fresh(newRoot) && node == root
    ensures !root.leaf ==> newRoot == root && fresh(node)
    ensures !newRoot.leaf && newRoot.count == 1 && newRoot.Kids() == [node, dest]
    ensures node.Keys() + newRoot.Keys() + dest.Keys() == old(root.Keys())
    ensures !node.leaf ==> node.Kids() + dest.Kids() == old(root.Kids())
    ensures target == node || target == dest
    ensures target.count < target.maxCount && at <= target.count
    ensures Place(target == node, node.count, at) == insertPos
  {
    if root.leaf {
      newRoot := new Node(false, nodeValues);
      newRoot.children[0] := root;
      node := root;
    } else {
      node := new Node(false, nodeValues);
      node.children[0] := node;
      node.Swap(root);
      newRoot := root;
    }
    dest, target, at := SplitChild(newRoot, 0, node, insertPos, nodeValues);
    assert newRoot.Keys() == [newRoot.Keys()[0]];
  }

  /** What try_merge_or_rebalance does with a node left short by an erase. */
  datatype Repair = MergeLeft | MergeRight | FromRight(toMove: nat) | FromLeft(toMove: nat) | Kept

  /**
   * The choice of try_merge_or_rebalance for the node at position pos of a
   * parent holding parentCount values, the node holding nodeCount and its
   * siblings leftCount and rightCount (meaningful only where they exist),
   * with the iterator at iterPos: merge into the left sibling if the two
   * and the separator fit one node, else merge the right sibling in, else
   * take values from a right sibling above the minimum (unless the erase
   * was at the front of a non-empty node), else from a left one (unless it
   * was at the back); a donor gives half the difference, keeping one.
   */
  function Choose(pos: nat, parentCount: nat, leftCount: nat, nodeCount: nat, rightCount: nat,
                  iterPos: nat, maxCount: nat): (r: Repair)
    requires nodeCount < maxCount / 2
    ensures r.MergeLeft? ==> 0 < pos && 1 + leftCount + nodeCount <= maxCount
    ensures r.MergeRight? ==> pos < parentCount && 1 + nodeCount + rightCount <= maxCount
    ensures r.FromRight? ==>
      && pos < parentCount && 1 <= r.toMove < rightCount
      && nodeCount + r.toMove <= rightCount - r.toMove && (nodeCount == 0 || 0 < iterPos)
    ensures r.FromLeft? ==>
      && 0 < pos && 1 <= r.toMove < leftCount
      && nodeCount + r.toMove <= leftCount - r.toMove && (nodeCount == 0 || iterPos < nodeCount)
    ensures r.Kept? && 0 < pos ==> maxCount < 1 + leftCount + nodeCount
    ensures r.Kept? && pos < parentCount ==> maxCount < 1 + nodeCount + rightCount
  {
    var kMin := maxCount / 2;
    if 0 < pos && 1 + leftCount + nodeCount <= maxCount then MergeLeft
    else if pos < parentCount && 1 + nodeCount + rightCount <= maxCount then MergeRight
    else if pos < parentCount && rightCount > kMin && (nodeCount == 0 || iterPos > 0) then
      var half := (rightCount - nodeCount) / 2;
      FromRight(if half < rightCount - 1 then half else rightCount - 1)
    else if 0 < pos && leftCount > kMin && (nodeCount == 0 || iterPos < nodeCount) then
      var half := (leftCount - nodeCount) / 2;
      FromLeft(if half < leftCount - 1 then half else leftCount - 1)
    else Kept
  }

  /** The left merge of try_merge_or_rebalance: the node joins its left sibling. */
  method MergeIntoLeft(parent: Node, pos: nat, node: Node, iterPos: nat, nodeValues: nat)
    returns (left: Node, at: nat)
    requires 0 < pos && Adjacent(parent, pos - 1, nodeValues) && parent.children[pos] == node
    requires 1 + parent.children[pos - 1].count + node.count <= nodeValues && iterPos <= node.count
    modifies Frame(node), Frame(parent), Frame(parent.children[pos - 1])
    ensures left == old(parent.children[pos - 1]) && left.Valid() && parent.Valid() && at <= left.count
    ensures left.Keys() == old(left.Keys()) + [old(parent.Keys())[pos - 1]] + old(node.Keys())
    ensures at == old(left.count) + 1 + iterPos
    ensures parent.Keys() == old(parent.Keys())[..pos - 1] + old(parent.Keys())[pos..]
    ensures parent.Kids() == old(parent.Kids())[..pos] + old(parent.Kids())[pos + 1..]
  {
    left := parent.children[pos - 1];
    at := iterPos + 1 + left.count;
    left.Merge(node, parent, pos - 1);
  }

  /** The right merge of try_merge_or_rebalance: the right sibling joins the node. */
  method MergeFromRight(parent: Node, pos: nat, node: Node, nodeValues: nat)
    requires Adjacent(parent, pos, nodeValues) && parent.children[pos] == node
    requires 1 + node.count + parent.children[pos + 1].count <= nodeValues
    modifies Frame(node), Frame(parent), Frame(parent.children[pos + 1])
    ensures node.Valid() && parent.Valid() && node.count == old(node.count + 1 + parent.children[pos + 1].count)
    ensures node.Keys() == old(node.Keys()) + [old(parent.Keys())[pos]] + old(parent.children[pos + 1].Keys())
    ensures parent.Keys() == old(parent.Keys())[..pos] + old(parent.Keys())[pos + 1..]
    ensures parent.Kids() == old(parent.Kids())[..pos + 1] + old(parent.Kids())[pos + 2..]
  {
    node.Merge(parent.children[pos + 1], parent, pos);
  }

  /** The rebalance from the right of try_merge_or_rebalance: the iterator stays. */
  method TakeFromRight(parent: Node, pos: nat, node: Node, nodeValues: nat, m: nat)
    requires Adjacent(parent, pos, nodeValues) && parent.children[pos] == node
    requires 1 <= m && node.count + m <= parent.children[pos + 1].count - m
    modifies Frame(node), Frame(parent.children[pos + 1]), parent.values
    ensures Adjacent(parent, pos, nodeValues) && parent.count == old(parent.count)
    ensures node.count == old(node.count) + m && parent.Kids() == old(parent.Kids())
    ensures node.Keys() + [parent.Keys()[pos]] + parent.children[pos + 1].Keys()
            == old(node.Keys() + [parent.Keys()[pos]] + parent.children[pos + 1].Keys())
  {
    var right := parent.children[pos + 1];
    ghost var N, P, R := node.Keys(), parent.Keys(), right.Keys();
    node.RebalanceRightToLeft(right, m, parent, pos);
    RotateLeft(node.Keys(), parent.Keys()[pos], right.Keys(), N, P[pos], R, m);
  }

  /** The rebalance from the left of try_merge_or_rebalance: the iterator moves up by m. */
  method TakeFromLeft(parent: Node, pos: nat, node: Node, nodeValues: nat, m: nat)
    requires 0 < pos && Adjacent(parent, pos - 1, nodeValues) && parent.children[pos] == node
    requires 1 <= m && node.count + m <= parent.children[pos - 1].count - m
    modifies Frame(node), Frame(parent.children[pos - 1]), parent.values
    ensures Adjacent(parent, pos - 1, nodeValues) && parent.count == old(parent.count)
    ensures node.count == old(node.count) + m && parent.Kids() == old(parent.Kids())
    ensures parent.children[pos - 1].count == old(parent.children[pos - 1].count) - m
    ensures parent.children[pos - 1].Keys() + [parent.Keys()[pos - 1]] + node.Keys()
            == old(parent.children[pos - 1].Keys() + [parent.Keys()[pos - 1]] + node.Keys())
  {
    var left := parent.children[pos - 1];
    ghost var L, P, N := left.Keys(), parent.Keys(), node.Keys();
    left.RebalanceLeftToRight(node, m, parent, pos - 1);
    RotateRight(left.Keys(), parent.Keys()[pos - 1], node.Keys(), L, P[pos - 1], N, m);
  }

  /**
   * try_merge_or_rebalance on the node at position pos of parent, holding
   * fewer than half of nodeValues values after an erase, with the iterator
   * at iterPos in it. It reports whether a merge took place, in which case
   * the parent lost a value and the caller goes on up the tree.
   */
  method TryMergeOrRebalance(parent: Node, pos: nat, node: Node, iterPos: nat, nodeValues: nat)
    returns (merged: bool, repair: Repair, target: Node, at: nat)
    requires parent.Valid() && !parent.leaf && pos <= parent.count
    requires parent.children[pos] == node && node.Valid() && Apart(node, parent)
    requires 0 < pos ==> Adjacent(parent, pos - 1, nodeValues)
    requires pos < parent.count ==> Adjacent(parent, pos, nodeValues)
    requires 0 < pos < parent.count ==> Apart(parent.children[pos - 1], parent.children[pos + 1])
    requires node.maxCount == nodeValues && node.count < nodeValues / 2 && iterPos <= node.count
    modifies Frame(node), Frame(parent)
    modifies if 0 < pos then Frame(parent.children[pos - 1]) else {}
    modifies if pos < parent.count then Frame(parent.children[pos + 1]) else {}
    ensures merged <==> repair.MergeLeft? || repair.MergeRight?
    ensures target.Valid() && parent.Valid() && at <= target.count
    ensures repair.MergeLeft? ==> 0 < pos && target == old(parent.children[pos - 1])
    ensures repair.MergeLeft? ==>
      && target.Keys() == old(parent.children[pos - 1].Keys()) + [old(parent.Keys())[pos - 1]] + old(node.Keys())
      && at == old(parent.children[pos - 1].count) + 1 + iterPos
      && parent.Keys() == old(parent.Keys())[..pos - 1] + old(parent.Keys())[pos..]
      && parent.Kids() == old(parent.Kids())[..pos] + old(parent.Kids())[pos + 1..]
    ensures repair.MergeRight? ==> pos < old(parent.count) && target == node && at == iterPos
    ensures repair.MergeRight? ==>
      && node.Keys() == old(node.Keys()) + [old(parent.Keys())[pos]] + old(parent.children[pos + 1].Keys())
      && parent.Keys() == old(parent.Keys())[..pos] + old(parent.Keys())[pos + 1..]
      && parent.Kids() == old(parent.Kids())[..pos + 1] + old(parent.Kids())[pos + 2..]
    ensures repair.FromRight? ==> Adjacent(parent, pos, nodeValues) && target == node && at == iterPos
    ensures repair.FromRight? ==>
      && parent.Kids() == old(parent.Kids())
      && node.Keys() + [parent.Keys()[pos]] + parent.children[pos + 1].Keys()
         == old(node.Keys() + [parent.Keys()[pos]] + parent.children[pos + 1].Keys())
    ensures repair.FromLeft? ==> 0 < pos && Adjacent(parent, pos - 1, nodeValues) && target == node
    ensures repair.FromLeft? ==>
      && parent.Kids() == old(parent.Kids())
      && parent.children[pos - 1].Keys() + [parent.Keys()[pos - 1]] + node.Keys()
         == old(parent.children[pos - 1].Keys() + [parent.Keys()[pos - 1]] + node.Keys())
      && Place(false, parent.children[pos - 1].count, at) == old(parent.children[pos - 1].count) + 1 + iterPos
    ensures repair.Kept? ==> target == node && at == iterPos && unchanged(Frame(node), Frame(parent))
  {
    var lc := if 0 < pos then parent.children[pos - 1].count else 0;
    var rc := if pos < parent.count then parent.children[pos + 1].count else 0;
    repair := Choose(pos, parent.count, lc, node.count, rc, iterPos, nodeValues);
    merged, target, at := false, node, iterPos;
    match repair {
      case MergeLeft =>
        target, at := MergeIntoLeft(parent, pos, node, iterPos, nodeValues);
        merged := true;
      case MergeRight =>
        MergeFromRight(parent, pos, node, nodeValues);
        merged := true;
      case FromRight(m) =>
        TakeFromRight(parent, pos, node, nodeValues, m);
      case FromLeft(m) =>
        TakeFromLeft(parent, pos, node, nodeValues, m);
        at := iterPos + m;
      case Kept =>
    }
  }

  /**
   * try_shrink: a root that still holds values stays; an empty leaf root
   * leaves the tree empty; an empty internal root gives way to its only
   * child when that is a leaf, and otherwise takes the child's contents by
   * swap and stays.
   */
  method TryShrink(root: Node) returns (newRoot: Node?)
    requires root.Valid()
    requires root.count == 0 && !root.leaf ==>
      var child := root.children[0];
      child != null && child.Valid() && Apart(child, root) && child.maxCount == root.maxCount
    modifies Frame(root)
    modifies if root.count == 0 && !root.leaf then Frame(root.children[0]) else {}
    ensures old(root.count) > 0 ==> newRoot == root && unchanged(Frame(root))
    ensures old(root.count) == 0 && root.leaf ==> newRoot == null
    ensures old(root.count) == 0 && !root.leaf && old(root.children[0].leaf) ==>
      newRoot == old(root.children[0]) && unchanged(Frame(newRoot))
    ensures old(root.count) == 0 && !root.leaf && !old(root.children[0].leaf) ==>
      && newRoot == root && root.Valid()
      && root.Keys() == old(root.children[0].Keys()) && root.Kids() == old(root.children[0].Kids())
  {
    if root.count > 0 {
      return root;
    }
    if root.leaf {
      return null;
    }
    var child := root.children[0];
    if child.leaf {
      return child;
    }
    child.Swap(root);
    newRoot := root;
  }
}
