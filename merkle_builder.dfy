/**
 * `compute_merkle_root`: repeatedly pair up the level, duplicating the last
 * element of an odd level, and replace each pair (a, b) by
 * `poseidon_hash_single(a + b)` until one element remains.
 */
module MerkleBuilder {
  import opened Wrappers

  /** A Python list of integers, updated in place by `append`. */
  class HashList {
    var items: seq<nat>

    constructor (xs: seq<nat>)
      ensures items == xs
    {
      items := xs;
    }

    method Append(x: nat)
      modifies this
      ensures items == old(items) + [x]
    {
      items := items + [x];
    }
  }

  function Last(xs: seq<nat>): nat
    requires |xs| > 0
  {
    xs[|xs| - 1]
  }

  /** An odd level gets a copy of its last element; the result is even and extends the level. */
  function Pad(level: seq<nat>): (r: seq<nat>)
    ensures |r| % 2 == 0 && |level| <= |r| <= |level| + 1 && r[..|level|] == level
    ensures |level| > 0 ==> Last(r) == Last(level)
  {
    if |level| % 2 != 0 then level + [Last(level)] else level
  }

  /** The level above an even-length level: each adjacent pair combined by `h(a + b)`. */
  function NextLevel(h: nat -> nat, level: seq<nat>): (r: seq<nat>)
    requires |level| % 2 == 0
    ensures |r| == |level| / 2
    decreases |level|
  {
    if level == [] then [] else [h(level[0] + level[1])] + NextLevel(h, level[2..])
  }

  /** The root of a level; `None` is the `IndexError` of `hashes[0]` on an empty list. */
  function Root(h: nat -> nat, level: seq<nat>): (r: Option<nat>)
    ensures r.Some? <==> |level| > 0
    decreases |level|
  {
    if |level| == 0 then None
    else if |level| == 1 then Some(level[0])
    else Root(h, NextLevel(h, Pad(level)))
  }

  /** What `compute_merkle_root` appends to its caller's list: one copy of the last element, on an odd list of two or more. */
  function CallerAppend(xs: seq<nat>): seq<nat> {
    if |xs| > 1 && |xs| % 2 != 0 then [Last(xs)] else []
  }

  /** Element `i` of the next level combines elements `2i` and `2i + 1`. */
  lemma {:induction false} NextLevelAt(h: nat -> nat, level: seq<nat>, i: nat)
    requires |level| % 2 == 0 && i < |level| / 2
    ensures NextLevel(h, level)[i] == h(level[2 * i] + level[2 * i + 1])
    decreases i
  {
    if i > 0 {
      NextLevelAt(h, level[2..], i - 1);
    }
  }

  /** A list that has the pairwise elements is the next level. */
  lemma NextLevelFromElements(h: nat -> nat, level: seq<nat>, r: seq<nat>)
    requires |level| % 2 == 0 && |r| == |level| / 2
    requires forall i :: 0 <= i < |r| ==> r[i] == h(level[2 * i] + level[2 * i + 1])
    ensures r == NextLevel(h, level)
  {
    forall i | 0 <= i < |r|
      ensures r[i] == NextLevel(h, level)[i]
    {
      NextLevelAt(h, level, i);
    }
  }

  /** Each round maps a level of `n >= 2` elements to one of `ceil(n / 2)`. */
  lemma RoundHalves(h: nat -> nat, level: seq<nat>)
    requires |level| >= 2
    ensures |NextLevel(h, Pad(level))| == (|level| + 1) / 2 < |level|
  {
  }

  /** The root of an empty list is undefined. */
  lemma RootEmpty(h: nat -> nat)
    ensures Root(h, []) == None
  {
  }

  /** A single leaf is its own root, with no combination at all. */
  lemma RootSingle(h: nat -> nat, x: nat)
    ensures Root(h, [x]) == Some(x)
  {
  }

  /**
   * Odd padding is by duplication: on an odd list of three or more, appending
   * another copy of the last element does not change the root.
   */
  lemma RootOddPadding(h: nat -> nat, xs: seq<nat>)
    requires |xs| >= 3 && |xs| % 2 == 1
    ensures Root(h, xs + [Last(xs)]) == Root(h, xs)
  {
    var ys := xs + [Last(xs)];
    PadEven(xs);
    assert Pad(xs) == ys;
    assert Pad(ys) == ys;
    RootStep(h, xs);
    RootStep(h, ys);
  }

  /** Two equal leaves are combined, unlike a single leaf, which is its own root. */
  lemma RootPairOfEqual(h: nat -> nat, x: nat)
    ensures Root(h, [x, x]) == Some(h(x + x))
  {
    assert NextLevel(h, [x, x]) == [h(x + x)];
    assert Pad([x, x]) == [x, x];
  }

  /** Three leaves: the third is paired with its own copy. */
  lemma RootThree(h: nat -> nat, a: nat, b: nat, c: nat)
    ensures Root(h, [a, b, c]) == Some(h(h(a + b) + h(c + c)))
  {
    assert Pad([a, b, c]) == [a, b, c, c];
    assert NextLevel(h, [a, b, c, c]) == [h(a + b), h(c + c)] by {
      assert [a, b, c, c][2..] == [c, c];
      assert NextLevel(h, [c, c]) == [h(c + c)];
    }
    var top := [h(a + b), h(c + c)];
    assert Pad(top) == top;
    assert NextLevel(h, top) == [h(h(a + b) + h(c + c))];
    assert Root(h, [a, b, c]) == Root(h, top);
    assert Root(h, top) == Root(h, [h(h(a + b) + h(c + c))]);
  }

  /** Four leaves give `h(h(a + b) + h(c + d))`. */
  lemma RootFour(h: nat -> nat, a: nat, b: nat, c: nat, d: nat)
    ensures Root(h, [a, b, c, d]) == Some(h(h(a + b) + h(c + d)))
  {
    assert Pad([a, b, c, d]) == [a, b, c, d];
    assert NextLevel(h, [a, b, c, d]) == [h(a + b), h(c + d)] by {
      assert [a, b, c, d][2..] == [c, d];
      assert NextLevel(h, [c, d]) == [h(c + d)];
    }
    var top := [h(a + b), h(c + d)];
    assert Pad(top) == top;
    assert NextLevel(h, top) == [h(h(a + b) + h(c + d))];
    assert Root(h, [a, b, c, d]) == Root(h, top);
    assert Root(h, top) == Root(h, [h(h(a + b) + h(c + d))]);
  }

  /**
   * A node is `h(a + b)`, symmetric in its children: swapping two leaves that
   * are siblings (positions `2k` and `2k + 1`) leaves the root unchanged, so
   * the root does not commit to their order.
   */
  lemma SiblingSwap(h: nat -> nat, xs: seq<nat>, k: nat)
    requires 2 * k + 1 < |xs|
    ensures Root(h, xs[2 * k := xs[2 * k + 1]][2 * k + 1 := xs[2 * k]]) == Root(h, xs)
  {
    var ys := xs[2 * k := xs[2 * k + 1]][2 * k + 1 := xs[2 * k]];
    var px, py := Pad(xs), Pad(ys);
    assert |px| == |py|;
    assert forall i :: 0 <= i < |px| && i != 2 * k && i != 2 * k + 1 ==> py[i] == px[i];
    assert py[2 * k] == px[2 * k + 1] && py[2 * k + 1] == px[2 * k];
    forall i | 0 <= i < |px| / 2
      ensures NextLevel(h, py)[i] == NextLevel(h, px)[i]
    {
      NextLevelAt(h, px, i);
      NextLevelAt(h, py, i);
      if i == k {
        assert py[2 * i] + py[2 * i + 1] == px[2 * i] + px[2 * i + 1];
      }
    }
    assert NextLevel(h, py) == NextLevel(h, px);
  }

  /** In particular two leaves commit to their sum only: `[a, b]` and `[b, a]` share a root. */
  lemma TwoLeavesUnordered(h: nat -> nat, a: nat, b: nat)
    ensures Root(h, [a, b]) == Root(h, [b, a])
  {
    SiblingSwap(h, [a, b], 0);
    assert [a, b][0 := b][1 := a] == [b, a];
  }

  /**
   * Order does matter across pairs: with a pair hash that squares, exchanging the
   * second and third of four leaves changes the root.
   */
  lemma OrderMattersAcrossPairs(h: nat -> nat)
    requires forall x: nat :: h(x) == x * x
    ensures Root(h, [1, 2, 3, 4]) != Root(h, [1, 3, 2, 4])
  {
    RootFour(h, 1, 2, 3, 4);
    RootFour(h, 1, 3, 2, 4);
    assert h(h(1 + 2) + h(3 + 4)) == 3364;
    assert h(h(1 + 3) + h(2 + 4)) == 2704;
  }

  lemma PadEven(xs: seq<nat>)
    ensures |Pad(xs)| % 2 == 0 && |Pad(xs)| >= |xs|
  {
  }

  /** A root is one of the leaves (a batch of one) or a value of the pair hash. */
  lemma {:induction false} RootIsLeafOrPairHash(h: nat -> nat, xs: seq<nat>)
    requires |xs| > 0
    ensures (|xs| == 1 && Root(h, xs) == Some(xs[0])) || (|xs| > 1 && exists x :: Root(h, xs) == Some(h(x)))
    decreases |xs|
  {
    if |xs| > 1 {
      var up := NextLevel(h, Pad(xs));
      RootIsLeafOrPairHash(h, up);
      if |up| == 1 {
        assert Root(h, xs) == Some(h(Pad(xs)[0] + Pad(xs)[1]));
      }
    }
  }

  /** One round of the loop: the root of a level of two or more is the root of the level above. */
  lemma RootStep(h: nat -> nat, xs: seq<nat>)
    requires |xs| >= 2
    ensures Root(h, xs) == Root(h, NextLevel(h, Pad(xs)))
  {
  }

  /**
   * The inner `for` loop of `compute_merkle_root`: a fresh `new_level` filled
   * by appending `h(level[i] + level[i + 1])` for `i = 0, 2, 4, ...`.
   */
  method PairLevel(h: nat -> nat, level: seq<nat>) returns (newLevel: HashList)
    requires |level| % 2 == 0
    ensures fresh(newLevel)
    ensures newLevel.items == NextLevel(h, level)
  {
    newLevel := new HashList([]);
    var i := 0;
    while i < |level|
      invariant 0 <= i <= |level| && i % 2 == 0
      invariant 2 * |newLevel.items| == i
      invariant forall j :: 0 <= j < |newLevel.items| ==> newLevel.items[j] == h(level[2 * j] + level[2 * j + 1])
      modifies newLevel
    {
      newLevel.Append(h(level[i] + level[i + 1]));
      i := i + 2;
    }
    NextLevelFromElements(h, level, newLevel.items);
  }

  /**
   * `compute_merkle_root(hashes)`.  The root is that of the list as passed in;
   * the caller's list is changed only by the one append of the first round.
   */
  method ComputeMerkleRoot(h: nat -> nat, hashes: HashList) returns (root: Option<nat>)
    modifies hashes
    ensures root == Root(h, old(hashes.items))
    ensures hashes.items == old(hashes.items) + CallerAppend(old(hashes.items))
  {
    var level := hashes;
    while |level.items| > 1
      invariant level == hashes || fresh(level)
      invariant Root(h, level.items) == Root(h, old(hashes.items))
      invariant level == hashes ==> hashes.items == old(hashes.items)
      invariant level != hashes ==> hashes.items == old(hashes.items) + CallerAppend(old(hashes.items))
      decreases |level.items|
    {
      ghost var before := level.items;
      if |level.items| % 2 != 0 {
        level.Append(level.items[|level.items| - 1]);
      }
      assert level.items == Pad(before);
      PadEven(before);
      var newLevel := PairLevel(h, level.items);
      RootStep(h, before);
      level := newLevel;
    }
    if |level.items| == 0 {
      root := None;
    } else {
      root := Some(level.items[0]);
    }
  }
}
