/** wiipax/client/LzFind.c: as long as no search is cut short, the trees forget nothing that
    matters. A position may lose its place to a later one, but only to one with the same bytes as
    far as comparisons will ever see. */
module LzFindCover {
  import opened Numbers
  import opened LzSuffixTree
  import opened LzFindTree
  import opened LzFindIndex

  /** i stands for the older position j. */
  predicate StandsFor(d: seq<byte>, i: nat, j: nat, limit: nat) {
    j <= i && Agree(d, i, j, limit)
  }

  predicate Covered(d: seq<byte>, t: Tree, j: nat, limit: nat) {
    exists i | i in Nodes(t) :: StandsFor(d, i, j, limit)
  }

  /** Every position in the ring is in its tree, or one that stands for it is. */
  ghost predicate CoveredAll(x: Text, trees: seq<Tree>, at: nat, limit: nat)
    requires TextOk(x)
  {
    forall j: nat | IsRecent(j, at, x.size) && HasKey(x, j) :: CoveredAt(x, trees, j, limit)
  }

  ghost predicate CoveredAt(x: Text, trees: seq<Tree>, j: nat, limit: nat)
    requires TextOk(x) && HasKey(x, j)
  {
    Key(x, j) < |trees| && Covered(x.d, trees[Key(x, j)], j, limit)
  }

  lemma AgreeSelf(d: seq<byte>, i: nat, n: nat)
    requires i + n <= |d|
    ensures Agree(d, i, i, n)
  {
    forall k | 0 <= k < n ensures SameAt(d, i, i, k) {
    }
  }

  // ----- A search -----

  /** A search that is not cut short loses at most a position that agrees with the new one. */
  lemma {:induction false} WalkKeeps(d: seq<byte>, t: Tree, cur: nat, limit: nat, cut: nat, maxLen: nat, i: nat)
    requires Ordered(d, t, limit) && cur + limit <= |d| && Older(t, cur) && Size(t) <= cut && i in Nodes(t)
    ensures var w := Walk(d, t, cur, limit, cut, maxLen);
      i in Nodes(w.less) || i in Nodes(w.more) || Agree(d, i, cur, limit)
    decreases t
  {
    hide Ordered, Lcp, Older;
    NodeFits(d, t, i, limit);
    Below(d, t, limit, cur);
    SizeBelow(t);
    var n := Lcp(d, t.i, cur, limit);
    if n < limit && i in Nodes(Toward(d, t, cur, n)) {
      WalkKeeps(d, Toward(d, t, cur, n), cur, limit, cut - 1, Longer(n, maxLen), i);
    }
  }

  lemma InsertedCovers(d: seq<byte>, t: Tree, cur: nat, limit: nat, cut: nat, maxLen: nat, j: nat)
    requires Ordered(d, t, limit) && cur + limit <= |d| && Older(t, cur) && Size(t) <= cut
    requires j == cur || Covered(d, t, j, limit)
    ensures Covered(d, Inserted(d, t, cur, limit, cut, maxLen), j, limit)
  {
    hide Ordered, Lcp, Older, Walk, Agree;
    var u := Inserted(d, t, cur, limit, cut, maxLen);
    assert cur in Nodes(u);
    if j == cur {
      AgreeSelf(d, cur, limit);
      assert StandsFor(d, cur, j, limit);
    } else {
      var i :| i in Nodes(t) && StandsFor(d, i, j, limit);
      WalkKeeps(d, t, cur, limit, cut, maxLen, i);
      if i in Nodes(u) {
        assert StandsFor(d, i, j, limit);
      } else {
        AgreeFlip(d, i, cur, limit);
        AgreeVia(d, cur, i, j, limit);
        NodeOlder(t, i, cur);
        assert StandsFor(d, cur, j, limit);
      }
    }
  }

  lemma NodeOlder(t: Tree, i: nat, cur: nat)
    requires Older(t, cur) && i in Nodes(t)
    ensures i < cur
  {
  }

  // ----- Aging -----

  /** Only what has left the ring is dropped, with what hangs below it and is older still. */
  lemma {:induction false} AgedKeeps(d: seq<byte>, t: Tree, limit: nat, at: nat, size: nat, i: nat)
    requires Ordered(d, t, limit) && i in Nodes(t) && at < i + size
    ensures i in Nodes(Aged(t, at, size))
    decreases t
  {
    hide AtMost, Room, AllAtMost, AllAtLeast;
    if i in Nodes(t.l) { AgedKeeps(d, t.l, limit, at, size, i); }
    if i in Nodes(t.r) { AgedKeeps(d, t.r, limit, at, size, i); }
  }

  lemma AgedCovers(d: seq<byte>, t: Tree, j: nat, at: nat, size: nat, limit: nat, limit': nat)
    requires Ordered(d, t, limit) && Covered(d, t, j, limit) && at < j + size && limit' <= limit
    ensures Covered(d, Aged(t, at, size), j, limit')
  {
    hide Ordered, Aged, Agree, Nodes;
    var i :| i in Nodes(t) && StandsFor(d, i, j, limit);
    AgedKeeps(d, t, limit, at, size, i);
    AgreeLess(d, i, j, limit, limit');
    assert StandsFor(d, i, j, limit');
  }

  // ----- The index -----

  /** A position that is not entered. */
  lemma CoverPassed(x: Text, hash: seq<nat>, son: seq<nat>, at: nat, pos: nat, limit: nat, limit': nat,
                    trees: seq<Tree>)
    requires TextOk(x) && TreesOk(x, hash, son, at, pos, limit, trees) && limit' <= limit && !HasKey(x, at)
    requires CoveredAll(x, trees, at, limit)
    ensures CoveredAll(x, AgedAll(trees, at + 1, x.size), at + 1, limit')
  {
    hide Key, TreeOk, Covered, Aged;
    forall j: nat | IsRecent(j, at + 1, x.size) && HasKey(x, j)
      ensures CoveredAt(x, AgedAll(trees, at + 1, x.size), j, limit')
    {
      assert CoveredAt(x, trees, j, limit);
      TreeOrdered(x, hash, son, at, pos, limit, trees, Key(x, j));
      AgedCovers(x.d, trees[Key(x, j)], j, at + 1, x.size, limit, limit');
    }
  }

  lemma TreeOrdered(x: Text, hash: seq<nat>, son: seq<nat>, at: nat, pos: nat, limit: nat, trees: seq<Tree>, h: nat)
    requires TextOk(x) && TreesOk(x, hash, son, at, pos, limit, trees) && h < |trees|
    ensures Ordered(x.d, trees[h], limit) && Older(trees[h], at)
  {
    hide Ordered, Older, Rep, Keyed;
    assert TreeOk(x, hash[h + FIX4], son, at, pos, limit, trees[h + FIX4 - FIX4], h + FIX4 - FIX4);
  }

  /** Entering a position with a search that is not cut short. */
  lemma CoverInserted(x: Text, hash: seq<nat>, son: seq<nat>, at: nat, pos: nat, limit: nat, limit': nat,
                      trees: seq<Tree>, cut: nat, maxLen: nat)
    requires TextOk(x) && TreesOk(x, hash, son, at, pos, limit, trees) && limit' <= limit
    requires HasKey(x, at) && Key(x, at) < |trees| && at + limit <= |x.d| && CoveredAll(x, trees, at, limit)
    requires Ordered(x.d, trees[Key(x, at)], limit) && Older(trees[Key(x, at)], at) && Size(trees[Key(x, at)]) <= cut
    ensures CoveredAll(x, Grown(x, trees, at, limit, Key(x, at), cut, maxLen), at + 1, limit')
  {
    hide Key, TreeOk, Covered, Aged, Ordered, Older, Walk, Inserted, Size;
    var h := Key(x, at);
    var u := Inserted(x.d, trees[h], at, limit, cut, maxLen);
    InsertedOrdered(x.d, trees[h], at, limit, cut, maxLen);
    forall j: nat | IsRecent(j, at + 1, x.size) && HasKey(x, j)
      ensures CoveredAt(x, Grown(x, trees, at, limit, h, cut, maxLen), j, limit')
    {
      if j < at { assert CoveredAt(x, trees, j, limit); }
      TreeOrdered(x, hash, son, at, pos, limit, trees, Key(x, j));
      if Key(x, j) == h {
        InsertedCovers(x.d, trees[h], at, limit, cut, maxLen, j);
        AgedCovers(x.d, u, j, at + 1, x.size, limit, limit');
      } else {
        AgedCovers(x.d, trees[Key(x, j)], j, at + 1, x.size, limit, limit');
      }
    }
  }

  lemma CoverEmpty(x: Text, trees: seq<Tree>, limit: nat)
    requires TextOk(x)
    ensures CoveredAll(x, trees, 0, limit)
  {
  }

  // ----- No search is cut short that may take as many steps as the ring has places -----

  lemma {:induction false} SizeIsNodes(d: seq<byte>, t: Tree, limit: nat)
    requires Ordered(d, t, limit)
    ensures Size(t) == |Nodes(t)|
    decreases t
  {
    hide AtMost, Room, AllAtMost, AllAtLeast, Lcp, Ordered;
    if t.Node? {
      OrderedParts(d, t, limit);
      SizeIsNodes(d, t.l, limit);
      SizeIsNodes(d, t.r, limit);
      assert t.i !in Nodes(t.l) && t.i !in Nodes(t.r);
      UnionSize(t.i, Nodes(t.l), Nodes(t.r));
    }
  }

  lemma UnionSize(i: nat, l: set<nat>, r: set<nat>)
    requires l !! r && i !in l && i !in r
    ensures |{i} + l + r| == 1 + |l| + |r|
  {
    assert |{i} + l| == 1 + |l|;
    assert ({i} + l) !! r;
  }

  lemma {:induction false} RangeSize(s: set<nat>, lo: int, n: nat)
    requires forall x | x in s :: lo <= x < lo + n
    ensures |s| <= n
    decreases n
  {
    if n == 0 {
      assert s == {};
    } else {
      RangeSize(s - {lo + n - 1}, lo, n - 1);
    }
  }

  lemma NotCut(x: Text, hash: seq<nat>, son: seq<nat>, at: nat, pos: nat, limit: nat, trees: seq<Tree>, h: nat)
    requires TextOk(x) && TreesOk(x, hash, son, at, pos, limit, trees) && h < |trees|
    ensures Size(trees[h]) <= x.size
  {
    hide Ordered, Older, Rep, Keyed, Size, Nodes;
    assert TreeOk(x, hash[h + FIX4], son, at, pos, limit, trees[h + FIX4 - FIX4], h + FIX4 - FIX4);
    RepRecent(son, x.size, at, pos, hash[h + FIX4], trees[h]);
    SizeIsNodes(x.d, trees[h], limit);
    forall y <- Nodes(trees[h]) ensures at - x.size <= y < at - x.size + x.size { assert IsRecent(y, at, x.size); }
    RangeSize(Nodes(trees[h]), at - x.size, x.size);
  }
}
