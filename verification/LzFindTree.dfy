/** wiipax/client/LzFind.c, GetMatchesSpec1 and SkipMatchesSpec: the trees in the cyclic array
    `son`, searched and split in one pass from the top. */
module LzFindTree {
  import opened Numbers
  import opened LzSuffixTree

  const EMPTY: nat := 0   // kEmptyHashValue

  /** The reference to position `i` when the current position `at` is called `pos`. */
  function RefTo(i: nat, at: nat, pos: nat): nat
    requires i <= at
  {
    if at - i <= pos then pos - (at - i) else EMPTY
  }

  /** The place of a position in the ring. */
  function Slot(i: nat, size: nat): (r: nat)
    requires size > 0
    ensures r < size
  {
    i % size
  }

  /** `v` leads to the tree: an old or empty reference to no tree, any other to the node of its
      position, whose children are in the position's slot. */
  predicate Rep(sons: seq<nat>, size: nat, at: nat, pos: nat, v: nat, t: Tree)
    requires size > 0 && |sons| == 2 * size
    decreases t
  {
    match t
    case Leaf => v + size <= pos
    case Node(i, l, r) =>
      i < at && at - i < size && pos == v + (at - i)
      && Rep(sons, size, at, pos, sons[2 * Slot(i, size)], l)
      && Rep(sons, size, at, pos, sons[2 * Slot(i, size) + 1], r)
  }

  /** No node of the tree owns the array element `ptr`. */
  predicate Avoids(t: Tree, size: nat, ptr: nat)
    requires size > 0
  {
    forall x | x in Nodes(t) :: Slot(x, size) != ptr / 2
  }

  lemma {:induction false} RepFrame(sons: seq<nat>, sons': seq<nat>, size: nat, at: nat, pos: nat, v: nat, t: Tree)
    requires size > 0 && |sons| == 2 * size == |sons'| && Rep(sons, size, at, pos, v, t)
    requires forall x | x in Nodes(t) :: SameSlot(sons, sons', Slot(x, size))
    ensures Rep(sons', size, at, pos, v, t)
    decreases t
  {
    if t.Node? {
      assert t.i in Nodes(t) && SameSlot(sons, sons', Slot(t.i, size));
      RepFrame(sons, sons', size, at, pos, sons[2 * Slot(t.i, size)], t.l);
      RepFrame(sons, sons', size, at, pos, sons[2 * Slot(t.i, size) + 1], t.r);
    }
  }

  predicate SameSlot(sons: seq<nat>, sons': seq<nat>, s: nat) {
    2 * s + 1 < |sons| == |sons'| && sons[2 * s] == sons'[2 * s] && sons[2 * s + 1] == sons'[2 * s + 1]
  }

  lemma RepWrite(sons: seq<nat>, size: nat, at: nat, pos: nat, v: nat, t: Tree, ptr: nat, x: nat)
    requires size > 0 && |sons| == 2 * size && ptr < |sons| && Rep(sons, size, at, pos, v, t) && Avoids(t, size, ptr)
    ensures Rep(sons[ptr := x], size, at, pos, v, t)
  {
    hide Rep, Nodes, Slot;
    forall y | y in Nodes(t) ensures SameSlot(sons, sons[ptr := x], Slot(y, size)) { assert Slot(y, size) != ptr / 2; }
    RepFrame(sons, sons[ptr := x], size, at, pos, v, t);
  }

  /** Positions closer than the size of the ring have different slots. */
  lemma SlotsDiffer(i: nat, j: nat, size: nat)
    requires i < j < i + size
    ensures Slot(i, size) != Slot(j, size)
  {
    if i % size == j % size {
      var a, b := i / size, j / size;
      assert size * (b - a) == j - i;
      MultipleGap(size, 0, b - a);
      assert false;
    }
  }

  /** The slot `delta` positions back. */
  lemma SlotBack(at: nat, delta: nat, size: nat)
    requires delta <= at && delta < size
    ensures var c := Slot(at, size);
      Slot(at - delta, size) == c - delta + if delta > c then size else 0
  {
    var q, c := at / size, at % size;
    if delta > c {
      assert q > 0 by { assert at == size * q + c; }
      assert at - delta == size * (q - 1) + (c - delta + size);
      QuotientUnique(at - delta, size, q - 1, c - delta + size);
    } else {
      QuotientUnique(at - delta, size, q, c - delta);
    }
  }

  // ----- What the walk writes -----

  /** The array after the walk from the two places `ptr0` and `ptr1` where the next greater and
      the next smaller part belong. */
  function Splice(d: seq<byte>, sons: seq<nat>, size: nat, at: nat, pos: nat, ptr0: nat, ptr1: nat, t: Tree,
                  limit: nat, cut: nat): (r: seq<nat>)
    requires size > 0 && |sons| == 2 * size && ptr0 < |sons| && ptr1 < |sons|
    requires Ordered(d, t, limit) && at + limit <= |d| && Older(t, at)
    ensures |r| == |sons|
    decreases t
  {
    if cut == 0 || t.Leaf? then sons[ptr0 := EMPTY][ptr1 := EMPTY]
    else
      Below(d, t, limit, at);
      var n := Lcp(d, t.i, at, limit);
      var pair := 2 * Slot(t.i, size);
      if n == limit then sons[ptr1 := sons[pair]][ptr0 := sons[pair + 1]]
      else if d[t.i + n] < d[at + n] then
        Splice(d, sons[ptr1 := RefTo(t.i, at, pos)], size, at, pos, ptr0, pair + 1, t.r, limit, cut - 1)
      else
        Splice(d, sons[ptr0 := RefTo(t.i, at, pos)], size, at, pos, pair, ptr1, t.l, limit, cut - 1)
  }

  /** Nodes lie within one turn of the ring. */
  predicate Recent(t: Tree, at: nat, size: nat) {
    forall x | x in Nodes(t) :: IsRecent(x, at, size)
  }

  predicate IsRecent(x: nat, at: nat, size: nat) {
    x < at < x + size
  }

  lemma {:induction false} RepRecent(sons: seq<nat>, size: nat, at: nat, pos: nat, v: nat, t: Tree)
    requires size > 0 && |sons| == 2 * size && Rep(sons, size, at, pos, v, t)
    ensures Recent(t, at, size)
    decreases t
  {
    if t.Node? {
      RepRecent(sons, size, at, pos, sons[2 * Slot(t.i, size)], t.l);
      RepRecent(sons, size, at, pos, sons[2 * Slot(t.i, size) + 1], t.r);
      forall x | x in Nodes(t) ensures IsRecent(x, at, size) {
        assert x == t.i || x in Nodes(t.l) || x in Nodes(t.r);
      }
    }
  }

  /** A recent position outside the tree: its slot is not the tree's. */
  lemma AvoidsOther(t: Tree, at: nat, size: nat, x: nat, ptr: nat)
    requires size > 0 && Recent(t, at, size) && IsRecent(x, at, size) && x !in Nodes(t) && ptr / 2 == Slot(x, size)
    ensures Avoids(t, size, ptr)
  {
    forall y | y in Nodes(t) ensures Slot(y, size) != ptr / 2 {
      assert IsRecent(y, at, size);
      if y < x { SlotsDiffer(y, x, size); } else { SlotsDiffer(x, y, size); }
    }
  }

  predicate Outside(sons: seq<nat>, sons': seq<nat>, size: nat, t: Tree, ptr0: nat, ptr1: nat)
    requires size > 0 && |sons| == |sons'|
  {
    forall k: nat | k < |sons| && k != ptr0 && k != ptr1 && Avoids(t, size, k) :: sons'[k] == sons[k]
  }

  predicate Apart(size: nat, t: Tree, ptr0: nat, ptr1: nat)
    requires size > 0
  {
    ptr0 != ptr1 && Avoids(t, size, ptr0) && Avoids(t, size, ptr1)
  }

  /** After a step towards `u`, the other subtree `o` and the node itself are out of reach of
      everything that follows. */
  lemma OtherKept(sons: seq<nat>, sons1: seq<nat>, sons': seq<nat>, size: nat, at: nat, pos: nat, t: Tree, u: Tree,
                  o: Tree, v: nat, done: nat, other: nat, link: nat)
    requires size > 0 && |sons| == 2 * size == |sons1| == |sons'| && t.Node? && Recent(t, at, size)
    requires Nodes(u) !! Nodes(o) && Nodes(t) == {t.i} + Nodes(u) + Nodes(o) && t.i !in Nodes(u) && t.i !in Nodes(o)
    requires done < |sons| && Avoids(t, size, done) && Avoids(t, size, other) && link / 2 == Slot(t.i, size)
    requires sons1 == sons[done := v] && Outside(sons1, sons', size, u, other, link) && done != other
    ensures sons'[done] == v
    ensures forall k | 0 <= k < |sons| && k / 2 == Slot(t.i, size) && k != link :: sons'[k] == sons[k]
    ensures forall w | Rep(sons, size, at, pos, w, o) :: Rep(sons', size, at, pos, w, o)
    ensures forall k: nat | k < |sons| && k != done && k != other && Avoids(t, size, k) :: sons'[k] == sons[k]
  {
    hide Rep, Nodes, Slot;
    Subset(t, u, at, size, done);
    assert IsRecent(t.i, at, size);
    forall k: nat | k < |sons| && k / 2 == Slot(t.i, size) && k != link ensures sons'[k] == sons[k] {
      AvoidsOther(u, at, size, t.i, k);
    }
    forall k: nat | k < |sons| && k != done && k != other && Avoids(t, size, k) ensures sons'[k] == sons[k] {
      Subset(t, u, at, size, k);
      assert k != link;
    }
    forall w | Rep(sons, size, at, pos, w, o) ensures Rep(sons', size, at, pos, w, o) {
      forall x | x in Nodes(o) ensures SameSlot(sons, sons', Slot(x, size)) {
        OtherSlot(sons, sons1, sons', size, at, t, u, o, done, other, link, x);
      }
      RepFrame(sons, sons', size, at, pos, w, o);
    }
  }

  lemma Subset(t: Tree, u: Tree, at: nat, size: nat, ptr: nat)
    requires size > 0 && Nodes(u) <= Nodes(t) && Recent(t, at, size)
    ensures Recent(u, at, size) && (Avoids(t, size, ptr) ==> Avoids(u, size, ptr))
  {
  }

  lemma OtherSlot(sons: seq<nat>, sons1: seq<nat>, sons': seq<nat>, size: nat, at: nat, t: Tree, u: Tree, o: Tree,
                  done: nat, other: nat, link: nat, x: nat)
    requires size > 0 && |sons| == 2 * size == |sons1| == |sons'| && Recent(t, at, size) && x in Nodes(o)
    requires Nodes(u) !! Nodes(o) && Nodes(u) <= Nodes(t) && Nodes(o) <= Nodes(t) && x != t.i
    requires t.Node? && t.i in Nodes(t) && link / 2 == Slot(t.i, size)
    requires done < |sons| && Avoids(t, size, done) && Avoids(t, size, other)
    requires (forall k | 0 <= k < |sons| && k != done :: sons1[k] == sons[k])
    requires Outside(sons1, sons', size, u, other, link)
    ensures SameSlot(sons, sons', Slot(x, size))
  {
    hide Nodes, Slot;
    assert IsRecent(x, at, size) && IsRecent(t.i, at, size);
    Subset(t, u, at, size, done);
    AvoidsOther(u, at, size, x, 2 * Slot(x, size));
    AvoidsOther(u, at, size, x, 2 * Slot(x, size) + 1);
    if x < t.i { SlotsDiffer(x, t.i, size); } else { SlotsDiffer(t.i, x, size); }
    assert x in Nodes(t);
    assert Slot(x, size) != done / 2 && Slot(x, size) != other / 2;
  }

  /** What the walk leaves behind: the smaller part at `ptr1`, the greater at `ptr0`, and nothing
      else changed outside the tree. */
  predicate Spliced(sons: seq<nat>, sons': seq<nat>, size: nat, at: nat, pos: nat, ptr0: nat, ptr1: nat,
                    t: Tree, less: Tree, more: Tree)
    requires size > 0 && |sons| == 2 * size == |sons'| && ptr0 < |sons| && ptr1 < |sons|
  {
    Rep(sons', size, at, pos, sons'[ptr1], less) && Rep(sons', size, at, pos, sons'[ptr0], more)
    && Outside(sons, sons', size, t, ptr0, ptr1)
  }

  lemma {:induction false} SpliceRep(d: seq<byte>, sons: seq<nat>, size: nat, at: nat, pos: nat, ptr0: nat, ptr1: nat,
                                     v: nat, t: Tree, limit: nat, cut: nat, maxLen: nat)
    requires 0 < size <= pos && |sons| == 2 * size && ptr0 < |sons| && ptr1 < |sons| && Apart(size, t, ptr0, ptr1)
    requires Ordered(d, t, limit) && at + limit <= |d| && Older(t, at)
    requires Rep(sons, size, at, pos, v, t)
    ensures var w := Walk(d, t, at, limit, cut, maxLen);
      Spliced(sons, Splice(d, sons, size, at, pos, ptr0, ptr1, t, limit, cut), size, at, pos, ptr0, ptr1, t, w.less,
        w.more)
    decreases t
  {
    hide Ordered, Lcp, Older, Apart, Recent, Outside, Nodes, Rep, Longer, Spliced, Slot;
    if cut == 0 || t.Leaf? {
      EndEmpty(sons, size, at, pos, ptr0, ptr1, t);
    } else {
      Below(d, t, limit, at);
      RepRecent(sons, size, at, pos, v, t);
      RepValue(sons, size, at, pos, v, t);
      var n := Lcp(d, t.i, at, limit);
      if n == limit {
        EndEqual(sons, size, at, pos, ptr0, ptr1, v, t);
      } else if d[t.i + n] < d[at + n] {
        SpliceRight(d, sons, size, at, pos, ptr0, ptr1, v, t, limit, cut, Longer(n, maxLen));
      } else {
        SpliceLeft(d, sons, size, at, pos, ptr0, ptr1, v, t, limit, cut, Longer(n, maxLen));
      }
    }
  }

  lemma RepValue(sons: seq<nat>, size: nat, at: nat, pos: nat, v: nat, t: Tree)
    requires size > 0 && |sons| == 2 * size && Rep(sons, size, at, pos, v, t) && t.Node?
    ensures t.i <= at && at - t.i <= pos && v == RefTo(t.i, at, pos)
  {
  }

  lemma EndEmpty(sons: seq<nat>, size: nat, at: nat, pos: nat, ptr0: nat, ptr1: nat, t: Tree)
    requires 0 < size <= pos && |sons| == 2 * size && ptr0 < |sons| && ptr1 < |sons| && Apart(size, t, ptr0, ptr1)
    ensures Spliced(sons, sons[ptr0 := EMPTY][ptr1 := EMPTY], size, at, pos, ptr0, ptr1, t, Leaf, Leaf)
  {
  }

  lemma {:induction false} EndEqual(sons: seq<nat>, size: nat, at: nat, pos: nat, ptr0: nat, ptr1: nat, v: nat, t: Tree)
    requires 0 < size <= pos && |sons| == 2 * size && ptr0 < |sons| && ptr1 < |sons| && Apart(size, t, ptr0, ptr1)
    requires t.Node? && Rep(sons, size, at, pos, v, t)
    ensures var pair := 2 * Slot(t.i, size);
      Spliced(sons, sons[ptr1 := sons[pair]][ptr0 := sons[pair + 1]], size, at, pos, ptr0, ptr1, t, t.l, t.r)
  {
    var pair := 2 * Slot(t.i, size);
    var a, b := sons[pair], sons[pair + 1];
    var s1 := sons[ptr1 := a];
    assert forall x | x in Nodes(t.l) :: x in Nodes(t);
    assert forall x | x in Nodes(t.r) :: x in Nodes(t);
    RepWrite(sons, size, at, pos, a, t.l, ptr1, a);
    RepWrite(s1, size, at, pos, a, t.l, ptr0, b);
    RepWrite(sons, size, at, pos, b, t.r, ptr1, a);
    RepWrite(s1, size, at, pos, b, t.r, ptr0, b);
  }

  lemma SpliceRight(d: seq<byte>, sons: seq<nat>, size: nat, at: nat, pos: nat, ptr0: nat, ptr1: nat,
                    v: nat, t: Tree, limit: nat, cut: nat, maxLen: nat)
    requires 0 < size <= pos && |sons| == 2 * size && ptr0 < |sons| && ptr1 < |sons| && Apart(size, t, ptr0, ptr1)
    requires Ordered(d, t, limit) && at + limit <= |d| && Older(t, at) && Recent(t, at, size)
    requires t.Node? && cut > 0 && Rep(sons, size, at, pos, v, t)
    requires Ordered(d, t.r, limit) && Older(t.r, at)
    ensures var w := Walk(d, t.r, at, limit, cut - 1, maxLen);
      Spliced(sons, Splice(d, sons[ptr1 := v], size, at, pos, ptr0, 2 * Slot(t.i, size) + 1, t.r, limit, cut - 1),
              size, at, pos, ptr0, ptr1, t, Node(t.i, t.l, w.less), w.more)
    decreases t, 0
  {
    hide Ordered, Lcp, Older, Avoids, Recent, Outside, Walk, Splice, Slot;
    var link := 2 * Slot(t.i, size) + 1;
    var s1 := sons[ptr1 := v];
    TreeParts(d, t, limit);
    StepApart(size, at, t, t.r, ptr0, ptr1, link);
    RepWrite(sons, size, at, pos, sons[link], t.r, ptr1, v);
    SpliceRep(d, s1, size, at, pos, ptr0, link, sons[link], t.r, limit, cut - 1, maxLen);
    var s' := Splice(d, s1, size, at, pos, ptr0, link, t.r, limit, cut - 1);
    OtherKept(sons, s1, s', size, at, pos, t, t.r, t.l, v, ptr1, ptr0, link);
    OutsideBack(sons, s', size, t, ptr0, ptr1);
    assert Rep(sons, size, at, pos, sons[link - 1], t.l);
  }

  lemma SpliceLeft(d: seq<byte>, sons: seq<nat>, size: nat, at: nat, pos: nat, ptr0: nat, ptr1: nat,
                   v: nat, t: Tree, limit: nat, cut: nat, maxLen: nat)
    requires 0 < size <= pos && |sons| == 2 * size && ptr0 < |sons| && ptr1 < |sons| && Apart(size, t, ptr0, ptr1)
    requires Ordered(d, t, limit) && at + limit <= |d| && Older(t, at) && Recent(t, at, size)
    requires t.Node? && cut > 0 && Rep(sons, size, at, pos, v, t)
    requires Ordered(d, t.l, limit) && Older(t.l, at)
    ensures var w := Walk(d, t.l, at, limit, cut - 1, maxLen);
      Spliced(sons, Splice(d, sons[ptr0 := v], size, at, pos, 2 * Slot(t.i, size), ptr1, t.l, limit, cut - 1),
              size, at, pos, ptr0, ptr1, t, w.less, Node(t.i, w.more, t.r))
    decreases t, 0
  {
    hide Ordered, Lcp, Older, Avoids, Recent, Outside, Walk, Splice, Slot;
    var link := 2 * Slot(t.i, size);
    var s1 := sons[ptr0 := v];
    TreeParts(d, t, limit);
    StepApart(size, at, t, t.l, ptr1, ptr0, link);
    RepWrite(sons, size, at, pos, sons[link], t.l, ptr0, v);
    ApartFlip(size, t.l, ptr1, link);
    SpliceRep(d, s1, size, at, pos, link, ptr1, sons[link], t.l, limit, cut - 1, maxLen);
    var s' := Splice(d, s1, size, at, pos, link, ptr1, t.l, limit, cut - 1);
    OutsideFlip(s1, s', size, t.l, link, ptr1);
    OtherKept(sons, s1, s', size, at, pos, t, t.l, t.r, v, ptr0, ptr1, link);
    OutsideBack(sons, s', size, t, ptr0, ptr1);
    assert Rep(sons, size, at, pos, sons[link + 1], t.r);
  }

  lemma TreeParts(d: seq<byte>, t: Tree, limit: nat)
    requires Ordered(d, t, limit) && t.Node?
    ensures Nodes(t) == {t.i} + Nodes(t.l) + Nodes(t.r) && Nodes(t.l) !! Nodes(t.r)
    ensures t.i !in Nodes(t.l) && t.i !in Nodes(t.r)
  {
    hide AllAtMost, AllAtLeast, Slot;
  }

  lemma StepApart(size: nat, at: nat, t: Tree, u: Tree, stay: nat, done: nat, link: nat)
    requires size > 0 && t.Node? && Recent(t, at, size) && Nodes(u) <= Nodes(t) && t.i !in Nodes(u)
    requires stay != done && Avoids(t, size, stay) && Avoids(t, size, done) && link / 2 == Slot(t.i, size)
    ensures Apart(size, u, stay, link) && Apart(size, u, link, stay) && Avoids(u, size, done) && link != done
    ensures link != stay
  {
    hide Nodes, Slot;
    NodeIn(t);
    assert IsRecent(t.i, at, size);
    Subset(t, u, at, size, stay);
    Subset(t, u, at, size, done);
    AvoidsOther(u, at, size, t.i, link);
  }

  lemma NodeIn(t: Tree)
    requires t.Node?
    ensures t.i in Nodes(t)
  {
  }

  lemma ApartFlip(size: nat, t: Tree, a: nat, b: nat)
    requires size > 0 && Apart(size, t, a, b)
    ensures Apart(size, t, b, a)
  {
  }

  lemma OutsideFlip(sons: seq<nat>, sons': seq<nat>, size: nat, t: Tree, a: nat, b: nat)
    requires size > 0 && |sons| == |sons'| && Outside(sons, sons', size, t, a, b)
    ensures Outside(sons, sons', size, t, b, a)
  {
  }

  lemma OutsideBack(sons: seq<nat>, sons': seq<nat>, size: nat, t: Tree, ptr0: nat, ptr1: nat)
    requires size > 0 && |sons| == |sons'|
    requires forall k: nat | k < |sons| && k != ptr0 && k != ptr1 && Avoids(t, size, k) :: sons'[k] == sons[k]
    ensures Outside(sons, sons', size, t, ptr0, ptr1)
  {
  }

  // ----- The search itself -----

  /** The window array shows the text around the current position: `win[c]` is the byte at `at`. */
  ghost predicate InWindow(win: seq<byte>, c: nat, d: seq<byte>, at: nat, j: nat) {
    0 <= c + j - at < |win| && j < |d| && win[c + j - at] == d[j]
  }

  ghost predicate Shows(win: seq<byte>, c: nat, d: seq<byte>, at: nat, size: nat, limit: nat) {
    at + limit <= |d| && forall j: nat | at < j + size && j < at + limit :: InWindow(win, c, d, at, j)
  }

  /** `while (++len != lenLimit) if (pb[len] != cur[len]) break;` after a first comparison: how
      far `delta` positions back agrees with the current position. */
  method MatchLen(win: array<byte>, c: nat, delta: nat, len0: nat, lenLimit: nat, ghost d: seq<byte>, ghost at: nat,
                  ghost size: nat) returns (len: nat)
    requires Shows(win[..], c, d, at, size, lenLimit) && 0 < delta <= at && delta < size && len0 < lenLimit
    ensures len == Common(d, at - delta, at, len0, lenLimit)
  {
    len := len0;
    Peek(win[..], c, d, at, size, lenLimit, delta, len);
    if win[c - delta + len] == win[c + len] {
      len := len + 1;
      while len != lenLimit
        invariant len0 <= len <= lenLimit
        invariant Common(d, at - delta, at, len, lenLimit) == Common(d, at - delta, at, len0, lenLimit)
      {
        Peek(win[..], c, d, at, size, lenLimit, delta, len);
        if win[c - delta + len] != win[c + len] { break; }
        len := len + 1;
      }
    }
  }

  lemma Peek(win: seq<byte>, c: nat, d: seq<byte>, at: nat, size: nat, limit: nat, delta: nat, k: nat)
    requires Shows(win, c, d, at, size, limit) && 0 < delta <= at && delta < size && k < limit
    ensures at + limit <= |d| && c >= delta && c + k < |win| && win[c - delta + k] == d[at - delta + k]
    ensures win[c + k] == d[at + k]
  {
    assert InWindow(win, c, d, at, at - delta + k) && InWindow(win, c, d, at, at + k) &&
      InWindow(win, c, d, at, at - delta);
  }

  /** A report as the caller's array has it: the length, and the distance less one. */
  function Pair(len: int, delta: int): seq<int> {
    [len, delta - 1]
  }

  function Pairs(found: seq<(nat, nat)>): seq<int> {
    if found == [] then [] else Pair(found[0].0, found[0].1) + Pairs(found[1..])
  }

  lemma PairsReport(n: nat, maxLen: nat, delta: nat, found: seq<(nat, nat)>)
    ensures Pairs(Report(n, maxLen, delta) + found)
      == (if maxLen < n then Pair(n, delta) else []) + Pairs(found)
    ensures Pairs(Report(n, maxLen, delta)) == if maxLen < n then Pair(n, delta) else []
  {
    if maxLen < n {
      assert ([(n, delta)] + found)[1..] == found;
      assert [(n, delta)][1..] == [];
      assert Pair(n, delta) + Pairs([]) == Pair(n, delta);
    } else {
      assert [] + found == found;
    }
  }

  /** Why the search may start comparing at `m`: every node of the tree has at least that much in
      common with the current position. */
  ghost predicate AllAgree(d: seq<byte>, t: Tree, at: nat, m: nat) {
    forall x | x in Nodes(t) :: Agree(d, x, at, m)
  }

  /** What bounds the search from below, with `len1` bytes in common, and from above, with
      `len0`; -1 is no bound. */
  ghost predicate Bounded(d: seq<byte>, t: Tree, at: nat, limit: nat, lo: int, hi: int, len0: nat, len1: nat) {
    at + limit <= |d| && Room(d, t, limit) && len0 <= limit && len1 <= limit
    && (if lo < 0 then len1 == 0 else Fits(d, lo, limit) && AllAtLeast(d, t, lo, limit) && Agree(d, lo, at, len1))
    && (if hi < 0 then len0 == 0 else Fits(d, hi, limit) && AllAtMost(d, t, hi, limit) && Agree(d, hi, at, len0))
  }

  /** The skipped bytes agree. */
  lemma SkipJustified(d: seq<byte>, t: Tree, at: nat, limit: nat, lo: int, hi: int, len0: nat, len1: nat)
    requires Bounded(d, t, at, limit, lo, hi, len0, len1)
    ensures AllAgree(d, t, at, if len0 < len1 then len0 else len1)
  {
    hide AtMost, Slot;
    var m := if len0 < len1 then len0 else len1;
    forall x | x in Nodes(t) ensures Agree(d, x, at, m) {
      assert Fits(d, x, limit);
      if m > 0 {
        AgreeLess(d, lo, at, len1, m);
        AgreeLess(d, hi, at, len0, m);
        AgreeFlip(d, hi, at, m);
        AgreeVia(d, lo, at, hi, m);
        Squeeze(d, lo, x, hi, m, limit);
        AgreeFlip(d, at, hi, m);
        AgreeVia(d, x, hi, at, m);
      }
    }
  }

  lemma BoundedRight(d: seq<byte>, t: Tree, at: nat, limit: nat, lo: int, hi: int, len0: nat, len1: nat, n: nat)
    requires t.Node? && Ordered(d, t, limit) && Bounded(d, t, at, limit, lo, hi, len0, len1) && Fits(d, t.i, limit)
    requires n == Lcp(d, t.i, at, limit)
    ensures Bounded(d, t.r, at, limit, t.i, hi, len0, n)
  {
    hide AtMost, Slot;
    TreeParts(d, t, limit);
    if hi >= 0 { BoundsKept(d, t, t.r, hi, limit); }
  }

  lemma BoundedLeft(d: seq<byte>, t: Tree, at: nat, limit: nat, lo: int, hi: int, len0: nat, len1: nat, n: nat)
    requires t.Node? && Ordered(d, t, limit) && Bounded(d, t, at, limit, lo, hi, len0, len1) && Fits(d, t.i, limit)
    requires n == Lcp(d, t.i, at, limit)
    ensures Bounded(d, t.l, at, limit, lo, t.i, n, len1)
  {
    hide AtMost, Slot;
    TreeParts(d, t, limit);
    if lo >= 0 { BoundsKept(d, t, t.l, lo, limit); }
  }

  /** What every call of a search demands: the tree behind `curMatch`, in order, and the window. */
  ghost predicate Searchable(d: seq<byte>, sons: seq<nat>, size: nat, at: nat, pos: nat, v: nat, t: Tree, limit: nat) {
    0 < size <= pos && |sons| == 2 * size && at + limit <= |d| && v <= pos
    && Ordered(d, t, limit) && Older(t, at) && Rep(sons, size, at, pos, v, t)
  }

  /** The loop's state: where the next parts belong, and the tree still to be split. */
  ghost predicate Walking(d: seq<byte>, sons: seq<nat>, size: nat, at: nat, pos: nat, ptr0: nat, ptr1: nat, v: nat,
                          t: Tree, limit: nat, lo: int, hi: int, len0: nat, len1: nat) {
    Searchable(d, sons, size, at, pos, v, t, limit) && ptr0 < |sons| && ptr1 < |sons| && Apart(size, t, ptr0, ptr1)
    && Bounded(d, t, at, limit, lo, hi, len0, len1) && len0 < limit && len1 < limit
  }

  lemma SearchableMeans(d: seq<byte>, sons: seq<nat>, size: nat, at: nat, pos: nat, v: nat, t: Tree, limit: nat)
    requires Searchable(d, sons, size, at, pos, v, t, limit)
    ensures 0 < size <= pos && |sons| == 2 * size && at + limit <= |d| && v <= pos
    ensures Ordered(d, t, limit) && Older(t, at)
  {
  }

  lemma WalkStarts(d: seq<byte>, sons: seq<nat>, size: nat, at: nat, pos: nat, v: nat, t: Tree, limit: nat)
    requires Searchable(d, sons, size, at, pos, v, t, limit) && limit > 0
    ensures Walking(d, sons, size, at, pos, 2 * Slot(at, size) + 1, 2 * Slot(at, size), v, t, limit, -1, -1, 0, 0)
  {
    hide Rep, Nodes, AllAtMost, AllAtLeast, Slot;
    RepRecent(sons, size, at, pos, v, t);
    forall x | x in Nodes(t) ensures Slot(x, size) != Slot(at, size) {
      assert IsRecent(x, at, size);
      SlotsDiffer(x, at, size);
    }
  }

  /** At a live reference there is a node, in the slot the code computes. */
  lemma AtNode(d: seq<byte>, sons: seq<nat>, size: nat, at: nat, pos: nat, ptr0: nat, ptr1: nat, v: nat, t: Tree,
               limit: nat, lo: int, hi: int, len0: nat, len1: nat)
    requires Walking(d, sons, size, at, pos, ptr0, ptr1, v, t, limit, lo, hi, len0, len1)
    ensures t.Leaf? <==> pos - v >= size
    ensures t.Node? ==> var delta := pos - v;
      0 < delta <= at && t.i == at - delta && v == RefTo(t.i, at, pos) && Fits(d, t.i, limit)
      && Slot(t.i, size) == Slot(at, size) - delta + if delta > Slot(at, size) then size else 0
  {
    hide Nodes, AllAtMost, AllAtLeast, Older, Slot;
    if t.Node? {
      SlotBack(at, pos - v, size);
      NodeIn(t);
    }
  }

  lemma FirstByte(d: seq<byte>, sons: seq<nat>, size: nat, at: nat, pos: nat, ptr0: nat, ptr1: nat, v: nat, t: Tree,
                  limit: nat, lo: int, hi: int, len0: nat, len1: nat)
    requires Walking(d, sons, size, at, pos, ptr0, ptr1, v, t, limit, lo, hi, len0, len1) && t.Node?
    ensures var m := if len0 < len1 then len0 else len1;
      Fits(d, t.i, limit) && Common(d, t.i, at, m, limit) == Lcp(d, t.i, at, limit) >= m
      && (d[t.i + m] != d[at + m] ==> Lcp(d, t.i, at, limit) == m)
  {
    hide Rep, Ordered, Slot;
    var m := if len0 < len1 then len0 else len1;
    SkipJustified(d, t, at, limit, lo, hi, len0, len1);
    NodeIn(t);
    assert Fits(d, t.i, limit);
    CommonFrom(d, t.i, at, 0, m, limit);
    AgreeAt(d, t.i, at, Lcp(d, t.i, at, limit), m);
  }

  lemma RepParts(sons: seq<nat>, size: nat, at: nat, pos: nat, v: nat, t: Tree)
    requires size > 0 && |sons| == 2 * size && Rep(sons, size, at, pos, v, t) && t.Node?
    ensures Rep(sons, size, at, pos, sons[2 * Slot(t.i, size)], t.l)
    ensures Rep(sons, size, at, pos, sons[2 * Slot(t.i, size) + 1], t.r)
  {
  }

  lemma ApartMeans(size: nat, t: Tree, ptr0: nat, ptr1: nat)
    requires size > 0
    ensures Apart(size, t, ptr0, ptr1) <==> ptr0 != ptr1 && Avoids(t, size, ptr0) && Avoids(t, size, ptr1)
  {
  }

  lemma GoneRight(d: seq<byte>, sons: seq<nat>, size: nat, at: nat, pos: nat, ptr0: nat, ptr1: nat, v: nat, t: Tree,
                  limit: nat, lo: int, hi: int, len0: nat, len1: nat, cut: nat, n: nat)
    requires Walking(d, sons, size, at, pos, ptr0, ptr1, v, t, limit, lo, hi, len0, len1) && t.Node? && cut > 0
    requires Fits(d, t.i, limit) && n == Lcp(d, t.i, at, limit) < limit && d[t.i + n] < d[at + n]
    requires v == RefTo(t.i, at, pos)
    ensures var link := 2 * Slot(t.i, size) + 1; var s1 := sons[ptr1 := v];
      link < |sons| && link != ptr0 && Walking(d, s1, size, at, pos, ptr0, link, s1[link], t.r, limit, t.i, hi, len0, n)
      && Ordered(d, t.r, limit) && Older(t.r, at) && s1[link] <= pos
      && Splice(d, sons, size, at, pos, ptr0, ptr1, t, limit, cut)
         == Splice(d, s1, size, at, pos, ptr0, link, t.r, limit, cut - 1)
  {
    hide Lcp, Bounded, Older, Apart, Avoids, Recent, Nodes, Ordered, Slot, Rep;
    RepParts(sons, size, at, pos, v, t);
    ApartMeans(size, t, ptr0, ptr1);
    var link := 2 * Slot(t.i, size) + 1;
    Below(d, t, limit, at);
    TreeParts(d, t, limit);
    RepRecent(sons, size, at, pos, v, t);
    StepApart(size, at, t, t.r, ptr0, ptr1, link);
    RepWrite(sons, size, at, pos, sons[link], t.r, ptr1, v);
    BoundedRight(d, t, at, limit, lo, hi, len0, len1, n);
    RepBound(sons, size, at, pos, sons[link], t.r);
  }

  lemma GoneLeft(d: seq<byte>, sons: seq<nat>, size: nat, at: nat, pos: nat, ptr0: nat, ptr1: nat, v: nat, t: Tree,
                 limit: nat, lo: int, hi: int, len0: nat, len1: nat, cut: nat, n: nat)
    requires Walking(d, sons, size, at, pos, ptr0, ptr1, v, t, limit, lo, hi, len0, len1) && t.Node? && cut > 0
    requires Fits(d, t.i, limit) && n == Lcp(d, t.i, at, limit) < limit && d[t.i + n] > d[at + n]
    requires v == RefTo(t.i, at, pos)
    ensures var link := 2 * Slot(t.i, size); var s1 := sons[ptr0 := v];
      link < |sons| && link != ptr1 && Walking(d, s1, size, at, pos, link, ptr1, s1[link], t.l, limit, lo, t.i, n, len1)
      && Ordered(d, t.l, limit) && Older(t.l, at) && s1[link] <= pos
      && Splice(d, sons, size, at, pos, ptr0, ptr1, t, limit, cut)
         == Splice(d, s1, size, at, pos, link, ptr1, t.l, limit, cut - 1)
  {
    hide Lcp, Bounded, Older, Apart, Avoids, Recent, Nodes, Ordered, Slot, Rep;
    RepParts(sons, size, at, pos, v, t);
    ApartMeans(size, t, ptr0, ptr1);
    var link := 2 * Slot(t.i, size);
    Below(d, t, limit, at);
    TreeParts(d, t, limit);
    RepRecent(sons, size, at, pos, v, t);
    StepApart(size, at, t, t.l, ptr1, ptr0, link);
    RepWrite(sons, size, at, pos, sons[link], t.l, ptr0, v);
    BoundedLeft(d, t, at, limit, lo, hi, len0, len1, n);
    RepBound(sons, size, at, pos, sons[link], t.l);
  }

  lemma RepBound(sons: seq<nat>, size: nat, at: nat, pos: nat, v: nat, t: Tree)
    requires size > 0 && |sons| == 2 * size && Rep(sons, size, at, pos, v, t)
    ensures v <= pos
  {
  }

  /** The reports still to come. */
  ghost function ToFind(d: seq<byte>, t: Tree, at: nat, limit: nat, cut: nat, maxLen: nat): seq<int>
    requires Ordered(d, t, limit) && at + limit <= |d| && Older(t, at)
  {
    Pairs(Walk(d, t, at, limit, cut, maxLen).found)
  }

  lemma FoundStep(d: seq<byte>, t: Tree, at: nat, limit: nat, cut: nat, maxLen: nat, n: nat)
    requires Ordered(d, t, limit) && at + limit <= |d| && Older(t, at) && t.Node? && cut > 0 && Fits(d, t.i, limit)
    requires n == Lcp(d, t.i, at, limit)
    ensures var now := if maxLen < n then Pair(n, at - t.i) else [];
      if n == limit then ToFind(d, t, at, limit, cut, maxLen) == now
      else var u := Toward(d, t, at, n);
        && Ordered(d, u, limit) && Older(u, at)
        && ToFind(d, t, at, limit, cut, maxLen) == now + ToFind(d, u, at, limit, cut - 1, Longer(n, maxLen))
  {
    hide Lcp, Older, Nodes, Ordered, Longer, Report, Pair, Pairs, Slot;
    Below(d, t, limit, at);
    if n == limit {
      PairsReport(n, maxLen, at - t.i, []);
    } else {
      PairsReport(n, maxLen, at - t.i, Walk(d, Toward(d, t, at, n), at, limit, cut - 1, Longer(n, maxLen)).found);
    }
  }

  lemma FoundMore(d: seq<byte>, t: Tree, at: nat, limit: nat, cut: nat, maxLen: nat, sofar: seq<int>, all: seq<int>)
    requires Ordered(d, t, limit) && at + limit <= |d| && Older(t, at) && t.Node? && cut > 0 && Fits(d, t.i, limit)
    requires sofar + ToFind(d, t, at, limit, cut, maxLen) == all
    ensures var n := Lcp(d, t.i, at, limit);
      var more := sofar + if maxLen < n then Pair(n, at - t.i) else [];
      if n == limit then more == all
      else var u := Toward(d, t, at, n);
        && Ordered(d, u, limit) && Older(u, at)
        && more + ToFind(d, u, at, limit, cut - 1, Longer(n, maxLen)) == all
  {
    hide Lcp, Older, Ordered, Longer, Pair, ToFind;
    FoundStep(d, t, at, limit, cut, maxLen, Lcp(d, t.i, at, limit));
  }

  lemma NothingLeft(d: seq<byte>, sons: seq<nat>, size: nat, at: nat, pos: nat, ptr0: nat, ptr1: nat, t: Tree,
                    limit: nat, cut: nat, maxLen: nat)
    requires size > 0 && |sons| == 2 * size && ptr0 < |sons| && ptr1 < |sons|
    requires Ordered(d, t, limit) && at + limit <= |d| && Older(t, at) && (cut == 0 || t.Leaf?)
    ensures ToFind(d, t, at, limit, cut, maxLen) == []
    ensures Splice(d, sons, size, at, pos, ptr0, ptr1, t, limit, cut) == sons[ptr0 := EMPTY][ptr1 := EMPTY]
  {
  }

  lemma EqualEnds(d: seq<byte>, sons: seq<nat>, size: nat, at: nat, pos: nat, ptr0: nat, ptr1: nat, t: Tree,
                  limit: nat, cut: nat)
    requires size > 0 && |sons| == 2 * size && ptr0 < |sons| && ptr1 < |sons|
    requires Ordered(d, t, limit) && at + limit <= |d| && Older(t, at) && cut > 0 && t.Node?
    requires Fits(d, t.i, limit) && Lcp(d, t.i, at, limit) == limit
    ensures var pair := 2 * Slot(t.i, size);
      Splice(d, sons, size, at, pos, ptr0, ptr1, t, limit, cut) == sons[ptr1 := sons[pair]][ptr0 := sons[pair + 1]]
  {
    hide Lcp, Older, Nodes, Ordered, Slot;
  }

  /** The node goes below or above the current position, and the search to its other part. */
  method StepDown(win: array<byte>, c: nat, son: array<nat>, ptr0: nat, ptr1: nat, curMatch: nat, delta: nat, pair: nat,
                  len: nat, ghost d: seq<byte>, ghost size: nat, ghost at: nat, ghost pos: nat, ghost t: Tree,
                  ghost limit: nat, ghost lo: int, ghost hi: int, ghost len0: nat, ghost len1: nat, ghost cut: nat)
    returns (next0: nat, next1: nat, next: nat, right: bool)
    requires Walking(d, son[..], size, at, pos, ptr0, ptr1, curMatch, t, limit, lo, hi, len0, len1) && t.Node?
    requires cut > 0
    requires Shows(win[..], c, d, at, size, limit) && Fits(d, t.i, limit) && len == Lcp(d, t.i, at, limit) < limit
    requires 0 < delta <= at && delta < size && t.i == at - delta && curMatch == RefTo(t.i, at, pos)
    requires pair == 2 * Slot(t.i, size) && ptr0 < son.Length && ptr1 < son.Length && Ordered(d, t, limit)
    requires Older(t, at)
    modifies son
    ensures right <==> d[t.i + len] < d[at + len]
    ensures next0 < son.Length && next1 < son.Length && next0 != next1 && next <= pos
    ensures var u := Toward(d, t, at, len);
      && Ordered(d, u, limit) && Older(u, at)
      && Splice(d, old(son[..]), size, at, pos, ptr0, ptr1, t, limit, cut)
         == Splice(d, son[..], size, at, pos, next0, next1, u, limit, cut - 1)
    ensures if right then Walking(d, son[..], size, at, pos, next0, next1, next, t.r, limit, t.i, hi, len0, len)
            else Walking(d, son[..], size, at, pos, next0, next1, next, t.l, limit, lo, t.i, len, len1)
  {
    hide Splice, Shows, Lcp, Ordered, Older, Bounded, Searchable, Apart, Slot;
    Peek(win[..], c, d, at, size, limit, delta, len);
    right := win[c - delta + len] < win[c + len];
    if right {
      GoneRight(d, son[..], size, at, pos, ptr0, ptr1, curMatch, t, limit, lo, hi, len0, len1, cut, len);
      son[ptr1] := curMatch;
      next0, next1 := ptr0, pair + 1;
      next := son[next1];
    } else {
      GoneLeft(d, son[..], size, at, pos, ptr0, ptr1, curMatch, t, limit, lo, hi, len0, len1, cut, len);
      son[ptr0] := curMatch;
      next0, next1 := pair, ptr1;
      next := son[next0];
    }
  }

  /** GetMatchesSpec1: all matches of rising length on the way, and the tree split at the current
      position. */
  method GetMatchesSpec1(lenLimit: nat, curMatch0: nat, pos: nat, win: array<byte>, c: nat, son: array<nat>,
                         cyclicBufferPos: nat, cyclicBufferSize: nat, cutValue: nat, maxLen0: nat,
                         ghost d: seq<byte>, ghost at: nat, ghost t0: Tree) returns (distances: seq<int>)
    requires Searchable(d, son[..], cyclicBufferSize, at, pos, curMatch0, t0, lenLimit)
    requires Shows(win[..], c, d, at, cyclicBufferSize, lenLimit)
    requires cyclicBufferPos == Slot(at, cyclicBufferSize) && maxLen0 < lenLimit
    modifies son
    ensures distances == ToFind(d, t0, at, lenLimit, cutValue, maxLen0)
    ensures son[..] == Splice(d, old(son[..]), cyclicBufferSize, at, pos,
                              2 * cyclicBufferPos + 1, 2 * cyclicBufferPos, t0, lenLimit, cutValue)
  {
    hide Splice, ToFind, Walking, Shows, Lcp, Common, Pair, Ordered, Older, Searchable, Slot;
    ghost var S := cyclicBufferSize;
    SearchableMeans(d, son[..], S, at, pos, curMatch0, t0, lenLimit);
    var ptr0: nat, ptr1: nat := 2 * cyclicBufferPos + 1, 2 * cyclicBufferPos;
    var len0: nat, len1: nat, cut: nat, maxLen: nat, curMatch: nat := 0, 0, cutValue, maxLen0, curMatch0;
    distances := [];
    ghost var all := ToFind(d, t0, at, lenLimit, cutValue, maxLen0);
    ghost var t, lo: int, hi: int := t0, -1, -1;
    ghost var result := Splice(d, son[..], S, at, pos, ptr0, ptr1, t, lenLimit, cut);
    WalkStarts(d, son[..], S, at, pos, curMatch, t, lenLimit);
    while true
      invariant Walking(d, son[..], S, at, pos, ptr0, ptr1, curMatch, t, lenLimit, lo, hi, len0, len1)
      invariant ptr0 < son.Length && ptr1 < son.Length && ptr0 != ptr1 && Ordered(d, t, lenLimit) && Older(t, at)
      invariant curMatch <= pos
      invariant len0 <= maxLen && len1 <= maxLen && maxLen < lenLimit
      invariant Splice(d, son[..], S, at, pos, ptr0, ptr1, t, lenLimit, cut) == result
      invariant distances + ToFind(d, t, at, lenLimit, cut, maxLen) == all
      decreases cut
    {
      AtNode(d, son[..], S, at, pos, ptr0, ptr1, curMatch, t, lenLimit, lo, hi, len0, len1);
      var delta: nat := pos - curMatch;
      if cut == 0 || delta >= cyclicBufferSize {
        NothingLeft(d, son[..], S, at, pos, ptr0, ptr1, t, lenLimit, cut, maxLen);
        son[ptr0] := EMPTY;
        son[ptr1] := EMPTY;
        return;
      }
      FirstByte(d, son[..], S, at, pos, ptr0, ptr1, curMatch, t, lenLimit, lo, hi, len0, len1);
      FoundMore(d, t, at, lenLimit, cut, maxLen, distances, all);
      var pair: nat := 2 * (cyclicBufferPos - delta + if delta > cyclicBufferPos then cyclicBufferSize else 0);
      var len := MatchLen(win, c, delta, if len0 < len1 then len0 else len1, lenLimit, d, at, S);
      if maxLen < len {
        distances := distances + Pair(len, delta);
        maxLen := len;
        if len == lenLimit {
          EqualEnds(d, son[..], S, at, pos, ptr0, ptr1, t, lenLimit, cut);
          var below, above := son[pair], son[pair + 1];
          son[ptr1] := below;
          son[ptr0] := above;
          return;
        }
      }
      var right: bool;
      ptr0, ptr1, curMatch, right := StepDown(win, c, son, ptr0, ptr1, curMatch, delta, pair, len, d, S, at, pos, t,
                                              lenLimit, lo, hi, len0, len1, cut);
      if right {
        lo, t, len1 := t.i, t.r, len;
      } else {
        hi, t, len0 := t.i, t.l, len;
      }
      cut := cut - 1;
    }
  }

  /** SkipMatchesSpec: the same without reports. */
  method SkipMatchesSpec(lenLimit: nat, curMatch0: nat, pos: nat, win: array<byte>, c: nat, son: array<nat>,
                         cyclicBufferPos: nat, cyclicBufferSize: nat, cutValue: nat,
                         ghost d: seq<byte>, ghost at: nat, ghost t0: Tree)
    requires Searchable(d, son[..], cyclicBufferSize, at, pos, curMatch0, t0, lenLimit)
    requires Shows(win[..], c, d, at, cyclicBufferSize, lenLimit)
    requires cyclicBufferPos == Slot(at, cyclicBufferSize) && lenLimit > 0
    modifies son
    ensures son[..] == Splice(d, old(son[..]), cyclicBufferSize, at, pos,
                              2 * cyclicBufferPos + 1, 2 * cyclicBufferPos, t0, lenLimit, cutValue)
  {
    hide Splice, Walking, Shows, Lcp, Common, Ordered, Older, Searchable, Slot;
    ghost var S := cyclicBufferSize;
    SearchableMeans(d, son[..], S, at, pos, curMatch0, t0, lenLimit);
    var ptr0: nat, ptr1: nat := 2 * cyclicBufferPos + 1, 2 * cyclicBufferPos;
    var len0: nat, len1: nat, cut: nat, curMatch: nat := 0, 0, cutValue, curMatch0;
    ghost var t, lo: int, hi: int := t0, -1, -1;
    ghost var result := Splice(d, son[..], S, at, pos, ptr0, ptr1, t, lenLimit, cut);
    WalkStarts(d, son[..], S, at, pos, curMatch, t, lenLimit);
    while true
      invariant Walking(d, son[..], S, at, pos, ptr0, ptr1, curMatch, t, lenLimit, lo, hi, len0, len1)
      invariant ptr0 < son.Length && ptr1 < son.Length && ptr0 != ptr1 && Ordered(d, t, lenLimit) && Older(t, at)
      invariant curMatch <= pos
      invariant len0 < lenLimit && len1 < lenLimit
      invariant Splice(d, son[..], S, at, pos, ptr0, ptr1, t, lenLimit, cut) == result
      decreases cut
    {
      AtNode(d, son[..], S, at, pos, ptr0, ptr1, curMatch, t, lenLimit, lo, hi, len0, len1);
      var delta: nat := pos - curMatch;
      if cut == 0 || delta >= cyclicBufferSize {
        NothingLeft(d, son[..], S, at, pos, ptr0, ptr1, t, lenLimit, cut, 0);
        son[ptr0] := EMPTY;
        son[ptr1] := EMPTY;
        return;
      }
      FirstByte(d, son[..], S, at, pos, ptr0, ptr1, curMatch, t, lenLimit, lo, hi, len0, len1);
      var pair: nat := 2 * (cyclicBufferPos - delta + if delta > cyclicBufferPos then cyclicBufferSize else 0);
      var len := MatchLen(win, c, delta, if len0 < len1 then len0 else len1, lenLimit, d, at, S);
      if len == lenLimit {
        EqualEnds(d, son[..], S, at, pos, ptr0, ptr1, t, lenLimit, cut);
        var below, above := son[pair], son[pair + 1];
        son[ptr1] := below;
        son[ptr0] := above;
        return;
      }
      var right: bool;
      ptr0, ptr1, curMatch, right := StepDown(win, c, son, ptr0, ptr1, curMatch, delta, pair, len, d, S, at, pos, t,
                                              lenLimit, lo, hi, len0, len1, cut);
      if right {
        lo, t, len1 := t.i, t.r, len;
      } else {
        hi, t, len0 := t.i, t.l, len;
      }
      cut := cut - 1;
    }
  }

  /** What a search leaves in the array: the new position's node on top of the two parts, and every
      other tree of the array as it was. */
  lemma SearchKeeps(d: seq<byte>, sons: seq<nat>, size: nat, at: nat, pos: nat, v: nat, t: Tree, limit: nat, cut: nat,
                    maxLen: nat, sons': seq<nat>)
    requires Searchable(d, sons, size, at, pos, v, t, limit) && limit > 0
    requires sons' == Splice(d, sons, size, at, pos, 2 * Slot(at, size) + 1, 2 * Slot(at, size), t, limit, cut)
    ensures var w := Walk(d, t, at, limit, cut, maxLen);
      Rep(sons', size, at, pos, sons'[2 * Slot(at, size)], w.less) &&
        Rep(sons', size, at, pos, sons'[2 * Slot(at, size) + 1], w.more)
    ensures forall u, x | Rep(sons, size, at, pos, x, u) && Nodes(u) !! Nodes(t) :: Rep(sons', size, at, pos, x, u)
  {
    hide Rep, Nodes, Splice, Walk, Ordered, Older, Bounded, Outside, Slot;
    var ptr1 := 2 * Slot(at, size);
    WalkStarts(d, sons, size, at, pos, v, t, limit);
    SpliceRep(d, sons, size, at, pos, ptr1 + 1, ptr1, v, t, limit, cut, maxLen);
    RepRecent(sons, size, at, pos, v, t);
    forall u, x | Rep(sons, size, at, pos, x, u) && Nodes(u) !! Nodes(t) ensures Rep(sons', size, at, pos, x, u) {
      RepRecent(sons, size, at, pos, x, u);
      forall y | y in Nodes(u) ensures SameSlot(sons, sons', Slot(y, size)) {
        FarSlot(sons, sons', size, at, t, y);
      }
      RepFrame(sons, sons', size, at, pos, x, u);
    }
  }

  lemma FarSlot(sons: seq<nat>, sons': seq<nat>, size: nat, at: nat, t: Tree, y: nat)
    requires size > 0 && |sons| == 2 * size == |sons'| && Recent(t, at, size) && IsRecent(y, at, size) && y !in Nodes(t)
    requires Outside(sons, sons', size, t, 2 * Slot(at, size) + 1, 2 * Slot(at, size))
    ensures SameSlot(sons, sons', Slot(y, size))
  {
    hide Nodes, Slot;
    SlotsDiffer(y, at, size);
    AvoidsOther(t, at, size, y, 2 * Slot(y, size));
    AvoidsOther(t, at, size, y, 2 * Slot(y, size) + 1);
  }
}
