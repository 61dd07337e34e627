/** wiipax/client/LzFind.c: what the hash table and the `son` array hold between two positions,
    and how moving on, inserting and renormalizing keep it. */
module LzFindIndex {
  import opened Numbers
  import opened LzHash
  import opened LzSuffixTree
  import opened LzFindTree
  import opened LzFindChain

  const FIX3: nat := 1024               // kFix3HashSize
  const FIX4: nat := 1024 + 0x1_0000    // kFix4HashSize

  /** What never changes: the text, the hash and the size of the ring. */
  datatype Text = Text(d: seq<byte>, crc: seq<nat>, bits: nat, size: nat)

  predicate TextOk(x: Text) {
    CrcOk(x.crc) && x.size >= 2
  }

  predicate HasKey(x: Text, j: nat) {
    j + 4 <= |x.d|
  }

  function Key(x: Text, j: nat): nat
    requires TextOk(x) && HasKey(x, j)
  {
    Hash4(x.crc, x.bits, x.d[j], x.d[j + 1], x.d[j + 2], x.d[j + 3])
  }

  function Key2(x: Text, j: nat): nat
    requires TextOk(x) && HasKey(x, j)
  {
    Hash2(x.crc, x.d[j], x.d[j + 1])
  }

  function Key3(x: Text, j: nat): nat
    requires TextOk(x) && HasKey(x, j)
  {
    Hash3(x.crc, x.d[j], x.d[j + 1], x.d[j + 2])
  }

  // ----- References -----

  /** The reference reaches a position of the ring. */
  predicate Live(v: nat, pos: nat, size: nat)
    requires v <= pos
  {
    pos - v < size
  }

  /** A reference in a table of one position each: an old one, or to the newest position with this
      hash. */
  predicate Holds2(x: Text, v: nat, at: nat, pos: nat, h: nat)
    requires TextOk(x)
  {
    v < pos && (Live(v, pos, x.size) ==> pos - v <= at && HasKey(x, at - (pos - v)) && Key2(x, at - (pos - v)) == h)
    && forall i: nat | i < at && HasKey(x, i) && Key2(x, i) == h :: i <= at - (pos - v)
  }

  predicate Holds3(x: Text, v: nat, at: nat, pos: nat, h: nat)
    requires TextOk(x)
  {
    v < pos && (Live(v, pos, x.size) ==> pos - v <= at && HasKey(x, at - (pos - v)) && Key3(x, at - (pos - v)) == h)
    && forall i: nat | i < at && HasKey(x, i) && Key3(x, i) == h :: i <= at - (pos - v)
  }

  predicate ShortOk(x: Text, hash: seq<nat>, at: nat, pos: nat)
    requires TextOk(x)
  {
    |hash| >= FIX4
    && (forall h | 0 <= h < 1024 :: Holds2(x, hash[h], at, pos, h))
    && (forall k | FIX3 <= k < FIX4 :: Holds3(x, hash[k], at, pos, k - FIX3))
  }

  /** Both tables after the current position was entered, seen from the next. */
  lemma ShortInserted(x: Text, hash: seq<nat>, hash': seq<nat>, at: nat, pos: nat)
    requires TextOk(x) && ShortOk(x, hash, at, pos) && HasKey(x, at) && |hash'| == |hash|
    requires forall h | 0 <= h < 1024 :: hash'[h] == if h == Key2(x, at) then pos else hash[h]
    requires forall k | FIX3 <= k < FIX4 :: hash'[k] == if k - FIX3 == Key3(x, at) then pos else hash[k]
    ensures ShortOk(x, hash', at + 1, pos + 1)
  {
    hide Hash2, Hash3, Hash4;
    forall h | 0 <= h < 1024 ensures Holds2(x, hash'[h], at + 1, pos + 1, h) {
      assert Holds2(x, hash[h], at, pos, h);
    }
    forall k | FIX3 <= k < FIX4 ensures Holds3(x, hash'[k], at + 1, pos + 1, k - FIX3) {
      assert Holds3(x, hash[k], at, pos, k - FIX3);
    }
  }

  lemma ShortPassed(x: Text, hash: seq<nat>, at: nat, pos: nat)
    requires TextOk(x) && ShortOk(x, hash, at, pos) && !HasKey(x, at)
    ensures ShortOk(x, hash, at + 1, pos + 1)
  {
    hide Hash2, Hash3, Hash4;
    forall h | 0 <= h < 1024 ensures Holds2(x, hash[h], at + 1, pos + 1, h) {
      assert Holds2(x, hash[h], at, pos, h);
    }
    forall k | FIX3 <= k < FIX4 ensures Holds3(x, hash[k], at + 1, pos + 1, k - FIX3) {
      assert Holds3(x, hash[k], at, pos, k - FIX3);
    }
  }

  // ----- Aging -----

  /** The tree without the positions that fall out of the ring. */
  function Aged(t: Tree, at: nat, size: nat): Tree {
    match t
    case Leaf => Leaf
    case Node(i, l, r) => if i + size <= at then Leaf else Node(i, Aged(l, at, size), Aged(r, at, size))
  }

  lemma {:induction false} AgedNodes(t: Tree, at: nat, size: nat)
    ensures Nodes(Aged(t, at, size)) <= Nodes(t)
  {
    if t.Node? {
      AgedNodes(t.l, at, size);
      AgedNodes(t.r, at, size);
    }
  }

  lemma {:induction false} AgedOrdered(d: seq<byte>, t: Tree, limit: nat, at: nat, size: nat)
    requires Ordered(d, t, limit)
    ensures Ordered(d, Aged(t, at, size), limit)
    decreases t
  {
    hide AtMost, Room, AllAtMost, AllAtLeast, Older;
    EmptyOrdered(d, limit);
    if t.Node? {
      OrderedParts(d, t, limit);
      AgedOrdered(d, t.l, limit, at, size);
      AgedOrdered(d, t.r, limit, at, size);
      AgedNodes(t.l, at, size);
      AgedNodes(t.r, at, size);
      if t.i + size > at {
        var l, r := Aged(t.l, at, size), Aged(t.r, at, size);
        BoundsKept(d, t.l, l, t.i, limit);
        BoundsKept(d, t.r, r, t.i, limit);
        OlderKept(t.l, l, t.i);
        OlderKept(t.r, r, t.i);
        JoinOrdered(d, t.i, l, r, t.i, limit);
      }
    }
  }

  lemma OrderedParts(d: seq<byte>, t: Tree, limit: nat)
    requires Ordered(d, t, limit) && t.Node?
    ensures Fits(d, t.i, limit) && Ordered(d, t.l, limit) && Ordered(d, t.r, limit) && Older(t.l, t.i)
    ensures Older(t.r, t.i)
    ensures Room(d, t.l, limit) && Room(d, t.r, limit) && Nodes(t.l) !! Nodes(t.r)
    ensures AllAtMost(d, t.l, t.i, limit) && AllAtLeast(d, t.r, t.i, limit)
  {
    hide AtMost;
  }

  lemma EmptyOrdered(d: seq<byte>, limit: nat)
    ensures Ordered(d, Leaf, limit)
  {
  }

  lemma {:induction false} RepAged(sons: seq<nat>, size: nat, at: nat, pos: nat, v: nat, t: Tree)
    requires size > 0 && |sons| == 2 * size && Rep(sons, size, at, pos, v, t)
    ensures Rep(sons, size, at + 1, pos + 1, v, Aged(t, at + 1, size))
    decreases t
  {
    hide Slot;
    if t.Node? {
      RepAged(sons, size, at, pos, sons[2 * Slot(t.i, size)], t.l);
      RepAged(sons, size, at, pos, sons[2 * Slot(t.i, size) + 1], t.r);
    }
  }

  // ----- Renormalization -----

  function Norm(v: nat, sub: nat): nat {
    if v <= sub then EMPTY else v - sub
  }

  function NormAll(s: seq<nat>, sub: nat): (r: seq<nat>)
    ensures |r| == |s|
  {
    seq(|s|, i requires 0 <= i < |s| => Norm(s[i], sub))
  }

  /** A live reference keeps its distance, an old one stays old. */
  lemma NormLive(v: nat, sub: nat, pos: nat, size: nat)
    requires v < pos && sub + size <= pos && size > 0
    ensures Norm(v, sub) < pos - sub && (Live(Norm(v, sub), pos - sub, size) <==> Live(v, pos, size))
    ensures Live(v, pos, size) ==> pos - sub - Norm(v, sub) == pos - v
    ensures pos - sub - Norm(v, sub) <= pos - v
  {
  }

  lemma {:induction false} RepNorm(sons: seq<nat>, size: nat, at: nat, pos: nat, v: nat, t: Tree, sub: nat)
    requires size > 0 && |sons| == 2 * size && Rep(sons, size, at, pos, v, t) && sub + size <= pos
    ensures Rep(NormAll(sons, sub), size, at, pos - sub, Norm(v, sub), t)
    decreases t
  {
    hide Slot;
    if t.Node? {
      RepNorm(sons, size, at, pos, sons[2 * Slot(t.i, size)], t.l, sub);
      RepNorm(sons, size, at, pos, sons[2 * Slot(t.i, size) + 1], t.r, sub);
    }
  }

  lemma {:induction false} LinkedNorm(sons: seq<nat>, size: nat, at: nat, pos: nat, v: nat, chain: seq<nat>, sub: nat)
    requires size > 0 && |sons| == size && Linked(sons, size, at, pos, v, chain) && sub + size <= pos
    ensures Linked(NormAll(sons, sub), size, at, pos - sub, Norm(v, sub), chain)
    decreases |chain|
  {
    hide Slot;
    if chain != [] {
      LinkedNorm(sons, size, at, pos, sons[Slot(chain[0], size)], chain[1..], sub);
    }
  }

  lemma ShortNorm(x: Text, hash: seq<nat>, at: nat, pos: nat, sub: nat)
    requires TextOk(x) && ShortOk(x, hash, at, pos) && sub + x.size <= pos
    ensures ShortOk(x, NormAll(hash, sub), at, pos - sub)
  {
    hide Hash2, Hash3, Hash4, Norm;
    var hash' := NormAll(hash, sub);
    forall h | 0 <= h < 1024 ensures Holds2(x, hash'[h], at, pos - sub, h) {
      assert Holds2(x, hash[h], at, pos, h);
      NormLive(hash[h], sub, pos, x.size);
    }
    forall k | FIX3 <= k < FIX4 ensures Holds3(x, hash'[k], at, pos - sub, k - FIX3) {
      assert Holds3(x, hash[k], at, pos, k - FIX3);
      NormLive(hash[k], sub, pos, x.size);
    }
  }

  // ----- One tree for every hash -----

  predicate Keyed(x: Text, t: Tree, h: nat)
    requires TextOk(x)
  {
    forall i | i in Nodes(t) :: IsKeyed(x, i, h)
  }

  predicate IsKeyed(x: Text, i: nat, h: nat)
    requires TextOk(x)
  {
    HasKey(x, i) && Key(x, i) == h
  }

  predicate TreeOk(x: Text, v: nat, son: seq<nat>, at: nat, pos: nat, limit: nat, t: Tree, h: nat)
    requires TextOk(x) && |son| == 2 * x.size
  {
    v < pos && Rep(son, x.size, at, pos, v, t) && Ordered(x.d, t, limit) && Older(t, at) && Keyed(x, t, h)
  }

  predicate TreesOk(x: Text, hash: seq<nat>, son: seq<nat>, at: nat, pos: nat, limit: nat, trees: seq<Tree>)
    requires TextOk(x)
  {
    |son| == 2 * x.size && |trees| == Pow2(x.bits) && |hash| == FIX4 + |trees|
    && forall k | FIX4 <= k < |hash| :: TreeOk(x, hash[k], son, at, pos, limit, trees[k - FIX4], k - FIX4)
  }

  /** Trees of different hashes have no position in common. */
  lemma KeysApart(x: Text, t: Tree, u: Tree, h: nat, g: nat)
    requires TextOk(x) && Keyed(x, t, h) && Keyed(x, u, g) && h != g
    ensures Nodes(t) !! Nodes(u)
  {
    hide Key, Nodes;
    forall i | i in Nodes(t) ensures i !in Nodes(u) { assert IsKeyed(x, i, h); }
  }

  lemma TreeAged(x: Text, v: nat, son: seq<nat>, at: nat, pos: nat, limit: nat, limit': nat, t: Tree, h: nat)
    requires TextOk(x) && |son| == 2 * x.size && TreeOk(x, v, son, at, pos, limit, t, h) && limit' <= limit
    ensures TreeOk(x, v, son, at + 1, pos + 1, limit', Aged(t, at + 1, x.size), h)
  {
    hide Rep, Ordered, Nodes, Key, Older;
    RepAged(son, x.size, at, pos, v, t);
    AgedNodes(t, at + 1, x.size);
    AgedOrdered(x.d, t, limit, at + 1, x.size);
    OrderedShorter(x.d, Aged(t, at + 1, x.size), limit, limit');
    OlderKept(t, Aged(t, at + 1, x.size), at);
    OlderMore(Aged(t, at + 1, x.size), at);
    forall i | i in Nodes(Aged(t, at + 1, x.size)) ensures IsKeyed(x, i, h) { assert i in Nodes(t); }
  }

  lemma OlderMore(t: Tree, i: nat)
    requires Older(t, i)
    ensures Older(t, i + 1)
  {
  }

  function AgedAll(trees: seq<Tree>, at: nat, size: nat): (r: seq<Tree>)
    ensures |r| == |trees|
  {
    seq(|trees|, k requires 0 <= k < |trees| => Aged(trees[k], at, size))
  }

  /** A position that is not entered. */
  lemma TreesPassed(x: Text, hash: seq<nat>, son: seq<nat>, at: nat, pos: nat, limit: nat, limit': nat,
                    trees: seq<Tree>)
    requires TextOk(x) && TreesOk(x, hash, son, at, pos, limit, trees) && limit' <= limit
    ensures TreesOk(x, hash, son, at + 1, pos + 1, limit', AgedAll(trees, at + 1, x.size))
  {
    hide TreeOk, Aged;
    forall k | FIX4 <= k < |hash|
      ensures TreeOk(x, hash[k], son, at + 1, pos + 1, limit', AgedAll(trees, at + 1, x.size)[k - FIX4], k - FIX4)
    {
      TreeAged(x, hash[k], son, at, pos, limit, limit', trees[k - FIX4], k - FIX4);
    }
  }

  /** The search has put the position on top of its tree and split the rest below it. */
  lemma TreeGrown(x: Text, son: seq<nat>, son': seq<nat>, v: nat, at: nat, pos: nat, limit: nat, limit': nat, t: Tree,
                  h: nat, cut: nat, maxLen: nat)
    requires TextOk(x) && |son| == 2 * x.size == |son'| && TreeOk(x, v, son, at, pos, limit, t, h) && limit' <= limit
    requires Searchable(x.d, son, x.size, at, pos, v, t, limit) && limit > 0 && HasKey(x, at) && Key(x, at) == h
    requires son' == Splice(x.d, son, x.size, at, pos, 2 * Slot(at, x.size) + 1, 2 * Slot(at, x.size), t, limit, cut)
    ensures TreeOk(x, pos, son', at + 1, pos + 1, limit',
                   Aged(Inserted(x.d, t, at, limit, cut, maxLen), at + 1, x.size), h)
  {
    hide Rep, Ordered, Nodes, Key, Older, Walk, Splice, Slot;
    var w := Walk(x.d, t, at, limit, cut, maxLen);
    var u := Inserted(x.d, t, at, limit, cut, maxLen);
    SearchKeeps(x.d, son, x.size, at, pos, v, t, limit, cut, maxLen, son');
    InsertedOrdered(x.d, t, at, limit, cut, maxLen);
    AgedOrdered(x.d, u, limit, at + 1, x.size);
    AgedNodes(u, at + 1, x.size);
    OrderedShorter(x.d, Aged(u, at + 1, x.size), limit, limit');
    RepAged(son', x.size, at, pos, son'[2 * Slot(at, x.size)], w.less);
    RepAged(son', x.size, at, pos, son'[2 * Slot(at, x.size) + 1], w.more);
    TopRep(son', x.size, at, pos, w.less, w.more);
    GrownNodes(x, t, u, Aged(u, at + 1, x.size), at, h);
  }

  lemma TopRep(son: seq<nat>, size: nat, at: nat, pos: nat, l: Tree, r: Tree)
    requires size >= 2 && |son| == 2 * size
    requires Rep(son, size, at + 1, pos + 1, son[2 * Slot(at, size)], Aged(l, at + 1, size))
    requires Rep(son, size, at + 1, pos + 1, son[2 * Slot(at, size) + 1], Aged(r, at + 1, size))
    ensures Rep(son, size, at + 1, pos + 1, pos, Aged(Node(at, l, r), at + 1, size))
  {
  }

  lemma GrownNodes(x: Text, t: Tree, u: Tree, a: Tree, at: nat, h: nat)
    requires TextOk(x) && Nodes(u) <= Nodes(t) + {at} && Nodes(a) <= Nodes(u) && Older(t, at) && Keyed(x, t, h)
    requires HasKey(x, at) && Key(x, at) == h
    ensures Older(a, at + 1) && Keyed(x, a, h)
  {
    hide Nodes, Key;
    forall i | i in Nodes(a) ensures i < at + 1 && IsKeyed(x, i, h) {
      if i != at { assert i in Nodes(t); }
    }
  }

  /** The search in one tree leaves the others alone. */
  lemma TreeSpared(x: Text, son: seq<nat>, son': seq<nat>, v: nat, at: nat, pos: nat, limit: nat, limit': nat,
                   t: Tree, h: nat, cut: nat, w: nat, u: Tree, g: nat)
    requires TextOk(x) && |son| == 2 * x.size == |son'| && TreeOk(x, v, son, at, pos, limit, t, h) && limit' <= limit
    requires Searchable(x.d, son, x.size, at, pos, v, t, limit) && limit > 0
    requires son' == Splice(x.d, son, x.size, at, pos, 2 * Slot(at, x.size) + 1, 2 * Slot(at, x.size), t, limit, cut)
    requires TreeOk(x, w, son, at, pos, limit, u, g) && g != h
    ensures TreeOk(x, w, son', at + 1, pos + 1, limit', Aged(u, at + 1, x.size), g)
  {
    hide Rep, Ordered, Nodes, Key, Older, Walk, Splice, Slot, Keyed;
    KeysApart(x, u, t, g, h);
    SearchKeeps(x.d, son, x.size, at, pos, v, t, limit, cut, 0, son');
    TreeAged(x, w, son', at, pos, limit, limit', u, g);
  }

  ghost function Grown(x: Text, trees: seq<Tree>, at: nat, limit: nat, h: nat, cut: nat, maxLen: nat): (r: seq<Tree>)
    requires h < |trees| && Ordered(x.d, trees[h], limit) && at + limit <= |x.d| && Older(trees[h], at)
    ensures |r| == |trees|
  {
    AgedAll(trees[h := Inserted(x.d, trees[h], at, limit, cut, maxLen)], at + 1, x.size)
  }

  /** Entering a position. */
  lemma TreesInserted(x: Text, hash: seq<nat>, hash': seq<nat>, son: seq<nat>, son': seq<nat>, at: nat, pos: nat,
                      limit: nat, limit': nat, trees: seq<Tree>, cut: nat, maxLen: nat)
    requires TextOk(x) && TreesOk(x, hash, son, at, pos, limit, trees) && limit' <= limit && limit > 0 && x.size <= pos
    requires HasKey(x, at) && Key(x, at) < |trees| && at + limit <= |x.d| && |hash'| == |hash|
    requires Ordered(x.d, trees[Key(x, at)], limit) && Older(trees[Key(x, at)], at)
    requires son' == Splice(x.d, son, x.size, at, pos, 2 * Slot(at, x.size) + 1, 2 * Slot(at, x.size),
                            trees[Key(x, at)], limit, cut)
    requires forall k | FIX4 <= k < |hash| :: hash'[k] == if k - FIX4 == Key(x, at) then pos else hash[k]
    ensures TreesOk(x, hash', son', at + 1, pos + 1, limit', Grown(x, trees, at, limit, Key(x, at), cut, maxLen))
  {
    hide Aged, Splice, Key, Ordered, Slot, Inserted, Rep, Older, Keyed;
    var h := Key(x, at);
    var t := trees[h];
    assert TreeOk(x, hash[FIX4 + h], son, at, pos, limit, trees[FIX4 + h - FIX4], FIX4 + h - FIX4);
    var trees' := Grown(x, trees, at, limit, h, cut, maxLen);
    forall k | FIX4 <= k < |hash'|
      ensures TreeOk(x, hash'[k], son', at + 1, pos + 1, limit', trees'[k - FIX4], k - FIX4)
    {
      assert TreeOk(x, hash[k], son, at, pos, limit, trees[k - FIX4], k - FIX4);
      if k - FIX4 == h {
        TreeGrown(x, son, son', hash[k], at, pos, limit, limit', t, h, cut, maxLen);
      } else {
        TreeSpared(x, son, son', hash[FIX4 + h], at, pos, limit, limit', t, h, cut, hash[k], trees[k - FIX4], k - FIX4);
      }
    }
  }

  lemma TreesNorm(x: Text, hash: seq<nat>, son: seq<nat>, at: nat, pos: nat, limit: nat, trees: seq<Tree>, sub: nat)
    requires TextOk(x) && TreesOk(x, hash, son, at, pos, limit, trees) && sub + x.size <= pos
    ensures TreesOk(x, NormAll(hash, sub), NormAll(son, sub), at, pos - sub, limit, trees)
  {
    hide Rep, Ordered, Older, Keyed, Norm;
    var hash' := NormAll(hash, sub);
    forall k | FIX4 <= k < |hash'|
      ensures TreeOk(x, hash'[k], NormAll(son, sub), at, pos - sub, limit, trees[k - FIX4], k - FIX4)
    {
      assert TreeOk(x, hash[k], son, at, pos, limit, trees[k - FIX4], k - FIX4);
      NormLive(hash[k], sub, pos, x.size);
      RepNorm(son, x.size, at, pos, hash[k], trees[k - FIX4], sub);
    }
  }

  // ----- One chain for every hash -----

  /** All positions of the interval with this hash, the newest first. */
  function Members(x: Text, lo: nat, hi: nat, h: nat): seq<nat>
    requires TextOk(x)
    decreases hi
  {
    if hi <= lo then []
    else (if IsKeyed(x, hi - 1, h) then [hi - 1] else []) + Members(x, lo, hi - 1, h)
  }

  /** The oldest position of the ring. */
  function RingStart(at: nat, size: nat): nat {
    if at < size then 0 else at - size + 1
  }

  lemma {:induction false} MembersAre(x: Text, lo: nat, hi: nat, h: nat, j: nat)
    requires TextOk(x)
    ensures j in Members(x, lo, hi, h) <==> lo <= j < hi && IsKeyed(x, j, h)
    ensures |Members(x, lo, hi, h)| <= if lo <= hi then hi - lo else 0
    decreases hi
  {
    hide IsKeyed;
    if lo < hi { MembersAre(x, lo, hi - 1, h, j); }
  }

  lemma {:induction false} MembersFall(x: Text, lo: nat, hi: nat, h: nat)
    requires TextOk(x)
    ensures Falling(Members(x, lo, hi, h)) && forall j | j in Members(x, lo, hi, h) :: j < hi
    decreases hi
  {
    hide IsKeyed;
    if lo < hi {
      MembersFall(x, lo, hi - 1, h);
      var all, less := Members(x, lo, hi, h), Members(x, lo, hi - 1, h);
      var n := |all| - |less|;
      forall k | 0 < k < |all| ensures FallsAt(all, k) {
        if k > n { assert FallsAt(less, k - n); } else { assert all[k] in less; }
      }
    }
  }

  predicate ChainOk(x: Text, v: nat, son: seq<nat>, at: nat, pos: nat, h: nat)
    requires TextOk(x) && |son| == x.size
  {
    v < pos && Linked(son, x.size, at, pos, v, Members(x, RingStart(at, x.size), at, h))
  }

  predicate ChainsOk(x: Text, hash: seq<nat>, son: seq<nat>, at: nat, pos: nat)
    requires TextOk(x)
  {
    |son| == x.size && |hash| == FIX4 + Pow2(x.bits)
    && forall k | FIX4 <= k < |hash| :: ChainOk(x, hash[k], son, at, pos, k - FIX4)
  }

  /** One position further; the oldest of the ring may drop out. */
  lemma {:induction false} LinkedAged(x: Text, son: seq<nat>, at: nat, pos: nat, v: nat, lo: nat, hi: nat, h: nat)
    requires TextOk(x) && |son| == x.size && lo == RingStart(at, x.size) && hi <= at
    requires Linked(son, x.size, at, pos, v, Members(x, lo, hi, h))
    ensures Linked(son, x.size, at + 1, pos + 1, v, Members(x, RingStart(at + 1, x.size), hi, h))
    decreases hi
  {
    hide IsKeyed, Slot;
    var lo' := RingStart(at + 1, x.size);
    if lo < hi {
      if IsKeyed(x, hi - 1, h) {
        assert Members(x, lo, hi, h)[1..] == Members(x, lo, hi - 1, h);
        if lo' < hi {
          assert Members(x, lo', hi, h)[1..] == Members(x, lo', hi - 1, h);
          LinkedAged(x, son, at, pos, son[Slot(hi - 1, x.size)], lo, hi - 1, h);
        }
      } else {
        assert Members(x, lo, hi, h) == Members(x, lo, hi - 1, h);
        LinkedAged(x, son, at, pos, v, lo, hi - 1, h);
        assert Members(x, lo', hi, h) == Members(x, lo', hi - 1, h);
      }
    }
  }

  /** A position without a key, at the end of the text. */
  lemma ChainsPassed(x: Text, hash: seq<nat>, son: seq<nat>, at: nat, pos: nat)
    requires TextOk(x) && ChainsOk(x, hash, son, at, pos) && !HasKey(x, at)
    ensures ChainsOk(x, hash, son, at + 1, pos + 1)
  {
    forall k | FIX4 <= k < |hash| ensures ChainOk(x, hash[k], son, at + 1, pos + 1, k - FIX4) {
      assert ChainOk(x, hash[k], son, at, pos, k - FIX4);
      ChainSkip(x, hash[k], son, at, pos, k - FIX4);
    }
  }

  lemma ChainSkip(x: Text, v: nat, son: seq<nat>, at: nat, pos: nat, h: nat)
    requires TextOk(x) && |son| == x.size && ChainOk(x, v, son, at, pos, h) && !IsKeyed(x, at, h)
    ensures ChainOk(x, v, son, at + 1, pos + 1, h)
  {
    hide IsKeyed, Slot, Linked;
    LinkedAged(x, son, at, pos, v, RingStart(at, x.size), at, h);
    var lo' := RingStart(at + 1, x.size);
    assert Members(x, lo', at + 1, h) == Members(x, lo', at, h);
  }

  lemma ChainPut(x: Text, v: nat, son: seq<nat>, at: nat, pos: nat, h: nat)
    requires TextOk(x) && |son| == x.size && ChainOk(x, v, son, at, pos, h) && IsKeyed(x, at, h)
    ensures ChainOk(x, pos, son[Slot(at, x.size) := v], at + 1, pos + 1, h)
  {
    hide IsKeyed, Slot;
    var son' := son[Slot(at, x.size) := v];
    var lo, lo' := RingStart(at, x.size), RingStart(at + 1, x.size);
    LinkedWrite(son, x.size, at, pos, v, Members(x, lo, at, h), v);
    LinkedAged(x, son', at, pos, v, lo, at, h);
    assert Members(x, lo', at + 1, h) == [at] + Members(x, lo', at, h);
    assert Members(x, lo', at + 1, h)[1..] == Members(x, lo', at, h);
  }

  lemma ChainSpared(x: Text, v: nat, son: seq<nat>, at: nat, pos: nat, h: nat, w: nat)
    requires TextOk(x) && |son| == x.size && ChainOk(x, v, son, at, pos, h) && !IsKeyed(x, at, h)
    ensures ChainOk(x, v, son[Slot(at, x.size) := w], at + 1, pos + 1, h)
  {
    hide IsKeyed, Slot, Linked, Members;
    LinkedWrite(son, x.size, at, pos, v, Members(x, RingStart(at, x.size), at, h), w);
    ChainSkip(x, v, son[Slot(at, x.size) := w], at, pos, h);
  }

  /** Entering a position: its slot takes the old head, the head becomes the position. */
  lemma ChainsInserted(x: Text, hash: seq<nat>, hash': seq<nat>, son: seq<nat>, at: nat, pos: nat)
    requires TextOk(x) && ChainsOk(x, hash, son, at, pos) && HasKey(x, at) && |hash'| == |hash|
    requires Key(x, at) < Pow2(x.bits)
    requires forall k | FIX4 <= k < |hash| :: hash'[k] == if k - FIX4 == Key(x, at) then pos else hash[k]
    ensures ChainsOk(x, hash', son[Slot(at, x.size) := hash[FIX4 + Key(x, at)]], at + 1, pos + 1)
  {
    hide ChainOk, Slot, Key;
    var h := Key(x, at);
    var head := hash[FIX4 + h];
    forall k | FIX4 <= k < |hash'|
      ensures ChainOk(x, hash'[k], son[Slot(at, x.size) := head], at + 1, pos + 1, k - FIX4)
    {
      assert ChainOk(x, hash[k], son, at, pos, k - FIX4);
      if k - FIX4 == h {
        ChainPut(x, hash[k], son, at, pos, h);
      } else {
        ChainSpared(x, hash[k], son, at, pos, k - FIX4, head);
      }
    }
  }

  lemma ChainsNorm(x: Text, hash: seq<nat>, son: seq<nat>, at: nat, pos: nat, sub: nat)
    requires TextOk(x) && ChainsOk(x, hash, son, at, pos) && sub + x.size <= pos
    ensures ChainsOk(x, NormAll(hash, sub), NormAll(son, sub), at, pos - sub)
  {
    hide Linked, Norm, Members;
    var hash' := NormAll(hash, sub);
    forall k | FIX4 <= k < |hash'| ensures ChainOk(x, hash'[k], NormAll(son, sub), at, pos - sub, k - FIX4) {
      assert ChainOk(x, hash[k], son, at, pos, k - FIX4);
      NormLive(hash[k], sub, pos, x.size);
      LinkedNorm(son, x.size, at, pos, hash[k], Members(x, RingStart(at, x.size), at, k - FIX4), sub);
    }
  }
}
