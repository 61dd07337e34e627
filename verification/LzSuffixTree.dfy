/** Binary trees of positions in a text, ordered by what follows each position: the index that
    the bt match finders keep. Comparisons see `limit` bytes. */
module LzSuffixTree {
  import opened Numbers

  // ----- Common prefixes -----

  predicate Agree(d: seq<byte>, i: nat, j: nat, n: nat) {
    i + n <= |d| && j + n <= |d| && forall k | 0 <= k < n :: SameAt(d, i, j, k)
  }

  predicate SameAt(d: seq<byte>, i: nat, j: nat, k: nat)
    requires i + k < |d| && j + k < |d|
  {
    d[i + k] == d[j + k]
  }

  /** How many bytes are the same at `i` and `j`, from the n-th on and up to `limit`. */
  function Common(d: seq<byte>, i: nat, j: nat, n: nat, limit: nat): (r: nat)
    requires n <= limit && i + limit <= |d| && j + limit <= |d|
    ensures n <= r <= limit && (r < limit ==> d[i + r] != d[j + r])
    ensures forall k | n <= k < r :: SameAt(d, i, j, k)
    decreases limit - n
  {
    if n < limit && d[i + n] == d[j + n] then Common(d, i, j, n + 1, limit) else n
  }

  function Lcp(d: seq<byte>, i: nat, j: nat, limit: nat): (r: nat)
    requires i + limit <= |d| && j + limit <= |d|
    ensures r <= limit && Agree(d, i, j, r) && (r < limit ==> d[i + r] != d[j + r])
  {
    Common(d, i, j, 0, limit)
  }

  lemma {:induction false} CommonFrom(d: seq<byte>, i: nat, j: nat, n: nat, m: nat, limit: nat)
    requires n <= m <= limit && i + limit <= |d| && j + limit <= |d| && Agree(d, i, j, m)
    ensures Common(d, i, j, n, limit) == Common(d, i, j, m, limit)
    decreases m - n
  {
    if n < m {
      assert SameAt(d, i, j, n);
      CommonFrom(d, i, j, n + 1, m, limit);
    }
  }

  lemma AgreeAt(d: seq<byte>, i: nat, j: nat, n: nat, k: nat)
    requires Agree(d, i, j, n)
    ensures k < n ==> d[i + k] == d[j + k]
  {
    if k < n { assert SameAt(d, i, j, k); }
  }

  lemma LcpIs(d: seq<byte>, i: nat, j: nat, n: nat, limit: nat)
    requires n <= limit && i + limit <= |d| && j + limit <= |d| && Agree(d, i, j, n)
    requires n < limit ==> d[i + n] != d[j + n]
    ensures Lcp(d, i, j, limit) == n
  {
    var r := Lcp(d, i, j, limit);
    AgreeAt(d, i, j, n, r);
    AgreeAt(d, i, j, r, n);
  }

  // ----- Order -----

  /** The text at `i` is not greater than at `j`, as far as `limit` bytes show. */
  predicate AtMost(d: seq<byte>, i: nat, j: nat, limit: nat)
    requires i + limit <= |d| && j + limit <= |d|
  {
    var n := Lcp(d, i, j, limit);
    n < limit ==> d[i + n] < d[j + n]
  }

  lemma AtMostTotal(d: seq<byte>, i: nat, j: nat, limit: nat)
    requires i + limit <= |d| && j + limit <= |d|
    ensures AtMost(d, i, j, limit) || AtMost(d, j, i, limit)
    ensures Lcp(d, j, i, limit) == Lcp(d, i, j, limit)
  {
    var n := Lcp(d, i, j, limit);
    AgreeFlip(d, i, j, n);
    LcpIs(d, j, i, n, limit);
  }

  lemma AgreeFlip(d: seq<byte>, i: nat, j: nat, n: nat)
    requires Agree(d, i, j, n)
    ensures Agree(d, j, i, n)
  {
    forall k | 0 <= k < n ensures SameAt(d, j, i, k) { assert SameAt(d, i, j, k); }
  }

  lemma AgreeVia(d: seq<byte>, i: nat, j: nat, l: nat, n: nat)
    requires Agree(d, i, j, n) && Agree(d, j, l, n)
    ensures Agree(d, i, l, n)
  {
    forall k | 0 <= k < n ensures SameAt(d, i, l, k) { assert SameAt(d, i, j, k) && SameAt(d, j, l, k); }
  }

  lemma AgreeLess(d: seq<byte>, i: nat, j: nat, n: nat, m: nat)
    requires Agree(d, i, j, n) && m <= n
    ensures Agree(d, i, j, m)
  {
    forall k | 0 <= k < m ensures SameAt(d, i, j, k) { assert SameAt(d, i, j, k); }
  }

  lemma AtMostTrans(d: seq<byte>, i: nat, j: nat, l: nat, limit: nat)
    requires i + limit <= |d| && j + limit <= |d| && l + limit <= |d|
    requires AtMost(d, i, j, limit) && AtMost(d, j, l, limit)
    ensures AtMost(d, i, l, limit)
  {
    var a, b := Lcp(d, i, j, limit), Lcp(d, j, l, limit);
    var n := if a < b then a else b;
    AgreeLess(d, i, j, a, n);
    AgreeLess(d, j, l, b, n);
    AgreeVia(d, i, j, l, n);
    if n < limit {
      if n < a { assert SameAt(d, i, j, n); }
      if n < b { assert SameAt(d, j, l, n); }
    }
    LcpIs(d, i, l, n, limit);
  }

  lemma AtMostShorter(d: seq<byte>, i: nat, j: nat, limit: nat, less: nat)
    requires less <= limit && i + limit <= |d| && j + limit <= |d| && AtMost(d, i, j, limit)
    ensures AtMost(d, i, j, less)
  {
    var n := Lcp(d, i, j, limit);
    if n < less {
      LcpIs(d, i, j, n, less);
    } else {
      AgreeLess(d, i, j, n, less);
      LcpIs(d, i, j, less, less);
    }
  }

  /** What lies between two texts that agree agrees with them: this is why a search may skip the
      bytes that both its bounds have in common with what it looks for. */
  lemma Squeeze(d: seq<byte>, lo: nat, x: nat, hi: nat, m: nat, limit: nat)
    requires lo + limit <= |d| && x + limit <= |d| && hi + limit <= |d| && m <= limit
    requires AtMost(d, lo, x, limit) && AtMost(d, x, hi, limit) && Agree(d, lo, hi, m)
    ensures Agree(d, lo, x, m) && Agree(d, x, hi, m)
  {
    var a, b := Lcp(d, lo, x, limit), Lcp(d, x, hi, limit);
    AgreeAt(d, lo, hi, m, a);
    AgreeAt(d, x, hi, b, a);
    AgreeAt(d, lo, x, a, b);
    AgreeAt(d, lo, hi, m, b);
    assert a >= m;
    AgreeLess(d, lo, x, a, m);
    AgreeFlip(d, lo, x, m);
    AgreeVia(d, x, lo, hi, m);
  }

  // ----- Trees -----

  datatype Tree = Leaf | Node(i: nat, l: Tree, r: Tree)

  function Nodes(t: Tree): set<nat> {
    match t
    case Leaf => {}
    case Node(i, l, r) => {i} + Nodes(l) + Nodes(r)
  }

  predicate Room(d: seq<byte>, t: Tree, limit: nat) {
    forall x | x in Nodes(t) :: Fits(d, x, limit)
  }

  predicate Fits(d: seq<byte>, x: nat, limit: nat) {
    x + limit <= |d|
  }

  predicate AllAtMost(d: seq<byte>, t: Tree, j: nat, limit: nat)
    requires Room(d, t, limit) && j + limit <= |d|
  {
    forall x | x in Nodes(t) :: Fits(d, x, limit) && AtMost(d, x, j, limit)
  }

  predicate AllAtLeast(d: seq<byte>, t: Tree, j: nat, limit: nat)
    requires Room(d, t, limit) && j + limit <= |d|
  {
    forall x | x in Nodes(t) :: Fits(d, x, limit) && AtMost(d, j, x, limit)
  }

  predicate Older(t: Tree, i: nat) {
    forall x | x in Nodes(t) :: x < i
  }

  /** Smaller texts to the left, greater ones to the right, no position twice, and every position
      older than its parent. */
  predicate Ordered(d: seq<byte>, t: Tree, limit: nat) {
    Room(d, t, limit)
    && match t
       case Leaf => true
       case Node(i, l, r) =>
         Parts(d, t, limit)
         && Ordered(d, l, limit) && Ordered(d, r, limit)
         && AllAtMost(d, l, i, limit) && AllAtLeast(d, r, i, limit)
         && Nodes(l) !! Nodes(r)
         && Older(l, i) && Older(r, i)
  }

  predicate Parts(d: seq<byte>, t: Tree, limit: nat)
    requires t.Node? && Room(d, t, limit)
    ensures Parts(d, t, limit) ==> Fits(d, t.i, limit) && Room(d, t.l, limit) && Room(d, t.r, limit)
  {
    assert t.i in Nodes(t);
    assert forall x | x in Nodes(t.l) :: x in Nodes(t);
    assert forall x | x in Nodes(t.r) :: x in Nodes(t);
    true
  }

  /** Near the end of the text comparisons see fewer bytes; the order is still one. */
  lemma {:induction false} OrderedShorter(d: seq<byte>, t: Tree, limit: nat, less: nat)
    requires Ordered(d, t, limit) && less <= limit
    ensures Ordered(d, t, less)
  {
    forall x | x in Nodes(t) ensures Fits(d, x, less) { assert Fits(d, x, limit); }
    if t.Node? {
      OrderedShorter(d, t.l, limit, less);
      OrderedShorter(d, t.r, limit, less);
      forall x | x in Nodes(t.l) ensures Fits(d, x, less) && AtMost(d, x, t.i, less) {
        assert Fits(d, x, limit);
        AtMostShorter(d, x, t.i, limit, less);
      }
      forall x | x in Nodes(t.r) ensures Fits(d, x, less) && AtMost(d, t.i, x, less) {
        assert Fits(d, x, limit);
        AtMostShorter(d, t.i, x, limit, less);
      }
    }
  }

  // ----- Inserting a position, and what is found on the way -----

  /** The parts of the tree below and above the new position, and the matches found: each longer
      than all before it, with its distance. */
  datatype Walked = Walked(less: Tree, more: Tree, found: seq<(nat, nat)>)

  function Longer(n: nat, maxLen: nat): nat {
    if maxLen < n then n else maxLen
  }

  function Report(n: nat, maxLen: nat, delta: nat): seq<(nat, nat)> {
    if maxLen < n then [(n, delta)] else []
  }

  function Walk(d: seq<byte>, t: Tree, cur: nat, limit: nat, cut: nat, maxLen: nat): Walked
    requires Ordered(d, t, limit) && cur + limit <= |d| && Older(t, cur)
    decreases t
  {
    if cut == 0 || t.Leaf? then Walked(Leaf, Leaf, [])
    else
      Below(d, t, limit, cur);
      var n := Lcp(d, t.i, cur, limit);
      var hit := Report(n, maxLen, cur - t.i);
      if n == limit then Walked(t.l, t.r, hit)
      else if d[t.i + n] < d[cur + n] then
        var w := Walk(d, t.r, cur, limit, cut - 1, Longer(n, maxLen));
        Walked(Node(t.i, t.l, w.less), w.more, hit + w.found)
      else
        var w := Walk(d, t.l, cur, limit, cut - 1, Longer(n, maxLen));
        Walked(w.less, Node(t.i, w.more, t.r), hit + w.found)
  }

  lemma Below(d: seq<byte>, t: Tree, limit: nat, cur: nat)
    requires t.Node? && Ordered(d, t, limit) && Older(t, cur)
    ensures t.i < cur && Fits(d, t.i, limit) && Older(t.l, cur) && Older(t.r, cur)
    ensures Nodes(t) == {t.i} + Nodes(t.l) + Nodes(t.r) && t.i !in Nodes(t.l) && t.i !in Nodes(t.r)
    ensures Ordered(d, t.l, limit) && Ordered(d, t.r, limit)
  {
    hide AllAtMost, AllAtLeast;
    assert t.i in Nodes(t);
  }

  lemma {:induction false} WalkNodes(d: seq<byte>, t: Tree, cur: nat, limit: nat, cut: nat, maxLen: nat)
    requires Ordered(d, t, limit) && cur + limit <= |d| && Older(t, cur)
    ensures var w := Walk(d, t, cur, limit, cut, maxLen);
      Nodes(w.less) <= Nodes(t) && Nodes(w.more) <= Nodes(t) && Nodes(w.less) !! Nodes(w.more)
    decreases t
  {
    hide Room, AllAtMost, AllAtLeast, Lcp;
    if cut > 0 && t.Node? {
      Below(d, t, limit, cur);
      var n := Lcp(d, t.i, cur, limit);
      if n < limit {
        if d[t.i + n] < d[cur + n] {
          WalkNodes(d, t.r, cur, limit, cut - 1, Longer(n, maxLen));
        } else {
          WalkNodes(d, t.l, cur, limit, cut - 1, Longer(n, maxLen));
        }
      }
    }
  }

  lemma AllAtMostVia(d: seq<byte>, t: Tree, i: nat, j: nat, limit: nat)
    requires Room(d, t, limit) && i + limit <= |d| && j + limit <= |d|
    requires AllAtMost(d, t, i, limit) && AtMost(d, i, j, limit)
    ensures AllAtMost(d, t, j, limit)
  {
    hide AtMost;
    forall x | x in Nodes(t) ensures Fits(d, x, limit) && AtMost(d, x, j, limit) {
      assert Fits(d, x, limit);
      AtMostTrans(d, x, i, j, limit);
    }
  }

  lemma AllAtLeastVia(d: seq<byte>, t: Tree, i: nat, j: nat, limit: nat)
    requires Room(d, t, limit) && i + limit <= |d| && j + limit <= |d|
    requires AllAtLeast(d, t, i, limit) && AtMost(d, j, i, limit)
    ensures AllAtLeast(d, t, j, limit)
  {
    hide AtMost;
    forall x | x in Nodes(t) ensures Fits(d, x, limit) && AtMost(d, j, x, limit) {
      assert Fits(d, x, limit);
      AtMostTrans(d, j, i, x, limit);
    }
  }

  lemma OlderKept(t: Tree, u: Tree, i: nat)
    requires Older(t, i) && Nodes(u) <= Nodes(t)
    ensures Older(u, i)
  {
  }

  /** A subset of the nodes keeps their bounds. */
  lemma BoundsKept(d: seq<byte>, t: Tree, u: Tree, j: nat, limit: nat)
    requires Room(d, t, limit) && j + limit <= |d| && Nodes(u) <= Nodes(t)
    ensures Room(d, u, limit)
    ensures AllAtMost(d, t, j, limit) ==> AllAtMost(d, u, j, limit)
    ensures AllAtLeast(d, t, j, limit) ==> AllAtLeast(d, u, j, limit)
  {
    hide AtMost;
    forall x | x in Nodes(u) ensures Fits(d, x, limit) { assert x in Nodes(t); }
    if AllAtMost(d, t, j, limit) {
      forall x | x in Nodes(u) ensures Fits(d, x, limit) && AtMost(d, x, j, limit) { assert x in Nodes(t); }
    }
    if AllAtLeast(d, t, j, limit) {
      forall x | x in Nodes(u) ensures Fits(d, x, limit) && AtMost(d, j, x, limit) { assert x in Nodes(t); }
    }
  }

  lemma LeafOrdered(d: seq<byte>, cur: nat, limit: nat)
    requires cur + limit <= |d|
    ensures Ordered(d, Leaf, limit) && AllAtMost(d, Leaf, cur, limit) && AllAtLeast(d, Leaf, cur, limit)
  {
  }

  lemma Compare(d: seq<byte>, i: nat, cur: nat, n: nat, limit: nat)
    requires i + limit <= |d| && cur + limit <= |d| && n == Lcp(d, i, cur, limit)
    ensures n == limit || d[i + n] < d[cur + n] ==> AtMost(d, i, cur, limit)
    ensures n == limit || d[i + n] > d[cur + n] ==> AtMost(d, cur, i, limit)
  {
    AtMostTotal(d, i, cur, limit);
    AtMostTotal(d, cur, i, limit);
  }

  lemma JoinOrdered(d: seq<byte>, i: nat, l: Tree, r: Tree, cur: nat, limit: nat)
    requires i + limit <= |d| && cur + limit <= |d| && Ordered(d, l, limit) && Ordered(d, r, limit)
    requires AllAtMost(d, l, i, limit) && AllAtLeast(d, r, i, limit) && Nodes(l) !! Nodes(r)
    requires Older(l, i) && Older(r, i)
    ensures Ordered(d, Node(i, l, r), limit)
    ensures AtMost(d, i, cur, limit) && AllAtMost(d, l, cur, limit) && AllAtMost(d, r, cur, limit) ==>
      AllAtMost(d, Node(i, l, r), cur, limit)
    ensures AtMost(d, cur, i, limit) && AllAtLeast(d, l, cur, limit) && AllAtLeast(d, r, cur, limit) ==>
      AllAtLeast(d, Node(i, l, r), cur, limit)
  {
    hide AtMost;
  }

  /** The node, with its left part, stays below the new position. */
  lemma KeepsBelow(d: seq<byte>, t: Tree, u: Tree, cur: nat, limit: nat)
    requires Ordered(d, t, limit) && t.Node? && cur + limit <= |d| && Older(t, cur)
    requires Fits(d, t.i, limit) && AtMost(d, t.i, cur, limit)
    requires Nodes(u) <= Nodes(t.r) && Ordered(d, u, limit) && AllAtMost(d, u, cur, limit)
    ensures Ordered(d, Node(t.i, t.l, u), limit) && AllAtMost(d, Node(t.i, t.l, u), cur, limit)
  {
    hide Room, AllAtMost, AllAtLeast, Lcp, Nodes, AtMost, Older;
    AllAtMostVia(d, t.l, t.i, cur, limit);
    BoundsKept(d, t.r, u, t.i, limit);
    OlderKept(t.r, u, t.i);
    JoinOrdered(d, t.i, t.l, u, cur, limit);
  }

  lemma KeepsAbove(d: seq<byte>, t: Tree, u: Tree, cur: nat, limit: nat)
    requires Ordered(d, t, limit) && t.Node? && cur + limit <= |d| && Older(t, cur)
    requires Fits(d, t.i, limit) && AtMost(d, cur, t.i, limit)
    requires Nodes(u) <= Nodes(t.l) && Ordered(d, u, limit) && AllAtLeast(d, u, cur, limit)
    ensures Ordered(d, Node(t.i, u, t.r), limit) && AllAtLeast(d, Node(t.i, u, t.r), cur, limit)
  {
    hide Room, AllAtMost, AllAtLeast, Lcp, Nodes, AtMost, Older;
    AllAtLeastVia(d, t.r, t.i, cur, limit);
    BoundsKept(d, t.l, u, t.i, limit);
    OlderKept(t.l, u, t.i);
    JoinOrdered(d, t.i, u, t.r, cur, limit);
  }

  /** Both parts are ordered trees again, one below the new position and one above. */
  lemma {:induction false} WalkOrdered(d: seq<byte>, t: Tree, cur: nat, limit: nat, cut: nat, maxLen: nat)
    requires Ordered(d, t, limit) && cur + limit <= |d| && Older(t, cur)
    ensures var w := Walk(d, t, cur, limit, cut, maxLen);
      Ordered(d, w.less, limit) && Ordered(d, w.more, limit)
      && AllAtMost(d, w.less, cur, limit) && AllAtLeast(d, w.more, cur, limit)
    decreases t
  {
    hide Room, AllAtMost, AllAtLeast, Lcp, Nodes, AtMost, Older, Ordered;
    if cut == 0 || t.Leaf? {
      LeafOrdered(d, cur, limit);
    } else {
      Below(d, t, limit, cur);
      var n := Lcp(d, t.i, cur, limit);
      Compare(d, t.i, cur, n, limit);
      if n == limit {
        EqualParts(d, t, cur, limit);
      } else if d[t.i + n] < d[cur + n] {
        var w := Walk(d, t.r, cur, limit, cut - 1, Longer(n, maxLen));
        WalkOrdered(d, t.r, cur, limit, cut - 1, Longer(n, maxLen));
        WalkNodes(d, t.r, cur, limit, cut - 1, Longer(n, maxLen));
        KeepsBelow(d, t, w.less, cur, limit);
      } else {
        var w := Walk(d, t.l, cur, limit, cut - 1, Longer(n, maxLen));
        WalkOrdered(d, t.l, cur, limit, cut - 1, Longer(n, maxLen));
        WalkNodes(d, t.l, cur, limit, cut - 1, Longer(n, maxLen));
        KeepsAbove(d, t, w.more, cur, limit);
      }
    }
  }

  lemma EqualParts(d: seq<byte>, t: Tree, cur: nat, limit: nat)
    requires Ordered(d, t, limit) && t.Node? && cur + limit <= |d| && Fits(d, t.i, limit)
    requires AtMost(d, t.i, cur, limit) && AtMost(d, cur, t.i, limit)
    ensures Ordered(d, t.l, limit) && Ordered(d, t.r, limit)
    ensures AllAtMost(d, t.l, cur, limit) && AllAtLeast(d, t.r, cur, limit)
  {
    hide AllAtMost, AllAtLeast, AtMost;
    AllAtMostVia(d, t.l, t.i, cur, limit);
    AllAtLeastVia(d, t.r, t.i, cur, limit);
  }

  function Inserted(d: seq<byte>, t: Tree, cur: nat, limit: nat, cut: nat, maxLen: nat): Tree
    requires Ordered(d, t, limit) && cur + limit <= |d| && Older(t, cur)
  {
    var w := Walk(d, t, cur, limit, cut, maxLen);
    Node(cur, w.less, w.more)
  }

  /** Inserting keeps the tree ordered. */
  lemma InsertedOrdered(d: seq<byte>, t: Tree, cur: nat, limit: nat, cut: nat, maxLen: nat)
    requires Ordered(d, t, limit) && cur + limit <= |d| && Older(t, cur)
    ensures Ordered(d, Inserted(d, t, cur, limit, cut, maxLen), limit)
    ensures Nodes(Inserted(d, t, cur, limit, cut, maxLen)) <= Nodes(t) + {cur}
  {
    hide Room, AllAtMost, AllAtLeast, AtMost, Older, Walk;
    var w := Walk(d, t, cur, limit, cut, maxLen);
    WalkOrdered(d, t, cur, limit, cut, maxLen);
    WalkNodes(d, t, cur, limit, cut, maxLen);
    OlderKept(t, w.less, cur);
    OlderKept(t, w.more, cur);
    JoinOrdered(d, cur, w.less, w.more, cur, limit);
  }

  // ----- What a search reports -----

  /** A true match at one of the tree's positions, as long as it could be. */
  predicate TrueMatch(d: seq<byte>, t: Tree, cur: nat, limit: nat, len: nat, delta: nat)
    requires cur + limit <= |d|
  {
    1 <= delta <= cur && cur - delta in Nodes(t) && len <= limit && len == Lcp(d, cur - delta, cur, limit)
  }

  predicate Rising(found: seq<(nat, nat)>, maxLen: nat) {
    forall k | 0 <= k < |found| :: RisingAt(found, maxLen, k)
  }

  predicate RisingAt(found: seq<(nat, nat)>, maxLen: nat, k: nat)
    requires k < |found|
  {
    (if k == 0 then maxLen else found[k - 1].0) < found[k].0
  }

  lemma RisingCons(n: nat, maxLen: nat, delta: nat, found: seq<(nat, nat)>)
    requires Rising(found, Longer(n, maxLen))
    ensures Rising(Report(n, maxLen, delta) + found, maxLen)
  {
    var hit := Report(n, maxLen, delta);
    forall k | 0 <= k < |hit + found| ensures RisingAt(hit + found, maxLen, k) {
      if k >= |hit| { assert RisingAt(found, Longer(n, maxLen), k - |hit|); }
    }
  }

  predicate AllTrue(d: seq<byte>, t: Tree, cur: nat, limit: nat, found: seq<(nat, nat)>)
    requires cur + limit <= |d|
  {
    forall k | 0 <= k < |found| :: TrueMatch(d, t, cur, limit, found[k].0, found[k].1)
  }

  lemma AllTrueCons(d: seq<byte>, t: Tree, u: Tree, cur: nat, limit: nat, n: nat, maxLen: nat, delta: nat,
                    found: seq<(nat, nat)>)
    requires cur + limit <= |d| && TrueMatch(d, t, cur, limit, n, delta)
    requires Nodes(u) <= Nodes(t) && AllTrue(d, u, cur, limit, found)
    ensures AllTrue(d, t, cur, limit, Report(n, maxLen, delta) + found)
  {
    hide Nodes, Lcp;
    var hit := Report(n, maxLen, delta);
    forall k | 0 <= k < |found| ensures TrueMatch(d, t, cur, limit, found[k].0, found[k].1) {
      assert TrueMatch(d, u, cur, limit, found[k].0, found[k].1);
    }
  }

  /** Every reported pair is a real match at a position of the tree, of the greatest length the
      limit allows, and longer than all before it. */
  lemma {:induction false} WalkSound(d: seq<byte>, t: Tree, cur: nat, limit: nat, cut: nat, maxLen: nat)
    requires Ordered(d, t, limit) && cur + limit <= |d| && Older(t, cur)
    ensures var found := Walk(d, t, cur, limit, cut, maxLen).found;
      Rising(found, maxLen) && AllTrue(d, t, cur, limit, found)
    decreases t
  {
    hide Ordered, Lcp, AtMost, Rising, AllTrue, Older, Report, Longer, Nodes;
    NothingFound(d, t, cur, limit, maxLen);
    if cut > 0 && t.Node? {
      Below(d, t, limit, cur);
      var n := Lcp(d, t.i, cur, limit);
      assert TrueMatch(d, t, cur, limit, n, cur - t.i);
      var rest := if n == limit then []
        else Walk(d, Toward(d, t, cur, n), cur, limit, cut - 1, Longer(n, maxLen)).found;
      if n < limit {
        WalkSound(d, Toward(d, t, cur, n), cur, limit, cut - 1, Longer(n, maxLen));
      } else {
        NothingFound(d, t, cur, limit, Longer(n, maxLen));
      }
      RisingCons(n, maxLen, cur - t.i, rest);
      AllTrueCons(d, t, if n < limit then Toward(d, t, cur, n) else t, cur, limit, n, maxLen, cur - t.i, rest);
      assert Report(n, maxLen, cur - t.i) + [] == Report(n, maxLen, cur - t.i);
    }
  }

  lemma NothingFound(d: seq<byte>, t: Tree, cur: nat, limit: nat, maxLen: nat)
    requires cur + limit <= |d|
    ensures Rising([], maxLen) && AllTrue(d, t, cur, limit, [])
  {
  }

  /** The part of the tree where the search goes on. */
  function Toward(d: seq<byte>, t: Tree, cur: nat, n: nat): Tree
    requires t.Node? && t.i + n < |d| && cur + n < |d|
  {
    if d[t.i + n] < d[cur + n] then t.r else t.l
  }

  /** The report is at least so long and at most so far back. */
  predicate Offers(found: seq<(nat, nat)>, k: nat, n: nat, delta: nat) {
    k < |found| && n <= found[k].0 && found[k].1 <= delta
  }

  predicate Offered(found: seq<(nat, nat)>, n: nat, delta: nat) {
    exists k | 0 <= k < |found| :: Offers(found, k, n, delta)
  }

  function Size(t: Tree): nat {
    match t
    case Leaf => 0
    case Node(_, l, r) => Size(l) + Size(r) + 1
  }

  lemma OfferedFirst(n: nat, maxLen: nat, delta: nat, found: seq<(nat, nat)>, m: nat, back: nat)
    requires m <= Longer(n, maxLen) && delta <= back
    ensures m <= maxLen || Offered(Report(n, maxLen, delta) + found, m, back)
  {
    if maxLen < n { assert Offers(Report(n, maxLen, delta) + found, 0, m, back); }
  }

  lemma OfferedLater(n: nat, maxLen: nat, delta: nat, found: seq<(nat, nat)>, m: nat, back: nat)
    requires Offered(found, m, back)
    ensures Offered(Report(n, maxLen, delta) + found, m, back)
  {
    var hit := Report(n, maxLen, delta);
    var k :| 0 <= k < |found| && Offers(found, k, m, back);
    assert Offers(hit + found, |hit| + k, m, back);
  }

  lemma LcpAtLeast(d: seq<byte>, i: nat, j: nat, m: nat, limit: nat)
    requires i + limit <= |d| && j + limit <= |d| && m <= limit && Agree(d, i, j, m)
    ensures m <= Lcp(d, i, j, limit)
  {
    AgreeAt(d, i, j, m, Lcp(d, i, j, limit));
  }

  /** What lies beyond a node has no more in common with the position than the node itself. */
  lemma FartherOut(d: seq<byte>, t: Tree, x: nat, cur: nat, n: nat, limit: nat)
    requires Ordered(d, t, limit) && t.Node? && cur + limit <= |d| && Fits(d, t.i, limit) && Fits(d, x, limit)
    requires n == Lcp(d, t.i, cur, limit) && n < limit
    requires x == t.i || (x in Nodes(t.l) && d[t.i + n] < d[cur + n]) || (x in Nodes(t.r) && d[t.i + n] > d[cur + n])
    ensures Lcp(d, x, cur, limit) <= n
  {
    hide AtMost, Lcp, Ordered, Nodes;
    var m := Lcp(d, x, cur, limit);
    Compare(d, t.i, cur, n, limit);
    if x != t.i {
      Sides(d, t, x, limit);
      if d[t.i + n] < d[cur + n] {
        Squeeze(d, x, t.i, cur, m, limit);
      } else {
        AgreeFlip(d, x, cur, m);
        Squeeze(d, cur, t.i, x, m, limit);
        AgreeFlip(d, cur, t.i, m);
      }
      LcpAtLeast(d, t.i, cur, m, limit);
    }
  }

  lemma Sides(d: seq<byte>, t: Tree, x: nat, limit: nat)
    requires Ordered(d, t, limit) && t.Node? && Fits(d, t.i, limit) && Fits(d, x, limit)
    ensures x in Nodes(t.l) ==> AtMost(d, x, t.i, limit)
    ensures x in Nodes(t.r) ==> AtMost(d, t.i, x, limit)
  {
    hide AtMost;
  }

  /** A search that is not cut short finds, for every position of the tree, a match at least as long
      and at least as near. */
  lemma {:induction false} WalkComplete(d: seq<byte>, t: Tree, cur: nat, limit: nat, cut: nat, maxLen: nat, x: nat)
    requires Ordered(d, t, limit) && cur + limit <= |d| && Older(t, cur) && Size(t) <= cut && x in Nodes(t)
    ensures x < cur && Fits(d, x, limit)
    ensures var m := Lcp(d, x, cur, limit);
      m <= maxLen || Offered(Walk(d, t, cur, limit, cut, maxLen).found, m, cur - x)
    decreases t
  {
    hide AtMost, Lcp, Older, Ordered, Report, Nodes, Offered;
    NodeFits(d, t, x, limit);
    Below(d, t, limit, cur);
    SizeBelow(t);
    var n, m := Lcp(d, t.i, cur, limit), Lcp(d, x, cur, limit);
    if n == limit {
      OfferedFirst(n, maxLen, cur - t.i, [], m, cur - x);
      assert Report(n, maxLen, cur - t.i) + [] == Report(n, maxLen, cur - t.i);
    } else {
      var u := Toward(d, t, cur, n);
      var found := Walk(d, u, cur, limit, cut - 1, Longer(n, maxLen)).found;
      if x in Nodes(u) {
        WalkComplete(d, u, cur, limit, cut - 1, Longer(n, maxLen), x);
        if m <= Longer(n, maxLen) {
          OfferedFirst(n, maxLen, cur - t.i, found, m, cur - x);
        } else {
          OfferedLater(n, maxLen, cur - t.i, found, m, cur - x);
        }
      } else {
        FartherOut(d, t, x, cur, n, limit);
        OfferedFirst(n, maxLen, cur - t.i, found, m, cur - x);
      }
    }
  }

  lemma SizeBelow(t: Tree)
    requires t.Node?
    ensures Size(t.l) < Size(t) && Size(t.r) < Size(t)
  {
  }

  lemma NodeFits(d: seq<byte>, t: Tree, x: nat, limit: nat)
    requires Ordered(d, t, limit) && x in Nodes(t)
    ensures Fits(d, x, limit) && t.Node? && x <= t.i
  {
  }
}
