/** wiipax/client/LzFind.c, Hc_GetMatchesSpec: positions with the same hash, linked from the newest
    to the oldest through the cyclic array `son`. */
module LzFindChain {
  import opened Numbers
  import opened LzSuffixTree
  import opened LzFindTree

  /** `v` leads to the first position of the chain, and each position's slot to the next. */
  predicate Linked(sons: seq<nat>, size: nat, at: nat, pos: nat, v: nat, chain: seq<nat>)
    requires size > 0 && |sons| == size
    decreases |chain|
  {
    if chain == [] then v + size <= pos
    else
      chain[0] < at && at - chain[0] < size && pos == v + (at - chain[0])
      && Linked(sons, size, at, pos, sons[Slot(chain[0], size)], chain[1..])
  }

  predicate InRing(chain: seq<nat>, at: nat, size: nat) {
    forall k | 0 <= k < |chain| :: IsRecent(chain[k], at, size)
  }

  lemma {:induction false} LinkedRecent(sons: seq<nat>, size: nat, at: nat, pos: nat, v: nat, chain: seq<nat>)
    requires size > 0 && |sons| == size && Linked(sons, size, at, pos, v, chain)
    ensures InRing(chain, at, size)
    decreases |chain|
  {
    if chain != [] {
      LinkedRecent(sons, size, at, pos, sons[Slot(chain[0], size)], chain[1..]);
      forall k | 0 <= k < |chain| ensures IsRecent(chain[k], at, size) {
        if k > 0 { assert chain[k] == chain[1..][k - 1]; }
      }
    }
  }

  /** Writing the current position's slot touches no chain. */
  lemma {:induction false} LinkedWrite(sons: seq<nat>, size: nat, at: nat, pos: nat, v: nat, chain: seq<nat>, x: nat)
    requires size > 0 && |sons| == size && Linked(sons, size, at, pos, v, chain)
    ensures Linked(sons[Slot(at, size) := x], size, at, pos, v, chain)
    decreases |chain|
  {
    if chain != [] {
      SlotsDiffer(chain[0], at, size);
      LinkedWrite(sons, size, at, pos, sons[Slot(chain[0], size)], chain[1..], x);
    }
  }

  // ----- The search -----

  function ChainFound(d: seq<byte>, chain: seq<nat>, at: nat, limit: nat, cut: nat, maxLen: nat,
                      size: nat): seq<(nat, nat)>
    requires at + limit <= |d| && InRing(chain, at, size)
    decreases |chain|
  {
    if cut == 0 || chain == [] then []
    else
      ChainHead(chain, at, size);
      var n := Lcp(d, chain[0], at, limit);
      Report(n, maxLen, at - chain[0])
      + if maxLen < n == limit then [] else ChainFound(d, chain[1..], at, limit, cut - 1, Longer(n, maxLen), size)
  }

  lemma ChainHead(chain: seq<nat>, at: nat, size: nat)
    requires InRing(chain, at, size) && chain != []
    ensures IsRecent(chain[0], at, size) && InRing(chain[1..], at, size)
  {
    forall k | 0 <= k < |chain[1..]| ensures IsRecent(chain[1..][k], at, size) {
      assert IsRecent(chain[k + 1], at, size);
    }
  }

  /** A true match, as long as it could be. */
  predicate ChainMatch(d: seq<byte>, chain: seq<nat>, at: nat, limit: nat, len: nat, delta: nat)
    requires at + limit <= |d|
  {
    1 <= delta <= at && at - delta in chain && len == Lcp(d, at - delta, at, limit)
  }

  predicate AllMatch(d: seq<byte>, chain: seq<nat>, at: nat, limit: nat, found: seq<(nat, nat)>)
    requires at + limit <= |d|
  {
    forall k | 0 <= k < |found| :: ChainMatch(d, chain, at, limit, found[k].0, found[k].1)
  }

  lemma {:induction false} ChainSound(d: seq<byte>, chain: seq<nat>, at: nat, limit: nat, cut: nat, maxLen: nat,
                                      size: nat)
    requires at + limit <= |d| && InRing(chain, at, size)
    ensures var found := ChainFound(d, chain, at, limit, cut, maxLen, size);
      Rising(found, maxLen) && AllMatch(d, chain, at, limit, found)
    decreases |chain|
  {
    hide Lcp, Report, Longer, Rising, AllMatch, InRing;
    Nothing(d, chain, at, limit, maxLen);
    if cut > 0 && chain != [] {
      ChainHead(chain, at, size);
      var n := Lcp(d, chain[0], at, limit);
      assert ChainMatch(d, chain, at, limit, n, at - chain[0]);
      Nothing(d, chain[1..], at, limit, Longer(n, maxLen));
      ChainSound(d, chain[1..], at, limit, cut - 1, Longer(n, maxLen), size);
      var rest := if maxLen < n == limit then []
        else ChainFound(d, chain[1..], at, limit, cut - 1, Longer(n, maxLen), size);
      RisingCons(n, maxLen, at - chain[0], rest);
      MatchCons(d, chain, at, limit, n, maxLen, rest);
    }
  }

  lemma Nothing(d: seq<byte>, chain: seq<nat>, at: nat, limit: nat, maxLen: nat)
    requires at + limit <= |d|
    ensures Rising([], maxLen) && AllMatch(d, chain, at, limit, [])
  {
  }

  lemma MatchCons(d: seq<byte>, chain: seq<nat>, at: nat, limit: nat, n: nat, maxLen: nat, rest: seq<(nat, nat)>)
    requires at + limit <= |d| && chain != [] && chain[0] < at && n == Lcp(d, chain[0], at, limit)
    requires AllMatch(d, chain[1..], at, limit, rest)
    ensures AllMatch(d, chain, at, limit, Report(n, maxLen, at - chain[0]) + rest)
  {
    hide Lcp;
    var all := Report(n, maxLen, at - chain[0]) + rest;
    forall k | 0 <= k < |all| ensures ChainMatch(d, chain, at, limit, all[k].0, all[k].1) {
      if maxLen < n && k == 0 {
      } else {
        assert all[k] == rest[k - |Report(n, maxLen, at - chain[0])|];
      }
    }
  }

  /** From the newest to the oldest. */
  predicate Falling(chain: seq<nat>) {
    forall k | 0 < k < |chain| :: FallsAt(chain, k)
  }

  predicate FallsAt(chain: seq<nat>, k: nat)
    requires 0 < k < |chain|
  {
    chain[k] < chain[k - 1]
  }

  lemma {:induction false} FallingBelow(chain: seq<nat>, k: nat)
    requires Falling(chain) && k < |chain|
    ensures chain[k] <= chain[0]
    ensures Falling(chain[1..])
  {
    if k > 0 {
      assert FallsAt(chain, k);
      FallingBelow(chain, k - 1);
    }
    forall i | 0 < i < |chain[1..]| ensures FallsAt(chain[1..], i) { assert FallsAt(chain, i + 1); }
  }

  /** A search that is not cut short finds, for every position of the chain, a match at least as
      long and at least as near. */
  lemma {:induction false} ChainComplete(d: seq<byte>, chain: seq<nat>, at: nat, limit: nat, cut: nat, maxLen: nat,
                                         size: nat, x: nat)
    requires at + limit <= |d| && InRing(chain, at, size) && |chain| <= cut && x in chain && Falling(chain)
    ensures x < at
    ensures var m := Lcp(d, x, at, limit);
      m <= maxLen || Offered(ChainFound(d, chain, at, limit, cut, maxLen, size), m, at - x)
    decreases |chain|
  {
    hide Lcp, Report, Offered, Falling;
    ChainHead(chain, at, size);
    var k :| 0 <= k < |chain| && chain[k] == x;
    assert IsRecent(chain[k], at, size);
    FallingBelow(chain, k);
    var n, m := Lcp(d, chain[0], at, limit), Lcp(d, x, at, limit);
    var rest := if maxLen < n == limit then []
      else ChainFound(d, chain[1..], at, limit, cut - 1, Longer(n, maxLen), size);
    if k == 0 || maxLen < n == limit {
      OfferedFirst(n, maxLen, at - chain[0], rest, m, at - x);
    } else {
      assert chain[1..][k - 1] == x;
      ChainComplete(d, chain[1..], at, limit, cut - 1, Longer(n, maxLen), size, x);
      if m <= Longer(n, maxLen) {
        OfferedFirst(n, maxLen, at - chain[0], rest, m, at - x);
      } else {
        OfferedLater(n, maxLen, at - chain[0], rest, m, at - x);
      }
    }
  }

  ghost predicate Chained(d: seq<byte>, sons: seq<nat>, size: nat, at: nat, pos: nat, v: nat, chain: seq<nat>,
                          limit: nat) {
    0 < size <= pos && |sons| == size && at + limit <= |d| && v <= pos && Linked(sons, size, at, pos, v, chain)
    && InRing(chain, at, size)
  }

  /** The reports still to come. */
  ghost function ChainToFind(d: seq<byte>, chain: seq<nat>, at: nat, limit: nat, cut: nat, maxLen: nat,
                             size: nat): seq<int>
    requires at + limit <= |d| && InRing(chain, at, size)
  {
    Pairs(ChainFound(d, chain, at, limit, cut, maxLen, size))
  }

  lemma AtLink(d: seq<byte>, sons: seq<nat>, size: nat, at: nat, pos: nat, v: nat, chain: seq<nat>, limit: nat)
    requires Chained(d, sons, size, at, pos, v, chain, limit)
    ensures chain == [] <==> pos - v >= size
    ensures chain != [] ==> var delta := pos - v; var c := Slot(at, size);
      && 0 < delta <= at && chain[0] == at - delta
      && Slot(chain[0], size) == c - delta + (if delta > c then size else 0)
      && Chained(d, sons, size, at, pos, sons[Slot(chain[0], size)], chain[1..], limit)
  {
    if chain != [] {
      ChainHead(chain, at, size);
      SlotBack(at, pos - v, size);
      LinkBound(sons, size, at, pos, sons[Slot(chain[0], size)], chain[1..]);
    }
  }

  lemma LinkBound(sons: seq<nat>, size: nat, at: nat, pos: nat, v: nat, chain: seq<nat>)
    requires size > 0 && |sons| == size && Linked(sons, size, at, pos, v, chain)
    ensures v <= pos
  {
  }

  lemma ChainMore(d: seq<byte>, chain: seq<nat>, at: nat, limit: nat, cut: nat, maxLen: nat, size: nat, sofar: seq<int>,
                  all: seq<int>, n: nat)
    requires at + limit <= |d| && InRing(chain, at, size) && chain != [] && cut > 0 && InRing(chain[1..], at, size)
    requires chain[0] < at && n == Lcp(d, chain[0], at, limit)
    requires sofar + ChainToFind(d, chain, at, limit, cut, maxLen, size) == all
    ensures var more := sofar + if maxLen < n then Pair(n, at - chain[0]) else [];
      if maxLen < n == limit then more == all
      else more + ChainToFind(d, chain[1..], at, limit, cut - 1, Longer(n, maxLen), size) == all
  {
    hide Lcp, Longer, Pair, Pairs, Report, InRing;
    var rest := if maxLen < n == limit then []
      else ChainFound(d, chain[1..], at, limit, cut - 1, Longer(n, maxLen), size);
    PairsReport(n, maxLen, at - chain[0], rest);
    NoPairs();
  }

  lemma NoPairs()
    ensures Pairs([]) == []
  {
  }

  lemma ChainOver(d: seq<byte>, chain: seq<nat>, at: nat, limit: nat, cut: nat, maxLen: nat, size: nat)
    requires at + limit <= |d| && InRing(chain, at, size) && (cut == 0 || chain == [])
    ensures ChainToFind(d, chain, at, limit, cut, maxLen, size) == []
  {
  }

  /** The two bytes compared first decide when the position cannot be better. */
  lemma NotLonger(d: seq<byte>, i: nat, at: nat, maxLen: nat, limit: nat)
    requires i + limit <= |d| && at + limit <= |d| && maxLen < limit
    ensures d[i + maxLen] != d[at + maxLen] ==> Lcp(d, i, at, limit) <= maxLen
    ensures d[i] != d[at] ==> Lcp(d, i, at, limit) == 0
  {
    AgreeAt(d, i, at, Lcp(d, i, at, limit), maxLen);
    AgreeAt(d, i, at, Lcp(d, i, at, limit), 0);
  }

  /** Hc_GetMatchesSpec: the position is put before its chain, and the chain searched. */
  method HcGetMatchesSpec(lenLimit: nat, curMatch0: nat, pos: nat, win: array<byte>, c: nat, son: array<nat>,
                          cyclicBufferPos: nat, cyclicBufferSize: nat, cutValue: nat, maxLen0: nat,
                          ghost d: seq<byte>, ghost at: nat, ghost chain0: seq<nat>) returns (distances: seq<int>)
    requires Chained(d, son[..], cyclicBufferSize, at, pos, curMatch0, chain0, lenLimit)
    requires Shows(win[..], c, d, at, cyclicBufferSize, lenLimit)
    requires cyclicBufferPos == Slot(at, cyclicBufferSize) && maxLen0 < lenLimit
    modifies son
    ensures distances == ChainToFind(d, chain0, at, lenLimit, cutValue, maxLen0, cyclicBufferSize)
    ensures son[..] == old(son[..])[cyclicBufferPos := curMatch0]
  {
    hide ChainToFind, Shows, Lcp, Common, Pair, Slot, Longer, InRing;
    ghost var S := cyclicBufferSize;
    LinkedWrite(son[..], S, at, pos, curMatch0, chain0, curMatch0);
    son[cyclicBufferPos] := curMatch0;
    var cut: nat, maxLen: nat, curMatch: nat := cutValue, maxLen0, curMatch0;
    distances := [];
    ghost var all := ChainToFind(d, chain0, at, lenLimit, cutValue, maxLen0, S);
    ghost var chain := chain0;
    while true
      invariant Chained(d, son[..], S, at, pos, curMatch, chain, lenLimit) && maxLen < lenLimit
      invariant distances + ChainToFind(d, chain, at, lenLimit, cut, maxLen, S) == all
      invariant son[..] == old(son[..])[cyclicBufferPos := curMatch0]
      decreases cut
    {
      AtLink(d, son[..], S, at, pos, curMatch, chain, lenLimit);
      var delta: nat := pos - curMatch;
      if cut == 0 || delta >= cyclicBufferSize {
        ChainOver(d, chain, at, lenLimit, cut, maxLen, S);
        return;
      }
      ghost var n := Lcp(d, chain[0], at, lenLimit);
      ChainMore(d, chain, at, lenLimit, cut, maxLen, S, distances, all, n);
      LongerMeans(n, maxLen);
      cut := cut - 1;
      curMatch := son[cyclicBufferPos - delta + if delta > cyclicBufferPos then cyclicBufferSize else 0];
      chain := chain[1..];
      var len := TestLen(win, c, delta, maxLen, lenLimit, d, at, S);
      if maxLen < len {
        distances := distances + Pair(len, delta);
        maxLen := len;
        if len == lenLimit { return; }
      }
    }
  }

  /** The length of a match longer than `maxLen`, or nothing: two bytes are compared first. */
  method TestLen(win: array<byte>, c: nat, delta: nat, maxLen: nat, lenLimit: nat, ghost d: seq<byte>, ghost at: nat,
                 ghost size: nat) returns (len: nat)
    requires Shows(win[..], c, d, at, size, lenLimit) && 0 < delta <= at && delta < size && maxLen < lenLimit
    ensures var n := Lcp(d, at - delta, at, lenLimit); if maxLen < n then len == n else len <= maxLen
  {
    hide Shows, Lcp, Common;
    Peek(win[..], c, d, at, size, lenLimit, delta, maxLen);
    NotLonger(d, at - delta, at, maxLen, lenLimit);
    Peek(win[..], c, d, at, size, lenLimit, delta, 0);
    len := 0;
    if win[c - delta + maxLen] == win[c + maxLen] && win[c - delta] == win[c] {
      len := MatchLen(win, c, delta, 0, lenLimit, d, at, size);
      LcpIsCommon(d, at - delta, at, lenLimit);
    }
  }

  lemma LongerMeans(n: nat, maxLen: nat)
    ensures Longer(n, maxLen) == if maxLen < n then n else maxLen
  {
  }

  lemma LcpIsCommon(d: seq<byte>, i: nat, j: nat, limit: nat)
    requires i + limit <= |d| && j + limit <= |d|
    ensures Lcp(d, i, j, limit) == Common(d, i, j, 0, limit)
  {
  }
}
