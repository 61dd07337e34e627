/** wiipax/client/LzFind.c: the match finder. A window slides over the input; hash tables and a
    cyclic array of trees or chains index the positions in it. */
module LzFind {
  import opened Numbers
  import opened LzHash
  import opened LzSuffixTree
  import opened LzFindTree
  import opened LzFindChain
  import opened LzFindIndex
  import opened LzFindCover

  const MAX_POS: nat := 0xFFFF_FFFF     // kMaxValForNormalize
  const STEP: nat := 1024               // kNormalizeStepMin

  class MatchFinder {
    const win: array<byte>              // bufferBase, of blockSize bytes
    const hash: array<nat>
    const son: array<nat>
    const crc: seq<nat>
    const btMode: bool
    const hashBits: nat                 // hashMask is 2^hashBits - 1
    const cyclicBufferSize: nat         // historySize + 1
    const matchMaxLen: nat
    const keepSizeBefore: nat
    const keepSizeAfter: nat
    const cutValue: nat
    var buffer: nat                     // index of the current position in win
    var pos: nat
    var posLimit: nat
    var streamPos: nat
    var lenLimit: nat
    var cyclicBufferPos: nat
    var streamEndWasReached: bool
    var rest: seq<byte>                 // what the input stream still holds

    ghost const data: seq<byte>         // the whole input
    ghost var at: nat                   // the current position in it
    ghost var trees: seq<Tree>
    ghost var uncut: bool               // no search in a tree was cut short so far

    /** MatchFinder_Create; the number of hash bits, which depends on the history size, and the
        contents of `crc` are parameters. */
    constructor (data: seq<byte>, crc: seq<nat>, btMode: bool, hashBits: nat, historySize: nat,
                 keepAddBufferBefore: nat, matchMaxLen: nat, keepAddBufferAfter: nat, cutValue: nat)
      requires CrcOk(crc) && 1 <= historySize <= 0xC000_0000 && matchMaxLen >= 4
      ensures Sized() && rest == data == this.data && fresh(win) && fresh(hash) && fresh(son)
      ensures this.btMode == btMode && this.cutValue == cutValue && cyclicBufferSize == historySize + 1
    {
      this.data, this.rest, this.crc, this.btMode, this.hashBits := data, data, crc, btMode, hashBits;
      this.matchMaxLen, this.cutValue, uncut := matchMaxLen, cutValue, true;
      var sizeReserv := if historySize > 0x8000_0000 then historySize / 4 else historySize / 2;
      sizeReserv := sizeReserv + (keepAddBufferBefore + matchMaxLen + keepAddBufferAfter) / 2 + 0x8_0000;
      var before, after := historySize + keepAddBufferBefore + 1, matchMaxLen + keepAddBufferAfter;
      keepSizeBefore, keepSizeAfter, cyclicBufferSize := before, after, historySize + 1;
      win := new byte[before + after + sizeReserv];
      hash := new nat[FIX4 + Pow2(hashBits)];
      son := new nat[if btMode then 2 * (historySize + 1) else historySize + 1];
    }

    ghost function X(): Text {
      Text(data, crc, hashBits, cyclicBufferSize)
    }

    ghost predicate Sized() {
      TextOk(X()) && hash != son && hash.Length == FIX4 + Pow2(hashBits)
      && son.Length == (if btMode then 2 * cyclicBufferSize else cyclicBufferSize)
      && cyclicBufferSize <= keepSizeBefore && 4 <= matchMaxLen <= keepSizeAfter
      && keepSizeBefore + keepSizeAfter < win.Length && cyclicBufferSize + STEP < MAX_POS
    }

    /** The window shows the text, with all the history the finder may use. */
    ghost predicate Window()
      reads this`buffer, this`pos, this`streamPos, this`rest, this`at, win
    {
      pos <= streamPos && Shown(win[..], data, at, buffer, streamPos - pos, rest)
      && (buffer == at || keepSizeBefore <= buffer)
    }

    /** How many bytes may be compared at the position `a`. */
    ghost function LimitAt(a: nat): nat {
      if |data| < a then 0 else if |data| - a < matchMaxLen then |data| - a else matchMaxLen
    }

    ghost predicate Numbered()
      reads this`pos, this`at, this`cyclicBufferPos
    {
      cyclicBufferSize > 0 && cyclicBufferSize <= pos < MAX_POS && cyclicBufferPos == Slot(at, cyclicBufferSize)
    }

    /** Until `posLimit` nothing has to be checked. */
    ghost predicate Limited()
      reads this`pos, this`posLimit, this`streamPos, this`lenLimit, this`cyclicBufferPos, this`streamEndWasReached,
        this`rest, this`at
    {
      pos <= streamPos && lenLimit == LimitAt(at) && (streamEndWasReached ==> rest == [])
      && (if pos == streamPos then posLimit == pos else pos < posLimit)
      && posLimit - pos <= cyclicBufferSize - cyclicBufferPos && posLimit <= MAX_POS
      && (posLimit <= pos + 1 || posLimit - pos <= streamPos - pos - keepSizeAfter)
      && (!streamEndWasReached ==> streamPos - pos > keepSizeAfter)
    }

    /** The index serves the position `a`, called `q`. */
    ghost predicate Indexed(a: nat, q: nat)
      reads this`trees, hash, son
    {
      TextOk(X()) && ShortOk(X(), hash[..], a, q)
      && if btMode then TreesOk(X(), hash[..], son[..], a, q, LimitAt(a), trees)
         else ChainsOk(X(), hash[..], son[..], a, q)
    }

    /** At the position `a` the trees cover the ring, unless a search was cut short. */
    ghost predicate Covering(a: nat)
      reads this`trees, this`uncut
    {
      TextOk(X()) && (btMode && uncut ==> CoveredAll(X(), trees, a, LimitAt(a)))
      && (cutValue >= cyclicBufferSize ==> uncut)
    }

    ghost predicate Valid()
      reads this, win, hash, son
    {
      Sized() && Window() && Numbered() && Limited() && Indexed(at, pos) && Covering(at)
    }

    // ----- The window -----

    /** The input stream delivers any number of bytes up to `size`, and none only at its end. */
    method Read(size: nat) returns (chunk: seq<byte>)
      requires size > 0
      modifies this`rest
      ensures |chunk| <= size && chunk + rest == old(rest) && (chunk == [] <==> old(rest) == [])
    {
      if rest == [] { return []; }
      var n: nat :| 1 <= n <= size && n <= |rest|;
      chunk := rest[..n];
      rest := rest[n..];
    }

    /** One round of the loop of MatchFinder_ReadBlock. */
    method ReadOnce() returns (stop: bool)
      requires Window() && !streamEndWasReached
      modifies win, this`streamPos, this`streamEndWasReached, this`rest
      ensures Window() && (streamEndWasReached ==> rest == []) && streamPos >= old(streamPos)
      ensures !stop ==> |rest| < |old(rest)| && !streamEndWasReached
      ensures stop ==>
        streamEndWasReached || streamPos - pos > keepSizeAfter || buffer + (streamPos - pos) == win.Length
    {
      hide Shown;
      ShownBounds(win[..], data, at, buffer, streamPos - pos, rest);
      var dest := buffer + (streamPos - pos);
      var size := win.Length - dest;
      if size == 0 { return true; }
      var chunk := Read(size);
      if chunk == [] {
        streamEndWasReached := true;
        return true;
      }
      ghost var before := win[..];
      forall i | 0 <= i < |chunk| { win[dest + i] := chunk[i]; }
      ShownRead(before, win[..], data, at, buffer, streamPos - pos, old(rest), chunk, rest);
      streamPos := streamPos + |chunk|;
      stop := streamPos - pos > keepSizeAfter;
    }

    /** MatchFinder_ReadBlock */
    method ReadBlock()
      requires Window() && (streamEndWasReached ==> rest == [])
      modifies win, this`streamPos, this`streamEndWasReached, this`rest
      ensures Window() && (streamEndWasReached ==> rest == [])
      ensures streamEndWasReached || streamPos - pos > keepSizeAfter || buffer + (streamPos - pos) == win.Length
      ensures streamPos >= old(streamPos) && (old(streamEndWasReached) ==> streamPos == old(streamPos))
    {
      hide Shown;
      if streamEndWasReached { return; }
      var stop := false;
      while !stop
        invariant Window() && (streamEndWasReached ==> rest == []) && streamPos >= old(streamPos)
        invariant !stop ==> !streamEndWasReached
        invariant stop ==>
          streamEndWasReached || streamPos - pos > keepSizeAfter || buffer + (streamPos - pos) == win.Length
        decreases !stop, |rest|
      {
        stop := ReadOnce();
      }
    }

    /** MatchFinder_MoveBlock: the history that is kept and all that lies ahead go to the front. */
    method MoveBlock()
      requires Window() && keepSizeBefore <= buffer
      modifies win, this`buffer
      ensures Window() && buffer == keepSizeBefore
    {
      hide Shown;
      ShownBounds(win[..], data, at, buffer, streamPos - pos, rest);
      var from, n := buffer - keepSizeBefore, streamPos - pos + keepSizeBefore;
      ghost var before := win[..];
      forall i | 0 <= i < n { win[i] := win[from + i]; }    // memmove
      ShownMoved(before, win[..], data, at, buffer, streamPos - pos, rest, keepSizeBefore);
      buffer := keepSizeBefore;
    }

    /** MatchFinder_CheckAndMoveAndRead: afterwards more than keepSizeAfter bytes lie ahead, or the
        input is at its end. */
    method CheckAndMoveAndRead()
      requires Sized() && Window() && streamPos - pos == keepSizeAfter && !streamEndWasReached
      modifies win, this`buffer, this`streamPos, this`streamEndWasReached, this`rest
      ensures Window() && (streamEndWasReached ==> rest == []) && streamPos >= old(streamPos)
      ensures streamEndWasReached || streamPos - pos > keepSizeAfter
    {
      if win.Length - buffer <= keepSizeAfter { MoveBlock(); }    // MatchFinder_NeedMove
      ReadBlock();
    }

    // ----- Limits and renormalization -----

    /** MatchFinder_SetLimits */
    method SetLimits()
      requires Sized() && Window() && Numbered() && (streamEndWasReached ==> rest == [])
      requires streamEndWasReached || streamPos - pos > keepSizeAfter
      modifies this`lenLimit, this`posLimit
      ensures Limited()
    {
      hide Shown, Slot;
      ShownBounds(win[..], data, at, buffer, streamPos - pos, rest);
      var limit := MAX_POS - pos;
      var limit2 := cyclicBufferSize - cyclicBufferPos;
      if limit2 < limit { limit := limit2; }
      limit2 := streamPos - pos;
      if limit2 <= keepSizeAfter {
        if limit2 > 0 { limit2 := 1; }
      } else {
        limit2 := limit2 - keepSizeAfter;
      }
      if limit2 < limit { limit := limit2; }
      lenLimit := streamPos - pos;
      if lenLimit > matchMaxLen { lenLimit := matchMaxLen; }
      posLimit := pos + limit;
    }

    /** MatchFinder_Normalize3 */
    method Normalize3(sub: nat, items: array<nat>)
      modifies items
      ensures items[..] == NormAll(old(items[..]), sub)
    {
      hide Norm;
      var i := 0;
      while i < items.Length
        invariant 0 <= i <= items.Length
        invariant forall k | 0 <= k < i :: items[k] == Norm(old(items[k]), sub)
        invariant forall k | i <= k < items.Length :: items[k] == old(items[k])
      {
        NormOf(items[i], sub);
        var value := items[i];
        items[i] := if value <= sub then EMPTY else value - sub;
        i := i + 1;
      }
    }

    /** MatchFinder_Normalize: all positions are renamed, none is lost or made up. */
    method Normalize()
      requires Sized() && Indexed(at, pos) && cyclicBufferSize <= pos <= streamPos && pos <= posLimit
      modifies hash, son, this`pos, this`posLimit, this`streamPos
      ensures Indexed(at, pos) && cyclicBufferSize <= pos < cyclicBufferSize + 1024 && (old(pos) - pos) % 1024 == 0
      ensures streamPos - pos == old(streamPos) - old(pos) && posLimit - pos == old(posLimit) - old(pos)
    {
      hide ShortOk, TreesOk, ChainsOk, Pow2, TextOk, NormAll;
      var subValue := (pos - cyclicBufferSize) / STEP * STEP;
      ghost var h, v := hash[..], son[..];
      Normalize3(subValue, hash);
      Normalize3(subValue, son);
      IndexNorm(X(), h, v, at, pos, LimitAt(at), trees, subValue, btMode);
      posLimit := posLimit - subValue;
      pos := pos - subValue;
      streamPos := streamPos - subValue;
    }

    /** Renumber and read on where it is time to. */
    method Refresh()
      requires Sized() && Window() && Indexed(at, pos) && cyclicBufferSize <= pos == posLimit <= MAX_POS
      requires (streamEndWasReached ==> rest == []) && (streamEndWasReached || keepSizeAfter <= streamPos - pos)
      modifies win, hash, son, this`buffer, this`pos, this`posLimit, this`streamPos, this`streamEndWasReached, this`rest
      ensures Window() && Indexed(at, pos) && cyclicBufferSize <= pos < MAX_POS
      ensures (streamEndWasReached ==> rest == []) && (streamEndWasReached || keepSizeAfter < streamPos - pos)
    {
      hide Shown, ShortOk, TreesOk, ChainsOk;
      if pos == MAX_POS { Normalize(); }
      if !streamEndWasReached && keepSizeAfter == streamPos - pos { CheckAndMoveAndRead(); }
    }

    /** MatchFinder_CheckLimits */
    method CheckLimits()
      requires Sized() && Window() && Indexed(at, pos) && Covering(at) && cyclicBufferSize <= pos == posLimit <= MAX_POS
      requires cyclicBufferPos == Slot(at, cyclicBufferSize)
        || (cyclicBufferPos == cyclicBufferSize && Slot(at, cyclicBufferSize) == 0)
      requires (streamEndWasReached ==> rest == []) && (streamEndWasReached || keepSizeAfter <= streamPos - pos)
      modifies win, hash, son, this`buffer, this`pos, this`posLimit, this`streamPos, this`lenLimit,
        this`cyclicBufferPos, this`streamEndWasReached, this`rest
      ensures Valid()
    {
      hide Shown, Slot, ShortOk, TreesOk, ChainsOk, CoveredAll;
      Refresh();
      if cyclicBufferPos == cyclicBufferSize { cyclicBufferPos := 0; }
      SetLimits();
    }

    /** MOVE_POS, once the index serves the next position. */
    method MovePos()
      requires Sized() && Window() && Numbered() && Limited() && pos < streamPos && Indexed(at + 1, pos + 1)
      requires Covering(at + 1)
      modifies win, hash, son, this`buffer, this`pos, this`posLimit, this`streamPos, this`lenLimit,
        this`cyclicBufferPos, this`streamEndWasReached, this`rest, this`at
      ensures Valid() && at == old(at) + 1
    {
      hide Shown, Slot, ShortOk, TreesOk, ChainsOk;
      ShownStep(win[..], data, at, buffer, streamPos - pos, rest);
      SlotStep(at, cyclicBufferSize);
      cyclicBufferPos := cyclicBufferPos + 1;
      buffer := buffer + 1;
      pos := pos + 1;
      at := at + 1;
      if pos == posLimit { CheckLimits(); }
    }

    method ClearHash()
      modifies hash
      ensures forall k | 0 <= k < hash.Length :: hash[k] == EMPTY
    {
      var i := 0;
      while i < hash.Length
        invariant 0 <= i <= hash.Length && forall k | 0 <= k < i :: hash[k] == EMPTY
      {
        hash[i] := EMPTY;
        i := i + 1;
      }
    }

    method Restart()
      requires Sized() && rest == data
      modifies hash, this`buffer, this`pos, this`streamPos, this`cyclicBufferPos, this`streamEndWasReached, this`at,
        this`trees, this`uncut
      ensures Window() && Numbered() && Indexed(at, pos) && Covering(0) && at == 0 == buffer && !streamEndWasReached
    {
      hide Slot, ShortOk, TreesOk, ChainsOk, Pow2;
      ClearHash();
      cyclicBufferPos, buffer := 0, 0;
      pos, streamPos := cyclicBufferSize, cyclicBufferSize;
      streamEndWasReached := false;
      at := 0;
      trees, uncut := seq(hash.Length - FIX4, _ => Leaf), true;
      CoverEmpty(X(), trees, LimitAt(0));
      IndexEmpty(X(), hash[..], son[..], LimitAt(0), trees, btMode);
      SlotZero(cyclicBufferSize);
      assert data == data[0..];
    }

    /** MatchFinder_Init */
    method Init()
      requires Sized() && rest == data
      modifies win, hash, this`buffer, this`pos, this`posLimit, this`streamPos, this`lenLimit, this`cyclicBufferPos,
        this`streamEndWasReached, this`rest, this`at, this`trees, this`uncut
      ensures Valid() && at == 0
    {
      hide Shown, Slot, ShortOk, TreesOk, ChainsOk, Indexed, TextOk;
      Restart();
      ReadBlock();
      SetLimits();
    }

    // ----- Matches at the current position -----

    /** What a search may use: four bytes or more lie ahead and the window shows them. */
    ghost predicate Searching()
      reads this, win, hash, son
    {
      Valid() && lenLimit >= 4 && at + lenLimit <= |data| && lenLimit == LimitAt(at)
      && Shows(win[..], buffer, data, at, cyclicBufferSize, lenLimit)
    }

    /** The bytes to compare, and no more. */
    ghost predicate Seeing()
      reads this`lenLimit, this`buffer, this`at, win
    {
      TextOk(X()) && lenLimit >= 4 && at + lenLimit <= |data| && HasKey(X(), at)
      && Shows(win[..], buffer, data, at, cyclicBufferSize, lenLimit)
    }

    lemma CanSearch()
      requires Valid()
      ensures lenLimit >= 4 ==> Searching() && Seeing() && HasKey(X(), at) && pos < streamPos
      ensures lenLimit < 4 ==> !HasKey(X(), at)
    {
      hide Slot, ShortOk, TreesOk, ChainsOk, TextOk;
      ShownBounds(win[..], data, at, buffer, streamPos - pos, rest);
      if lenLimit >= 4 {
        ShownShows(win[..], data, at, buffer, streamPos - pos, rest, cyclicBufferSize, lenLimit);
      }
    }

    /** HASH4_CALC */
    method HashCalc() returns (hash2Value: nat, hash3Value: nat, hashValue: nat)
      requires Seeing()
      ensures hash2Value == Key2(X(), at) < 1024 && hash3Value == Key3(X(), at) < 0x1_0000
      ensures hashValue == Key(X(), at) < Pow2(hashBits)
    {
      hide Shown, ShortOk, TreesOk, ChainsOk, Slot, Hash2, Hash3, Hash4;
      FourBytes(win[..], buffer, data, at, cyclicBufferSize, lenLimit);
      var b0, b1, b2, b3 := win[buffer], win[buffer + 1], win[buffer + 2], win[buffer + 3];
      HashBounds(crc, hashBits, b0, b1, b2, b3);
      hash2Value := Hash2(crc, b0, b1);
      hash3Value := Hash3(crc, b0, b1, b2);
      hashValue := Hash4(crc, hashBits, b0, b1, b2, b3);
    }

    /** The distances in the two short tables and the head of the tree or chain; the position takes
        their places. */
    method Enter(hash2Value: nat, hash3Value: nat, hashValue: nat) returns (delta2: nat, delta3: nat, curMatch: nat)
      requires Seeing() && cyclicBufferSize <= pos && ShortOk(X(), hash[..], at, pos)
      requires hash2Value == Key2(X(), at) < 1024 && hash3Value == Key3(X(), at) < 0x1_0000
      requires hashValue == Key(X(), at) < hash.Length - FIX4
      modifies hash
      ensures ShortOk(X(), hash[..], at + 1, pos + 1) && curMatch == old(hash[FIX4 + hashValue])
      ensures forall k | FIX4 <= k < hash.Length :: hash[k] == if k - FIX4 == hashValue then pos else old(hash[k])
      ensures Hit2(X(), at, delta2) && Hit3(X(), at, delta3)
    {
      hide Key, Key2, Key3, Shows;
      ghost var h := hash[..];
      assert Holds2(X(), h[hash2Value], at, pos, hash2Value);
      assert Holds3(X(), h[FIX3 + hash3Value], at, pos, FIX3 + hash3Value - FIX3);
      delta2 := pos - hash[hash2Value];
      delta3 := pos - hash[FIX3 + hash3Value];
      curMatch := hash[FIX4 + hashValue];
      hash[hash2Value] := pos;
      hash[FIX3 + hash3Value] := pos;
      hash[FIX4 + hashValue] := pos;
      ShortInserted(X(), h, hash[..], at, pos);
    }

    /** The tables' suggestions: a match of at least `sure` bytes, `delta` back; before it the
        shorter one, if there are two. */
    method Suggested(delta2: nat, delta3: nat) returns (distances: seq<int>, sure: nat, delta: nat)
      requires Seeing() && Hit2(X(), at, delta2) && Hit3(X(), at, delta3)
      ensures var hit2, hit3 := Begins(X(), at, delta2), delta2 != delta3 && Begins(X(), at, delta3);
        && sure == (if hit3 then 3 else if hit2 then 2 else 1) && delta == (if hit3 then delta3 else delta2)
        && distances == (if hit2 && hit3 then Pair(2, delta2) else [])
      ensures AreMatches(data, at, cyclicBufferSize, lenLimit, distances)
      ensures sure >= 2 ==> 0 < delta <= at && delta < cyclicBufferSize && Agree(data, at - delta, at, sure)
    {
      hide Hash2, Hash3, Hash4, IsMatch, CrcOk, Key2, Key3;
      FourBytes(win[..], buffer, data, at, cyclicBufferSize, lenLimit);
      distances, sure, delta := [], 1, delta2;
      if delta2 < cyclicBufferSize {
        Peek(win[..], buffer, data, at, cyclicBufferSize, lenLimit, delta2, 0);
        if win[buffer - delta2] == win[buffer] {
          TwoAgree(X(), at, delta2);
          sure := 2;
        }
      }
      if delta2 != delta3 && delta3 < cyclicBufferSize {
        Peek(win[..], buffer, data, at, cyclicBufferSize, lenLimit, delta3, 0);
        if win[buffer - delta3] == win[buffer] {
          ThreeAgree(X(), at, delta3);
          if sure == 2 {
            FirstMatch(data, at, cyclicBufferSize, lenLimit, delta2);
            distances := Pair(2, delta2);
          }
          sure, delta := 3, delta3;
        }
      }
    }

    /** The matches that the tables for two and three bytes suggest: `maxLen` is the length of the
        last, or 1. */
    method ShortMatches(delta2: nat, delta3: nat) returns (distances: seq<int>, maxLen: nat)
      requires Seeing() && Hit2(X(), at, delta2) && Hit3(X(), at, delta3)
      ensures AreMatches(data, at, cyclicBufferSize, lenLimit, distances) && maxLen <= lenLimit
      ensures maxLen == if distances == [] then 1 else distances[|distances| - 2]
      ensures ShortFound(X(), at, lenLimit, distances) && NearLast(data, at, cyclicBufferSize, distances)
    {
      hide Hit2, Hit3, Common, AreMatches, CrcOk, ShortFound, NearLast, HasKey, Key2, Key3, Begins, Lcp, Shows;
      var sure: nat, delta: nat;
      distances, sure, delta := Suggested(delta2, delta3);
      maxLen := 1;
      if sure >= 2 {
        maxLen := MatchLen(win, buffer, delta, sure, lenLimit, data, at, cyclicBufferSize);
        Extended(data, at, delta, sure, maxLen, lenLimit);
        OneMore(data, at, cyclicBufferSize, lenLimit, distances, maxLen, delta);
        distances := distances + Pair(maxLen, delta);
      }
      ShortReported(X(), at, lenLimit, delta2, delta3, distances);
    }

    /** Fewer than four bytes lie ahead: the position is not entered. */
    method Pass()
      requires Valid() && lenLimit < 4 && at < |data|
      modifies win, hash, son, this`buffer, this`pos, this`posLimit, this`streamPos, this`lenLimit,
        this`cyclicBufferPos, this`streamEndWasReached, this`rest, this`at, this`trees, this`uncut
      ensures Valid() && at == old(at) + 1
    {
      hide Shown, Slot, ShortOk, TreesOk, ChainsOk, TextOk;
      CanSearch();
      ShownBounds(win[..], data, at, buffer, streamPos - pos, rest);
      ShortPassed(X(), hash[..], at, pos);
      if btMode {
        TreesPassed(X(), hash[..], son[..], at, pos, LimitAt(at), LimitAt(at + 1), trees);
        if uncut { CoverPassed(X(), hash[..], son[..], at, pos, LimitAt(at), LimitAt(at + 1), trees); }
        trees := AgedAll(trees, at + 1, cyclicBufferSize);
      } else {
        ChainsPassed(X(), hash[..], son[..], at, pos);
      }
      MovePos();
    }

    /** Hc4_MatchFinder_GetMatches: real matches of rising length; the last is the longest of all
        positions in the ring, if that is four bytes or more and the search is not cut short. */
    method Hc4GetMatches() returns (distances: seq<int>)
      requires Valid() && !btMode && at < |data|
      modifies win, hash, son, this`buffer, this`pos, this`posLimit, this`streamPos, this`lenLimit,
        this`cyclicBufferPos, this`streamEndWasReached, this`rest, this`at, this`trees, this`uncut
      ensures Valid() && at == old(at) + 1
      ensures old(lenLimit) < 4 ==> distances == []
      ensures old(lenLimit) >= 4 ==>
        TextOk(X()) && HasKey(X(), old(at)) && ShortFound(X(), old(at), old(lenLimit), distances)
        && AreMatches(data, old(at), cyclicBufferSize, old(lenLimit), distances)
      ensures old(lenLimit) >= 4 && cutValue >= cyclicBufferSize ==>
        Longest(data, old(at), cyclicBufferSize, old(lenLimit), distances)
    {
      hide Shown, Slot, ShortOk, TreesOk, ChainsOk, TextOk, Shows, AreMatches, Longest, Hit2, Hit3, Key, Key2, Key3,
        Pow2, ShortFound, NearLast;
      CanSearch();
      if lenLimit < 4 {
        Pass();
        return [];
      }
      var hash2Value, hash3Value, hashValue := HashCalc();
      ghost var h, v := hash[..], son[..];
      var delta2, delta3, curMatch := Enter(hash2Value, hash3Value, hashValue);
      var maxLen: nat;
      distances, maxLen := ShortMatches(delta2, delta3);
      ghost var short := distances;
      distances := Hc4Rest(curMatch, distances, maxLen, hashValue, h);
      ShortKept(X(), at, lenLimit, short, distances);
      ChainsInserted(X(), h, hash[..], v, at, pos);
      MovePos();
    }

    method Hc4Rest(curMatch: nat, short: seq<int>, shortLen: nat, ghost hashValue: nat, ghost h: seq<nat>)
      returns (distances: seq<int>)
      requires Seeing() && Numbered() && ChainsOk(X(), h, son[..], at, pos) && hashValue == Key(X(), at) < |h| - FIX4
      requires curMatch == h[FIX4 + hashValue] && hash != son && son.Length == cyclicBufferSize
      requires AreMatches(data, at, cyclicBufferSize, lenLimit, short) && shortLen <= lenLimit
      requires NearLast(data, at, cyclicBufferSize, short)
      requires shortLen == if short == [] then 1 else short[|short| - 2]
      modifies son
      ensures son[..] == old(son[..])[Slot(at, cyclicBufferSize) := curMatch]
      ensures AreMatches(data, at, cyclicBufferSize, lenLimit, distances) && short <= distances
      ensures cutValue >= cyclicBufferSize ==> Longest(data, at, cyclicBufferSize, lenLimit, distances)
    {
      hide Shows, AreMatches, Longest, Slot, ChainsOk, TextOk, Key, NearLast;
      MatchesPaired(data, at, cyclicBufferSize, lenLimit, short);
      if shortLen == lenLimit {
        son[cyclicBufferPos] := curMatch;
        LongestAtLimit(data, at, cyclicBufferSize, lenLimit, short);
        return short;
      }
      var maxLen := if shortLen < 3 then 3 else shortLen;
      ghost var chain := Members(X(), RingStart(at, cyclicBufferSize), at, hashValue);
      ChainReady(X(), h, son[..], at, pos, lenLimit);
      var more := HcGetMatchesSpec(lenLimit, curMatch, pos, win, buffer, son, cyclicBufferPos, cyclicBufferSize,
                                   cutValue, maxLen, data, at, chain);
      ChainResult(X(), at, lenLimit, cutValue, maxLen, short, chain);
      distances := short + more;
    }

    /** Hc4_MatchFinder_Skip, one round. */
    method Hc4Skip()
      requires Valid() && !btMode && at < |data|
      modifies win, hash, son, this`buffer, this`pos, this`posLimit, this`streamPos, this`lenLimit,
        this`cyclicBufferPos, this`streamEndWasReached, this`rest, this`at, this`trees, this`uncut
      ensures Valid() && at == old(at) + 1
    {
      hide Shown, Slot, ShortOk, TreesOk, ChainsOk, TextOk, Shows, Hit2, Hit3, Key, Key2, Key3, Pow2;
      CanSearch();
      if lenLimit < 4 {
        Pass();
        return;
      }
      var hash2Value, hash3Value, hashValue := HashCalc();
      ghost var h, v := hash[..], son[..];
      var delta2, delta3, curMatch := Enter(hash2Value, hash3Value, hashValue);
      son[cyclicBufferPos] := curMatch;
      ChainsInserted(X(), h, hash[..], v, at, pos);
      MovePos();
    }

    /** Bt4_MatchFinder_GetMatches: real matches of rising length; the last is the longest of all
        positions in the tree, if that is four bytes or more and the search is not cut short. If no
        search ever was, it is the longest of all positions in the ring. */
    method Bt4GetMatches() returns (distances: seq<int>)
      requires Valid() && btMode && at < |data|
      modifies win, hash, son, this`buffer, this`pos, this`posLimit, this`streamPos, this`lenLimit,
        this`cyclicBufferPos, this`streamEndWasReached, this`rest, this`at, this`trees, this`uncut
      ensures Valid() && at == old(at) + 1
      ensures old(lenLimit) < 4 ==> distances == []
      ensures old(lenLimit) >= 4 ==>
        TextOk(X()) && HasKey(X(), old(at)) && Key(X(), old(at)) < |old(trees)|
        && AreMatches(data, old(at), cyclicBufferSize, old(lenLimit), distances)
        && ShortFound(X(), old(at), old(lenLimit), distances)
        && LongestInTree(data, old(at), old(lenLimit), cutValue, old(trees)[Key(X(), old(at))], distances)
        && (uncut <==> old(uncut) && Size(old(trees)[Key(X(), old(at))]) <= cutValue)
      ensures old(lenLimit) >= 4 && uncut ==> Longest(data, old(at), cyclicBufferSize, old(lenLimit), distances)
    {
      hide Shown, Slot, ShortOk, TreesOk, ChainsOk, TextOk, Shows, AreMatches, LongestInTree, Hit2, Hit3, Key, Key2,
        Key3, Pow2, Splice, Grown, CoveredAll, Longest, Size, Ordered, Older, ShortFound, NearLast,
        Searchable, Agree;
      CanSearch();
      if lenLimit < 4 {
        Pass();
        return [];
      }
      var hash2Value, hash3Value, hashValue := HashCalc();
      ghost var h, v := hash[..], son[..];
      TreeReady(X(), h, v, at, pos, lenLimit, trees);
      var delta2, delta3, curMatch := Enter(hash2Value, hash3Value, hashValue);
      var maxLen: nat;
      distances, maxLen := ShortMatches(delta2, delta3);
      ghost var short := distances;
      distances := Bt4Rest(curMatch, distances, maxLen, hashValue);
      ShortKept(X(), at, lenLimit, short, distances);
      if uncut && Size(trees[hashValue]) <= cutValue {
        CoverLongest(X(), trees, at, lenLimit, cutValue, distances);
      }
      EnterTree(h, v, hashValue);
      TreesInserted(X(), h, hash[..], v, son[..], at, pos, lenLimit, LimitAt(at + 1), trees, cutValue, 0);
      trees := Grown(X(), trees, at, lenLimit, hashValue, cutValue, 0);
      MovePos();
    }

    /** Whether the trees will still cover the ring. */
    ghost method EnterTree(h: seq<nat>, v: seq<nat>, hashValue: nat)
      requires Covering(at) && btMode && TreesOk(X(), h, v, at, pos, LimitAt(at), trees)
      requires HasKey(X(), at) && hashValue == Key(X(), at) < |trees| && at + LimitAt(at) <= |data|
      requires Ordered(data, trees[hashValue], LimitAt(at)) && Older(trees[hashValue], at)
      modifies this`uncut
      ensures uncut <==> old(uncut) && Size(trees[hashValue]) <= cutValue
      ensures cutValue >= cyclicBufferSize ==> uncut
      ensures uncut ==> CoveredAll(X(), Grown(X(), trees, at, LimitAt(at), hashValue, cutValue, 0), at + 1,
        LimitAt(at + 1))
    {
      hide TreesOk, CoveredAll, Grown, Key, TextOk, Size, Ordered, Older;
      NotCut(X(), h, v, at, pos, LimitAt(at), trees, hashValue);
      uncut := uncut && Size(trees[hashValue]) <= cutValue;
      if uncut { CoverInserted(X(), h, v, at, pos, LimitAt(at), LimitAt(at + 1), trees, cutValue, 0); }
    }

    method Bt4Rest(curMatch: nat, short: seq<int>, shortLen: nat, ghost hashValue: nat) returns (distances: seq<int>)
      requires Seeing() && Numbered() && hashValue < |trees|
      requires Searchable(data, son[..], cyclicBufferSize, at, pos, curMatch, trees[hashValue], lenLimit)
      requires AreMatches(data, at, cyclicBufferSize, lenLimit, short) && shortLen <= lenLimit
      requires NearLast(data, at, cyclicBufferSize, short)
      requires shortLen == if short == [] then 1 else short[|short| - 2]
      modifies son
      ensures Searchable(data, old(son[..]), cyclicBufferSize, at, pos, curMatch, trees[hashValue], lenLimit)
      ensures son[..] == Splice(data, old(son[..]), cyclicBufferSize, at, pos, 2 * cyclicBufferPos + 1,
                                2 * cyclicBufferPos, trees[hashValue], lenLimit, cutValue)
      ensures AreMatches(data, at, cyclicBufferSize, lenLimit, distances) && short <= distances
      ensures LongestInTree(data, at, lenLimit, cutValue, trees[hashValue], distances)
    {
      hide Shows, AreMatches, LongestInTree, Slot, TextOk, Key, Splice, Ordered, Older, Rep, ToFind, NearLast, Recent;
      MatchesPaired(data, at, cyclicBufferSize, lenLimit, short);
      ghost var t := trees[hashValue];
      if shortLen == lenLimit {
        RepRecent(son[..], cyclicBufferSize, at, pos, curMatch, t);
        LimitBeats(data, at, cyclicBufferSize, lenLimit, cutValue, t, short);
        SkipMatchesSpec(lenLimit, curMatch, pos, win, buffer, son, cyclicBufferPos, cyclicBufferSize, cutValue, data,
          at, t);
        return short;
      }
      var maxLen := if shortLen < 3 then 3 else shortLen;
      TreeResult(data, son[..], cyclicBufferSize, at, pos, curMatch, t, lenLimit, cutValue, maxLen, short);
      var more := GetMatchesSpec1(lenLimit, curMatch, pos, win, buffer, son, cyclicBufferPos, cyclicBufferSize,
                                  cutValue, maxLen, data, at, t);
      distances := short + more;
    }

    /** Bt4_MatchFinder_Skip, one round. */
    method Bt4Skip()
      requires Valid() && btMode && at < |data|
      modifies win, hash, son, this`buffer, this`pos, this`posLimit, this`streamPos, this`lenLimit,
        this`cyclicBufferPos, this`streamEndWasReached, this`rest, this`at, this`trees, this`uncut
      ensures Valid() && at == old(at) + 1
    {
      hide Shown, Slot, ShortOk, TreesOk, ChainsOk, TextOk, Shows, Hit2, Hit3, Key, Key2, Key3, Pow2, Splice, Grown,
        Searchable, CoveredAll, Size;
      CanSearch();
      if lenLimit < 4 {
        Pass();
        return;
      }
      var hash2Value, hash3Value, hashValue := HashCalc();
      ghost var h, v := hash[..], son[..];
      TreeReady(X(), h, v, at, pos, lenLimit, trees);
      var delta2, delta3, curMatch := Enter(hash2Value, hash3Value, hashValue);
      SearchableMeans(data, v, cyclicBufferSize, at, pos, curMatch, trees[hashValue], lenLimit);
      SkipMatchesSpec(lenLimit, curMatch, pos, win, buffer, son, cyclicBufferPos, cyclicBufferSize, cutValue, data, at,
                      trees[hashValue]);
      EnterTree(h, v, hashValue);
      TreesInserted(X(), h, hash[..], v, son[..], at, pos, lenLimit, LimitAt(at + 1), trees, cutValue, 0);
      trees := Grown(X(), trees, at, lenLimit, hashValue, cutValue, 0);
      MovePos();
    }
  }

  /** A distance from the table for two bytes: out of the ring, or to the newest position with this
      hash. */
  predicate Hit2(x: Text, at: nat, delta: nat)
    requires TextOk(x) && HasKey(x, at)
  {
    delta > 0 && (delta < x.size ==> delta <= at && HasKey(x, at - delta) && Key2(x, at - delta) == Key2(x, at))
    && forall i: nat | i < at && HasKey(x, i) && Key2(x, i) == Key2(x, at) :: i <= at - delta
  }

  predicate Hit3(x: Text, at: nat, delta: nat)
    requires TextOk(x) && HasKey(x, at)
  {
    delta > 0 && (delta < x.size ==> delta <= at && HasKey(x, at - delta) && Key3(x, at - delta) == Key3(x, at))
    && forall i: nat | i < at && HasKey(x, i) && Key3(x, i) == Key3(x, at) :: i <= at - delta
  }

  /** The distance stays in the ring and leads to the same byte. */
  predicate Begins(x: Text, at: nat, delta: nat)
    requires HasKey(x, at)
  {
    0 < delta <= at && delta < x.size && x.d[at - delta] == x.d[at]
  }

  /** The newest position of the ring with the two-byte hash of this one. */
  ghost predicate Newest2(x: Text, at: nat, j: nat)
    requires TextOk(x) && HasKey(x, at)
  {
    IsRecent(j, at, x.size) && Key2(x, j) == Key2(x, at) && forall i | j < i < at :: Key2(x, i) != Key2(x, at)
  }

  /** The newest position of the ring with the three-byte hash of this one. */
  ghost predicate Newest3(x: Text, at: nat, j: nat)
    requires TextOk(x) && HasKey(x, at)
  {
    IsRecent(j, at, x.size) && Key3(x, j) == Key3(x, at) && forall i | j < i < at :: Key3(x, i) != Key3(x, at)
  }

  /** Another position than `j` is the newest with the three-byte hash and starts with the same byte. */
  ghost predicate Other3(x: Text, at: nat, j: nat)
    requires TextOk(x) && HasKey(x, at)
  {
    exists i: nat | i < at :: i != j && Newest3(x, at, i) && x.d[i] == x.d[at]
  }

  /** This match is reported. */
  ghost predicate Reported(ds: seq<int>, len: nat, delta: nat) {
    exists k | 0 <= k < |ds| / 2 :: ds[2 * k] == len && ds[2 * k + 1] == delta - 1
  }

  /** The newest positions with the same hashes of two and of three bytes are reported, unless they
      start with another byte. The first comes first, and with two bytes only if the second follows. */
  ghost predicate ShortFound(x: Text, at: nat, limit: nat, ds: seq<int>)
    requires TextOk(x) && HasKey(x, at) && at + limit <= |x.d|
  {
    && (forall j: nat | j < at && Newest2(x, at, j) && x.d[j] == x.d[at] ::
          |ds| >= 2 && ds[1] == at - j - 1 && ds[0] == if Other3(x, at, j) then 2 else Lcp(x.d, j, at, limit))
    && (forall j: nat | j < at && Newest3(x, at, j) && x.d[j] == x.d[at] ::
          Reported(ds, Lcp(x.d, j, at, limit), at - j))
  }

  lemma NewestFound(x: Text, at: nat, delta2: nat, delta3: nat, j: nat)
    requires TextOk(x) && HasKey(x, at) && j < at && Hit2(x, at, delta2) && Hit3(x, at, delta3)
    ensures Newest2(x, at, j) <==> at - j == delta2 < x.size
    ensures Newest3(x, at, j) <==> at - j == delta3 < x.size
  {
    hide Key2, Key3;
    assert HasKey(x, j);
  }

  lemma ShortReported(x: Text, at: nat, limit: nat, delta2: nat, delta3: nat, ds: seq<int>)
    requires TextOk(x) && HasKey(x, at) && at + limit <= |x.d| && Hit2(x, at, delta2) && Hit3(x, at, delta3)
    requires var hit2, hit3 := Begins(x, at, delta2), delta2 != delta3 && Begins(x, at, delta3);
      ds == (if hit3 then (if hit2 then Pair(2, delta2) else []) + Pair(Lcp(x.d, at - delta3, at, limit), delta3)
             else if hit2 then Pair(Lcp(x.d, at - delta2, at, limit), delta2) else [])
    ensures ShortFound(x, at, limit, ds) && NearLast(x.d, at, x.size, ds)
  {
    hide Key2, Key3, Hit2, Hit3, Newest2, Newest3, Lcp, Agree;
    forall j: nat | j < at && Newest2(x, at, j) && x.d[j] == x.d[at]
      ensures |ds| >= 2 && ds[1] == at - j - 1 && ds[0] == if Other3(x, at, j) then 2 else Lcp(x.d, j, at, limit)
    {
      NewestFound(x, at, delta2, delta3, j);
      forall i: nat | i < at ensures Newest3(x, at, i) <==> at - i == delta3 < x.size {
        NewestFound(x, at, delta2, delta3, i);
      }
      if delta2 != delta3 && Begins(x, at, delta3) { assert Newest3(x, at, at - delta3); }
    }
    forall j: nat | j < at && Newest3(x, at, j) && x.d[j] == x.d[at]
      ensures Reported(ds, Lcp(x.d, j, at, limit), at - j)
    {
      NewestFound(x, at, delta2, delta3, j);
      var k := if |ds| == 4 then 1 else 0;
      assert ds[2 * k] == Lcp(x.d, j, at, limit) && ds[2 * k + 1] == at - j - 1;
    }
    forall j: nat | IsRecent(j, at, x.size) && Agree(x.d, j, at, 3) ensures j <= at - delta2 && j <= at - delta3 {
      NoNewer(x, at, delta2, delta3, j);
    }
  }

  lemma NoNewer(x: Text, at: nat, delta2: nat, delta3: nat, j: nat)
    requires TextOk(x) && HasKey(x, at) && j < at && Hit2(x, at, delta2) && Hit3(x, at, delta3)
    requires Agree(x.d, j, at, 3)
    ensures j <= at - delta2 && j <= at - delta3
  {
    hide Hash2, Hash3;
    assert SameAt(x.d, j, at, 0) && SameAt(x.d, j, at, 1) && SameAt(x.d, j, at, 2) && HasKey(x, j);
  }

  lemma ShortKept(x: Text, at: nat, limit: nat, short: seq<int>, ds: seq<int>)
    requires TextOk(x) && HasKey(x, at) && at + limit <= |x.d| && ShortFound(x, at, limit, short) && short <= ds
    ensures ShortFound(x, at, limit, ds)
  {
    hide Newest2, Newest3, Other3, Lcp;
    forall j: nat | j < at && Newest3(x, at, j) && x.d[j] == x.d[at]
      ensures Reported(ds, Lcp(x.d, j, at, limit), at - j)
    {
      var k :| 0 <= k < |short| / 2 && short[2 * k] == Lcp(x.d, j, at, limit) && short[2 * k + 1] == at - j - 1;
      assert ds[2 * k] == short[2 * k] && ds[2 * k + 1] == short[2 * k + 1];
    }
  }

  /** No position of the ring that agrees in three bytes is nearer than the last pair. */
  ghost predicate NearLast(d: seq<byte>, at: nat, size: nat, ds: seq<int>) {
    ds != [] ==> forall j: nat | IsRecent(j, at, size) && Agree(d, j, at, 3) :: ds[|ds| - 1] < at - j
  }

  lemma FirstMatch(d: seq<byte>, at: nat, size: nat, limit: nat, delta: nat)
    requires 0 < delta <= at && delta < size && limit >= 4 && Agree(d, at - delta, at, 2)
    ensures AreMatches(d, at, size, limit, Pair(2, delta))
  {
  }

  lemma MatchesPaired(d: seq<byte>, at: nat, size: nat, limit: nat, ds: seq<int>)
    requires AreMatches(d, at, size, limit, ds)
    ensures (ds != [] ==> |ds| >= 2) && |ds| % 2 == 0
  {
  }

  /** All found pairs are real matches in the ring. */
  predicate GoodFound(d: seq<byte>, at: nat, size: nat, limit: nat, found: seq<(nat, nat)>) {
    forall k | 0 <= k < |found| :: GoodPair(d, at, size, limit, found[k].0, found[k].1)
  }

  predicate GoodPair(d: seq<byte>, at: nat, size: nat, limit: nat, len: nat, delta: nat) {
    0 < delta <= at && delta < size && len <= limit && Agree(d, at - delta, at, len)
    && Full(d, at - delta, at, len, limit)
  }

  /** The match is as long as it can be. */
  predicate Full(d: seq<byte>, i: nat, j: nat, len: int, limit: nat) {
    len == limit || (0 <= len < limit && i + len < |d| && j + len < |d| && d[i + len] != d[j + len])
  }

  lemma {:induction false} PairsMatch(d: seq<byte>, at: nat, size: nat, limit: nat, ds: seq<int>,
                                      found: seq<(nat, nat)>, m: nat)
    requires AreMatches(d, at, size, limit, ds) && Rising(found, m) && GoodFound(d, at, size, limit, found) && m >= 1
    requires ds != [] ==> |ds| >= 2 && ds[|ds| - 2] <= m
    ensures AreMatches(d, at, size, limit, ds + Pairs(found))
    decreases |found|
  {
    hide AreMatches, Pairs;
    PairsSplit(ds, found);
    if found != [] {
      var (n, delta) := found[0];
      assert RisingAt(found, m, 0) && GoodPair(d, at, size, limit, n, delta);
      OneMore(d, at, size, limit, ds, n, delta);
      var rest := found[1..];
      forall k | 0 <= k < |rest| ensures RisingAt(rest, n, k) && GoodPair(d, at, size, limit, rest[k].0, rest[k].1) {
        assert RisingAt(found, m, k + 1) && GoodPair(d, at, size, limit, found[k + 1].0, found[k + 1].1);
      }
      PairsMatch(d, at, size, limit, ds + Pair(n, delta), rest, n);
      if rest == [] { PairsSplit(ds + Pair(n, delta), rest); }
    }
  }

  lemma PairsSplit(ds: seq<int>, found: seq<(nat, nat)>)
    ensures found == [] ==> ds + Pairs(found) == ds
    ensures found != [] ==> ds + Pairs(found) == (ds + Pair(found[0].0, found[0].1)) + Pairs(found[1..])
  {
  }

  lemma {:induction false} PairsAt(found: seq<(nat, nat)>, k: nat)
    requires k < |found|
    ensures |Pairs(found)| == 2 * |found|
    ensures Pairs(found)[2 * k] == found[k].0 && Pairs(found)[2 * k + 1] + 1 == found[k].1
    decreases |found|
  {
    if |found| == 1 {
      NoPairs();
    } else {
      PairsAt(found[1..], if k == 0 then 0 else k - 1);
    }
  }

  /** For every match of four bytes or more in the ring, one at least as long and at least as near
      is reported. */
  ghost predicate Longest(d: seq<byte>, at: nat, size: nat, limit: nat, ds: seq<int>) {
    at + limit <= |d| && forall j: nat | IsRecent(j, at, size) :: Beaten(d, at, limit, ds, j)
  }

  ghost predicate Beaten(d: seq<byte>, at: nat, limit: nat, ds: seq<int>, j: nat)
    requires at + limit <= |d| && j < at
  {
    var n := Lcp(d, j, at, limit);
    n >= 4 ==> AnyBeats(ds, n, at - j)
  }

  ghost predicate AnyBeats(ds: seq<int>, n: nat, delta: nat) {
    exists k | 0 <= k < |ds| / 2 :: Beats(ds, k, n, delta)
  }

  predicate Beats(ds: seq<int>, k: nat, n: nat, delta: nat)
    requires k < |ds| / 2
  {
    n <= ds[2 * k] && ds[2 * k + 1] < delta
  }

  /** The last pair is the longest. */
  lemma LastLongest(d: seq<byte>, at: nat, size: nat, limit: nat, ds: seq<int>, j: nat)
    requires AreMatches(d, at, size, limit, ds) && Longest(d, at, size, limit, ds) && IsRecent(j, at, size)
    ensures var n := Lcp(d, j, at, limit); n >= 4 ==> |ds| >= 2 && n <= ds[|ds| - 2]
  {
    hide Lcp, AreMatches;
    assert Beaten(d, at, limit, ds, j);
    var n := Lcp(d, j, at, limit);
    if n >= 4 {
      var k :| 0 <= k < |ds| / 2 && Beats(ds, k, n, at - j);
      RisesTo(d, at, size, limit, ds, k);
    }
  }

  lemma {:induction false} RisesTo(d: seq<byte>, at: nat, size: nat, limit: nat, ds: seq<int>, k: nat)
    requires AreMatches(d, at, size, limit, ds) && k < |ds| / 2
    ensures ds[2 * k] <= ds[|ds| - 2]
    decreases |ds| - k
  {
    hide IsMatch;
    if k + 1 < |ds| / 2 {
      var m := k + 1;
      assert ds[2 * m - 2] < ds[2 * m];
      RisesTo(d, at, size, limit, ds, m);
    }
  }

  lemma LastBeats(d: seq<byte>, at: nat, size: nat, limit: nat, ds: seq<int>, j: nat)
    requires at + limit <= |d| && |ds| >= 2 && |ds| % 2 == 0 && NearLast(d, at, size, ds)
    requires IsRecent(j, at, size) && Lcp(d, j, at, limit) <= ds[|ds| - 2]
    ensures Lcp(d, j, at, limit) >= 4 ==> Beats(ds, |ds| / 2 - 1, Lcp(d, j, at, limit), at - j)
    ensures Beaten(d, at, limit, ds, j)
  {
    hide Lcp;
    var n := Lcp(d, j, at, limit);
    if n >= 4 {
      AgreeLess(d, j, at, n, 3);
      assert Beats(ds, |ds| / 2 - 1, n, at - j);
    }
  }

  lemma LongestAtLimit(d: seq<byte>, at: nat, size: nat, limit: nat, ds: seq<int>)
    requires at + limit <= |d| && |ds| >= 2 && |ds| % 2 == 0 && ds[|ds| - 2] == limit && NearLast(d, at, size, ds)
    ensures Longest(d, at, size, limit, ds)
  {
    hide NearLast, Beaten;
    forall j: nat | IsRecent(j, at, size) ensures Beaten(d, at, limit, ds, j) {
      LastBeats(d, at, size, limit, ds, j);
    }
  }

  /** What a search adds to the short matches. */
  lemma MoreBeats(d: seq<byte>, at: nat, size: nat, limit: nat, short: seq<int>, found: seq<(nat, nat)>, maxLen: nat,
                  j: nat)
    requires at + limit <= |d| && |short| % 2 == 0 && NearLast(d, at, size, short) && IsRecent(j, at, size)
    requires 3 <= maxLen && (maxLen > 3 ==> |short| >= 2 && short[|short| - 2] == maxLen)
    requires var n := Lcp(d, j, at, limit); n >= 4 ==> n <= maxLen || Offered(found, n, at - j)
    ensures Beaten(d, at, limit, short + Pairs(found), j)
  {
    hide Lcp, NearLast, Pairs;
    var n, ds := Lcp(d, j, at, limit), short + Pairs(found);
    if n >= 4 {
      if n <= maxLen {
        LastBeats(d, at, size, limit, short, j);
        if found != [] { PairsAt(found, 0); } else { NoPairs(); }
        var k := |short| / 2 - 1;
        assert ds[2 * k] == short[2 * k] && ds[2 * k + 1] == short[2 * k + 1];
        assert Beats(ds, k, n, at - j);
      } else {
        var i :| 0 <= i < |found| && Offers(found, i, n, at - j);
        PairsAt(found, i);
        var k := |short| / 2 + i;
        assert ds[2 * k] == Pairs(found)[2 * i] && ds[2 * k + 1] == Pairs(found)[2 * i + 1];
        assert Beats(ds, k, n, at - j);
      }
    }
  }

  lemma ChainReady(x: Text, h: seq<nat>, son: seq<nat>, at: nat, pos: nat, limit: nat)
    requires TextOk(x) && ChainsOk(x, h, son, at, pos) && HasKey(x, at) && Key(x, at) < |h| - FIX4
    requires x.size <= pos && at + limit <= |x.d|
    ensures Chained(x.d, son, x.size, at, pos, h[FIX4 + Key(x, at)],
                    Members(x, RingStart(at, x.size), at, Key(x, at)), limit)
  {
    hide Key, Members, Linked;
    var k := FIX4 + Key(x, at);
    assert ChainOk(x, h[k], son, at, pos, k - FIX4);
    LinkedRecent(son, x.size, at, pos, h[k], Members(x, RingStart(at, x.size), at, k - FIX4));
  }

  lemma GoodChain(d: seq<byte>, chain: seq<nat>, at: nat, size: nat, limit: nat, found: seq<(nat, nat)>)
    requires at + limit <= |d| && InRing(chain, at, size) && AllMatch(d, chain, at, limit, found)
    ensures GoodFound(d, at, size, limit, found)
  {
    hide Lcp;
    forall k | 0 <= k < |found| ensures GoodPair(d, at, size, limit, found[k].0, found[k].1) {
      assert ChainMatch(d, chain, at, limit, found[k].0, found[k].1);
      var i :| 0 <= i < |chain| && chain[i] == at - found[k].1;
      assert IsRecent(chain[i], at, size);
    }
  }

  /** Positions that agree in four bytes have the same key. */
  lemma SameKey(x: Text, i: nat, j: nat)
    requires TextOk(x) && HasKey(x, i) && HasKey(x, j) && Agree(x.d, i, j, 4)
    ensures Key(x, i) == Key(x, j)
  {
    hide Hash4;
    assert SameAt(x.d, i, j, 0) && SameAt(x.d, i, j, 1) && SameAt(x.d, i, j, 2) && SameAt(x.d, i, j, 3);
  }

  lemma ChainResult(x: Text, at: nat, limit: nat, cut: nat, maxLen: nat, short: seq<int>, chain: seq<nat>)
    requires TextOk(x) && HasKey(x, at) && at + limit <= |x.d| && 3 <= maxLen < limit && InRing(chain, at, x.size)
    requires chain == Members(x, RingStart(at, x.size), at, Key(x, at)) && AreMatches(x.d, at, x.size, limit, short)
    requires NearLast(x.d, at, x.size, short)
    requires if short == [] then maxLen == 3 else |short| >= 2 && short[|short| - 2] <= maxLen
    requires maxLen > 3 ==> short != [] && short[|short| - 2] == maxLen
    ensures var ds := short + ChainToFind(x.d, chain, at, limit, cut, maxLen, x.size);
      AreMatches(x.d, at, x.size, limit, ds) && (cut >= x.size ==> Longest(x.d, at, x.size, limit, ds))
  {
    hide AreMatches, Key, Members, Rising, GoodFound, AllMatch, ChainFound, Pairs, NearLast;
    var found := ChainFound(x.d, chain, at, limit, cut, maxLen, x.size);
    ChainSound(x.d, chain, at, limit, cut, maxLen, x.size);
    GoodChain(x.d, chain, at, x.size, limit, found);
    PairsMatch(x.d, at, x.size, limit, short, found, maxLen);
    MatchesPaired(x.d, at, x.size, limit, short);
    var ds := short + Pairs(found);
    if cut >= x.size {
      forall j: nat | IsRecent(j, at, x.size) ensures Beaten(x.d, at, limit, ds, j) {
        ChainBeats(x, at, limit, cut, maxLen, short, chain, j);
      }
    }
  }

  lemma ChainBeats(x: Text, at: nat, limit: nat, cut: nat, maxLen: nat, short: seq<int>, chain: seq<nat>, j: nat)
    requires TextOk(x) && HasKey(x, at) && at + limit <= |x.d| && 3 <= maxLen < limit && InRing(chain, at, x.size)
    requires chain == Members(x, RingStart(at, x.size), at, Key(x, at)) && cut >= x.size && IsRecent(j, at, x.size)
    requires maxLen > 3 ==> |short| >= 2 && short[|short| - 2] == maxLen
    requires |short| % 2 == 0 && NearLast(x.d, at, x.size, short)
    ensures Beaten(x.d, at, limit, short + Pairs(ChainFound(x.d, chain, at, limit, cut, maxLen, x.size)), j)
  {
    hide Key, ChainFound, Pairs, Members, NearLast, Beaten, Lcp, Offered, Falling;
    var n := Lcp(x.d, j, at, limit);
    if n >= 4 {
      AgreeLess(x.d, j, at, n, 4);
      SameKey(x, j, at);
      MembersAre(x, RingStart(at, x.size), at, Key(x, at), j);
      MembersFall(x, RingStart(at, x.size), at, Key(x, at));
      ChainComplete(x.d, chain, at, limit, cut, maxLen, x.size, j);
    }
    MoreBeats(x.d, at, x.size, limit, short, ChainFound(x.d, chain, at, limit, cut, maxLen, x.size), maxLen, j);
  }

  /** For every match of four bytes or more in the tree, one at least as long and at least as near
      is reported. */
  ghost predicate LongestInTree(d: seq<byte>, at: nat, limit: nat, cut: nat, t: Tree, ds: seq<int>) {
    at + limit <= |d| && (Size(t) <= cut ==> forall j | j in Nodes(t) :: j < at && Beaten(d, at, limit, ds, j))
  }

  /** When the trees cover the ring, the longest and nearest in the tree are so in the ring. */
  lemma CoverLongest(x: Text, trees: seq<Tree>, at: nat, limit: nat, cut: nat, ds: seq<int>)
    requires TextOk(x) && HasKey(x, at) && Key(x, at) < |trees| && at + limit <= |x.d| && limit >= 4
    requires LongestInTree(x.d, at, limit, cut, trees[Key(x, at)], ds) && Size(trees[Key(x, at)]) <= cut
    requires CoveredAll(x, trees, at, limit)
    ensures Longest(x.d, at, x.size, limit, ds)
  {
    hide Key, Lcp, Size, Nodes, Agree;
    forall j: nat | IsRecent(j, at, x.size) ensures Beaten(x.d, at, limit, ds, j) {
      var n := Lcp(x.d, j, at, limit);
      if n >= 4 {
        AgreeLess(x.d, j, at, n, 4);
        SameKey(x, j, at);
        assert CoveredAt(x, trees, j, limit);
        var i :| i in Nodes(trees[Key(x, at)]) && StandsFor(x.d, i, j, limit);
        AgreeLess(x.d, i, j, limit, n);
        AgreeVia(x.d, i, j, at, n);
        assert i < at && Beaten(x.d, at, limit, ds, i);
        LcpAtLeast(x.d, i, at, n, limit);
        var k :| 0 <= k < |ds| / 2 && Beats(ds, k, Lcp(x.d, i, at, limit), at - i);
        assert Beats(ds, k, n, at - j);
      }
    }
  }

  lemma LimitBeats(d: seq<byte>, at: nat, size: nat, limit: nat, cut: nat, t: Tree, ds: seq<int>)
    requires at + limit <= |d| && |ds| >= 2 && |ds| % 2 == 0 && ds[|ds| - 2] == limit && Recent(t, at, size)
    requires NearLast(d, at, size, ds)
    ensures LongestInTree(d, at, limit, cut, t, ds)
  {
    hide Lcp, NearLast, Beaten, Nodes, Size;
    forall j | j in Nodes(t) ensures j < at && Beaten(d, at, limit, ds, j) {
      assert IsRecent(j, at, size);
      LastBeats(d, at, size, limit, ds, j);
    }
  }

  lemma TreeReady(x: Text, h: seq<nat>, son: seq<nat>, at: nat, pos: nat, limit: nat, trees: seq<Tree>)
    requires TextOk(x) && TreesOk(x, h, son, at, pos, limit, trees) && HasKey(x, at) && Key(x, at) < |h| - FIX4
    requires x.size <= pos && at + limit <= |x.d|
    ensures |h| == FIX4 + |trees| && |son| == 2 * x.size
    ensures Ordered(x.d, trees[Key(x, at)], limit) && Older(trees[Key(x, at)], at)
    ensures Searchable(x.d, son, x.size, at, pos, h[FIX4 + Key(x, at)], trees[Key(x, at)], limit)
  {
    hide Key, Ordered, Rep, Keyed, Older;
    var k := FIX4 + Key(x, at);
    assert TreeOk(x, h[k], son, at, pos, limit, trees[k - FIX4], k - FIX4);
  }

  lemma TreeResult(d: seq<byte>, son: seq<nat>, size: nat, at: nat, pos: nat, v: nat, t: Tree, limit: nat, cut: nat,
                   maxLen: nat, short: seq<int>)
    requires Searchable(d, son, size, at, pos, v, t, limit) && 3 <= maxLen < limit
    requires AreMatches(d, at, size, limit, short) && NearLast(d, at, size, short)
    requires if short == [] then maxLen == 3 else |short| >= 2 && short[|short| - 2] <= maxLen
    requires maxLen > 3 ==> short != [] && short[|short| - 2] == maxLen
    ensures var ds := short + ToFind(d, t, at, limit, cut, maxLen);
      AreMatches(d, at, size, limit, ds) && LongestInTree(d, at, limit, cut, t, ds)
  {
    hide AreMatches, Rising, GoodFound, AllTrue, Walk, Pairs, Ordered, Older, Rep, Nodes, Beaten, NearLast;
    var found := Walk(d, t, at, limit, cut, maxLen).found;
    WalkSound(d, t, at, limit, cut, maxLen);
    RepRecent(son, size, at, pos, v, t);
    GoodTree(d, t, at, size, limit, found);
    PairsMatch(d, at, size, limit, short, found, maxLen);
    MatchesPaired(d, at, size, limit, short);
    if Size(t) <= cut {
      forall j | j in Nodes(t) ensures j < at && Beaten(d, at, limit, short + Pairs(found), j) {
        assert IsRecent(j, at, size);
        TreeBeats(d, at, size, limit, cut, maxLen, short, t, j);
      }
    }
  }

  lemma GoodTree(d: seq<byte>, t: Tree, at: nat, size: nat, limit: nat, found: seq<(nat, nat)>)
    requires at + limit <= |d| && Recent(t, at, size) && AllTrue(d, t, at, limit, found)
    ensures GoodFound(d, at, size, limit, found)
  {
    hide Lcp;
    forall k | 0 <= k < |found| ensures GoodPair(d, at, size, limit, found[k].0, found[k].1) {
      assert TrueMatch(d, t, at, limit, found[k].0, found[k].1);
      assert IsRecent(at - found[k].1, at, size);
    }
  }

  lemma TreeBeats(d: seq<byte>, at: nat, size: nat, limit: nat, cut: nat, maxLen: nat, short: seq<int>, t: Tree, j: nat)
    requires Ordered(d, t, limit) && at + limit <= |d| && Older(t, at) && Size(t) <= cut && j in Nodes(t)
    requires 3 <= maxLen && (maxLen > 3 ==> |short| >= 2 && short[|short| - 2] == maxLen)
    requires |short| % 2 == 0 && NearLast(d, at, size, short) && IsRecent(j, at, size)
    ensures Beaten(d, at, limit, short + Pairs(Walk(d, t, at, limit, cut, maxLen).found), j)
  {
    hide Walk, Pairs, Ordered, Older, Lcp, Nodes, NearLast, Beaten, Offered;
    WalkComplete(d, t, at, limit, cut, maxLen, j);
    MoreBeats(d, at, size, limit, short, Walk(d, t, at, limit, cut, maxLen).found, maxLen, j);
  }

  lemma FourBytes(w: seq<byte>, c: nat, d: seq<byte>, at: nat, size: nat, limit: nat)
    requires Shows(w, c, d, at, size, limit) && limit >= 4 && size > 0
    ensures c + 3 < |w| && at + 3 < |d|
    ensures w[c] == d[at] && w[c + 1] == d[at + 1] && w[c + 2] == d[at + 2] && w[c + 3] == d[at + 3]
  {
    assert InWindow(w, c, d, at, at) && InWindow(w, c, d, at, at + 1);
    assert InWindow(w, c, d, at, at + 2) && InWindow(w, c, d, at, at + 3);
  }

  lemma ShownShows(w: seq<byte>, d: seq<byte>, at: nat, buffer: nat, ahead: nat, rest: seq<byte>, size: nat, limit: nat)
    requires Shown(w, d, at, buffer, ahead, rest) && limit <= ahead && (buffer == at || size <= buffer)
    ensures Shows(w, buffer, d, at, size, limit)
  {
    forall j: nat | at < j + size && j < at + limit ensures InWindow(w, buffer, d, at, j) {
      var k := buffer + j - at;
      assert w[k] == d[at - buffer + k];
    }
  }

  /** A real match inside the window, of two bytes or as long as can be: `dist` counts from 0. */
  predicate IsMatch(d: seq<byte>, at: nat, size: nat, limit: nat, len: int, dist: int) {
    0 <= dist && dist + 1 < size && dist + 1 <= at && 2 <= len <= limit && Agree(d, at - (dist + 1), at, len)
    && (len == 2 || Full(d, at - (dist + 1), at, len, limit))
  }

  /** Pairs of length and distance, the lengths rising. */
  predicate AreMatches(d: seq<byte>, at: nat, size: nat, limit: nat, ds: seq<int>) {
    |ds| % 2 == 0
    && (forall k | 0 <= k < |ds| / 2 :: IsMatch(d, at, size, limit, ds[2 * k], ds[2 * k + 1]))
    && (forall k | 0 < k < |ds| / 2 :: ds[2 * k - 2] < ds[2 * k])
  }

  lemma OneMore(d: seq<byte>, at: nat, size: nat, limit: nat, ds: seq<int>, len: nat, delta: nat)
    requires AreMatches(d, at, size, limit, ds) && 0 < delta <= at && delta < size && 2 <= len <= limit
    requires Agree(d, at - delta, at, len) && (ds != [] ==> ds[|ds| - 2] < len)
    requires Full(d, at - delta, at, len, limit)
    ensures AreMatches(d, at, size, limit, ds + Pair(len, delta))
  {
    assert IsMatch(d, at, size, limit, len, delta - 1);
    hide IsMatch;
    var all := ds + Pair(len, delta);
    forall k | 0 <= k < |all| / 2 ensures IsMatch(d, at, size, limit, all[2 * k], all[2 * k + 1]) {
      if k < |ds| / 2 { assert IsMatch(d, at, size, limit, ds[2 * k], ds[2 * k + 1]); }
    }
  }

  lemma TwoAgree(x: Text, at: nat, delta: nat)
    requires TextOk(x) && HasKey(x, at) && 0 < delta <= at && HasKey(x, at - delta)
    requires Key2(x, at - delta) == Key2(x, at)
    requires x.d[at - delta] == x.d[at]
    ensures Agree(x.d, at - delta, at, 2)
  {
    hide Hash2;
    Hash2Match(x.crc, x.d[at], x.d[at + 1], x.d[at - delta + 1]);
  }

  lemma ThreeAgree(x: Text, at: nat, delta: nat)
    requires TextOk(x) && HasKey(x, at) && 0 < delta <= at && HasKey(x, at - delta)
    requires Key3(x, at - delta) == Key3(x, at)
    requires x.d[at - delta] == x.d[at]
    ensures Agree(x.d, at - delta, at, 3)
  {
    hide Hash3;
    Hash3Match(x.crc, x.d[at], x.d[at + 1], x.d[at + 2], x.d[at - delta + 1], x.d[at - delta + 2]);
  }

  lemma Extended(d: seq<byte>, at: nat, delta: nat, sure: nat, len: nat, limit: nat)
    requires 0 < delta <= at && at + limit <= |d| && sure <= limit && Agree(d, at - delta, at, sure)
    requires len == Common(d, at - delta, at, sure, limit)
    ensures sure <= len <= limit && Agree(d, at - delta, at, len) && Full(d, at - delta, at, len, limit)
    ensures len == Lcp(d, at - delta, at, limit)
  {
    CommonFrom(d, at - delta, at, 0, sure, limit);
  }

  lemma ShownStep(w: seq<byte>, d: seq<byte>, at: nat, buffer: nat, ahead: nat, rest: seq<byte>)
    requires Shown(w, d, at, buffer, ahead, rest) && ahead > 0
    ensures Shown(w, d, at + 1, buffer + 1, ahead - 1, rest)
    ensures at + ahead + |rest| == |d|
  {
  }

  lemma SlotStep(at: nat, size: nat)
    requires size > 0
    ensures Slot(at + 1, size) == if Slot(at, size) + 1 == size then 0 else Slot(at, size) + 1
  {
    var q, r := at / size, at % size;
    if r + 1 == size {
      QuotientUnique(at + 1, size, q + 1, 0);
    } else {
      QuotientUnique(at + 1, size, q, r + 1);
    }
  }

  lemma SlotZero(size: nat)
    requires size > 0
    ensures Slot(0, size) == 0
  {
  }

  lemma NormOf(v: nat, sub: nat)
    ensures Norm(v, sub) == if v <= sub then EMPTY else v - sub
  {
  }

  /** Renormalization is invisible to whoever follows references. */
  lemma IndexNorm(x: Text, hash: seq<nat>, son: seq<nat>, at: nat, pos: nat, limit: nat, trees: seq<Tree>, sub: nat,
                  bt: bool)
    requires TextOk(x) && sub + x.size <= pos && ShortOk(x, hash, at, pos)
    requires if bt then TreesOk(x, hash, son, at, pos, limit, trees) else ChainsOk(x, hash, son, at, pos)
    ensures ShortOk(x, NormAll(hash, sub), at, pos - sub)
    ensures if bt then TreesOk(x, NormAll(hash, sub), NormAll(son, sub), at, pos - sub, limit, trees)
            else ChainsOk(x, NormAll(hash, sub), NormAll(son, sub), at, pos - sub)
  {
    hide ShortOk, TreesOk, ChainsOk;
    ShortNorm(x, hash, at, pos, sub);
    if bt { TreesNorm(x, hash, son, at, pos, limit, trees, sub); } else { ChainsNorm(x, hash, son, at, pos, sub); }
  }

  lemma IndexEmpty(x: Text, hash: seq<nat>, son: seq<nat>, limit: nat, trees: seq<Tree>, bt: bool)
    requires TextOk(x) && |hash| == FIX4 + Pow2(x.bits) && (forall k | 0 <= k < |hash| :: hash[k] == EMPTY)
    requires |son| == if bt then 2 * x.size else x.size
    requires |trees| == Pow2(x.bits) && forall k | 0 <= k < |trees| :: trees[k] == Leaf
    ensures ShortOk(x, hash, 0, x.size)
    ensures if bt then TreesOk(x, hash, son, 0, x.size, limit, trees) else ChainsOk(x, hash, son, 0, x.size)
  {
    if bt {
      forall k | FIX4 <= k < |hash| ensures TreeOk(x, hash[k], son, 0, x.size, limit, trees[k - FIX4], k - FIX4) {
      }
    } else {
      forall k | FIX4 <= k < |hash| ensures ChainOk(x, hash[k], son, 0, x.size, k - FIX4) {
      }
    }
  }

  predicate Shown(w: seq<byte>, d: seq<byte>, at: nat, buffer: nat, ahead: nat, rest: seq<byte>) {
    buffer <= at && buffer + ahead <= |w| && at + ahead <= |d| && rest == d[at + ahead..]
    && forall k | 0 <= k < buffer + ahead :: w[k] == d[at - buffer + k]
  }

  lemma ShownBounds(w: seq<byte>, d: seq<byte>, at: nat, buffer: nat, ahead: nat, rest: seq<byte>)
    requires Shown(w, d, at, buffer, ahead, rest)
    ensures buffer <= at && buffer + ahead <= |w| && at + ahead <= |d| && |rest| == |d| - at - ahead
  {
  }

  lemma ShownRead(w: seq<byte>, w': seq<byte>, d: seq<byte>, at: nat, buffer: nat, ahead: nat, rest: seq<byte>,
                  chunk: seq<byte>, rest': seq<byte>)
    requires Shown(w, d, at, buffer, ahead, rest) && chunk + rest' == rest && |w'| == |w|
    requires buffer + ahead + |chunk| <= |w|
    requires forall k | 0 <= k < buffer + ahead :: w'[k] == w[k]
    requires forall k | 0 <= k < |chunk| :: w'[buffer + ahead + k] == chunk[k]
    ensures Shown(w', d, at, buffer, ahead + |chunk|, rest')
  {
    assert rest' == rest[|chunk|..] == d[at + ahead + |chunk|..];
    forall k | 0 <= k < buffer + ahead + |chunk| ensures w'[k] == d[at - buffer + k] {
      if k >= buffer + ahead {
        var i := k - buffer - ahead;
        assert w'[buffer + ahead + i] == chunk[i] == rest[i] == d[at + ahead + i];
      }
    }
  }

  lemma ShownMoved(w: seq<byte>, w': seq<byte>, d: seq<byte>, at: nat, buffer: nat, ahead: nat, rest: seq<byte>,
                   keep: nat)
    requires Shown(w, d, at, buffer, ahead, rest) && keep <= buffer && |w'| == |w|
    requires forall k | 0 <= k < keep + ahead :: w'[k] == w[buffer - keep + k]
    ensures Shown(w', d, at, keep, ahead, rest)
  {
  }
}
