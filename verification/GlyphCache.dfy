/** channel/channelapp/source/font.c: the glyphs of a font, cached in a table of 64 chains that
    lies in a growing array. */
module GlyphCache {

  const ROOT: int := 64     // GLYPH_CACHE_ROOT
  const INIT: int := 32     // GLYPH_CACHE_INIT
  const GROW: int := 32     // GLYPH_CACHE_GROW

  /** Bitmap and metrics; FreeType makes them from a codepoint. */
  type Image = seq<int>
  type Renderer = int -> Image

  /** font_glyph */
  datatype Glyph = Glyph(codepoint: int, nextIdx: int, image: Image)

  /** `codepoint & (GLYPH_CACHE_ROOT - 1)` */
  function Home(codepoint: int): (r: int)
    ensures 0 <= r < ROOT
  {
    codepoint % ROOT
  }

  lemma HomeIs(codepoint: int)
    ensures Home(codepoint) == codepoint % 64
  {
  }

  /** The k-th glyph of a chain: links lead upwards, all codepoints belong here and differ, and the
      image is the codepoint's. */
  predicate InChain(render: Renderer, g: seq<Glyph>, num: int, home: int, chain: seq<int>, k: int)
    requires 0 <= k < |chain| && num <= |g|
  {
    && 0 <= chain[k] < num && Home(g[chain[k]].codepoint) == home
    && (if k == 0 then chain[k] == home else ROOT <= chain[k] && chain[k - 1] < chain[k])
    && g[chain[k]].nextIdx == (if k + 1 < |chain| then chain[k + 1] else -1)
    && g[chain[k]].image == render(g[chain[k]].codepoint)
    && forall j | 0 <= j < k && 0 <= chain[j] < num :: g[chain[j]].codepoint != g[chain[k]].codepoint
  }

  /** The chain of a home: empty while the place in the root table is. */
  predicate IsChain(render: Renderer, g: seq<Glyph>, num: int, home: int, chain: seq<int>) {
    && 0 <= home < ROOT <= num <= |g|
    && (chain == [] <==> g[home].codepoint == -1)
    && (chain == [] ==> g[home].nextIdx == -1)
    && forall k | 0 <= k < |chain| :: InChain(render, g, num, home, chain, k)
  }

  /** A glyph was added to the chain of another home. */
  lemma OtherChain(render: Renderer, g: seq<Glyph>, g': seq<Glyph>, num: int, num': int, home: int, chain: seq<int>)
    requires IsChain(render, g, num, home, chain) && num <= num' <= |g'|
    requires forall i | 0 <= i < num && (i == home || Home(g[i].codepoint) == home) :: g'[i] == g[i]
    ensures IsChain(render, g', num', home, chain)
  {
    hide Home;
    forall k | 0 <= k < |chain| ensures InChain(render, g', num', home, chain, k) {
      assert InChain(render, g, num, home, chain, k);
      forall j | 0 <= j < k && 0 <= chain[j] < num' ensures g'[chain[j]].codepoint != g'[chain[k]].codepoint {
        assert InChain(render, g, num, home, chain, j);
      }
    }
  }

  /** A glyph was added at the end of a chain. */
  lemma LongerChain(render: Renderer, g: seq<Glyph>, g': seq<Glyph>, num: int, home: int, chain: seq<int>,
                    codepoint: int)
    requires IsChain(render, g, num, home, chain) && chain != [] && num < |g'| && Home(codepoint) == home
    requires g'[num] == Glyph(codepoint, -1, render(codepoint))
    requires forall k | 0 <= k < |chain| :: 0 <= chain[k] < num && g[chain[k]].codepoint != codepoint
    requires forall i | 0 <= i < num :: g'[i] == if i == chain[|chain| - 1] then g[i].(nextIdx := num) else g[i]
    ensures IsChain(render, g', num + 1, home, chain + [num])
  {
    hide Home;
    var all, last, num' := chain + [num], |chain| - 1, num + 1;
    forall k | 0 <= k < last ensures chain[k] < chain[last] { Rising(render, g, num, home, chain, k, last); }
    forall k | 0 <= k < |all| ensures InChain(render, g', num', home, all, k) {
      if k < |chain| { assert InChain(render, g, num, home, chain, k); }
      forall j | 0 <= j < k && 0 <= all[j] < num + 1 ensures g'[all[j]].codepoint != g'[all[k]].codepoint {
        assert InChain(render, g, num, home, chain, j);
      }
    }
    assert InChain(render, g, num, home, chain, 0);
  }

  lemma {:induction false} Rising(render: Renderer, g: seq<Glyph>, num: int, home: int, chain: seq<int>, j: int, k: int)
    requires IsChain(render, g, num, home, chain) && 0 <= j < k < |chain|
    ensures chain[j] < chain[k]
    decreases k - j
  {
    hide Home;
    assert InChain(render, g, num, home, chain, k);
    if j < k - 1 { Rising(render, g, num, home, chain, j, k - 1); }
  }

  /** A glyph was put into an empty root place. */
  lemma FirstOfChain(render: Renderer, g: seq<Glyph>, home: int, num: int, codepoint: int)
    requires 0 <= home < ROOT <= num <= |g| && Home(codepoint) == home && codepoint != -1
    requires g[home] == Glyph(codepoint, -1, render(codepoint))
    ensures IsChain(render, g, num, home, [home])
  {
    hide Home;
    assert InChain(render, g, num, home, [home], 0);
  }

  class FontFace {
    const render: Renderer
    var glyphs: array<Glyph>
    var numGlyphs: int
    var maxGlyphs: int
    ghost var chains: seq<seq<int>>
    ghost var renders: seq<int>         // the codepoints that were rendered

    ghost predicate Chained()
      reads `glyphs, `numGlyphs, `maxGlyphs, `chains, glyphs
    {
      && ROOT <= numGlyphs <= maxGlyphs == glyphs.Length && |chains| == ROOT
      && forall h | 0 <= h < ROOT :: IsChain(render, glyphs[..], numGlyphs, h, chains[h])
    }

    /** The glyph of the codepoint is at index i. */
    ghost predicate Holds(codepoint: int, i: int)
      requires Chained()
      reads `glyphs, `numGlyphs, `maxGlyphs, `chains, glyphs
    {
      i in chains[Home(codepoint)] && 0 <= i < numGlyphs && glyphs[i].codepoint == codepoint
      && glyphs[i].image == render(codepoint)
    }

    ghost predicate Cached(codepoint: int)
      requires Chained()
      reads `glyphs, `numGlyphs, `maxGlyphs, `chains, glyphs
    {
      exists i :: Holds(codepoint, i)
    }

    /** No glyph along the chain has the codepoint. */
    ghost predicate Missing(codepoint: int)
      requires Chained()
      reads `glyphs, `numGlyphs, `maxGlyphs, `chains, glyphs
    {
      var chain := chains[Home(codepoint)];
      forall k | 0 <= k < |chain| :: 0 <= chain[k] < numGlyphs && glyphs[chain[k]].codepoint != codepoint
    }

    /** What was rendered is cached, and was rendered once; but for codepoint -1. Nothing else is
        cached. */
    ghost predicate Valid()
      reads this, glyphs
    {
      && Chained()
      && (forall i | 0 <= i < |renders| :: renders[i] == -1 || Cached(renders[i]))
      && (forall c | Cached(c) :: c in renders)
      && (forall i, j | 0 <= i < j < |renders| && renders[i] == renders[j] :: renders[i] == -1)
    }

    /** The table part of font_load. */
    constructor (render: Renderer)
      ensures Valid() && renders == [] && fresh(glyphs) && forall c :: !Cached(c)
      ensures forall i | 0 <= i < ROOT :: glyphs[i].codepoint == -1
      ensures this.render == render && numGlyphs == 64 && maxGlyphs == 96
    {
      this.render := render;
      maxGlyphs, numGlyphs := ROOT + INIT, ROOT;
      glyphs := new Glyph[ROOT + INIT](_ => Glyph(-1, -1, []));
      chains, renders := seq(ROOT, _ => []), [];
    }

    /** The search along a chain: the place of the codepoint, or the last of the chain. */
    method Find(codepoint: int) returns (i: int, found: bool)
      requires Chained() && chains[Home(codepoint)] != []
      ensures found ==> Holds(codepoint, i)
      ensures !found ==> i == chains[Home(codepoint)][|chains[Home(codepoint)]| - 1] && 0 <= i < numGlyphs
      ensures !found ==> Missing(codepoint)
    {
      hide Home;
      ghost var h := Home(codepoint);
      ghost var chain := chains[h];
      i := Home(codepoint);
      ghost var k := 0;
      assert InChain(render, glyphs[..], numGlyphs, h, chain, 0);
      while true
        invariant 0 <= k < |chain| && chain[k] == i && 0 <= i < numGlyphs
        invariant forall j | 0 <= j < k :: 0 <= chain[j] < numGlyphs && glyphs[chain[j]].codepoint != codepoint
        decreases numGlyphs - i
      {
        assert InChain(render, glyphs[..], numGlyphs, h, chain, k);
        if glyphs[i].codepoint == codepoint { return i, true; }
        assert k + 1 < |chain| ==> InChain(render, glyphs[..], numGlyphs, h, chain, k + 1);
        if glyphs[i].nextIdx == -1 { return i, false; }
        i := glyphs[i].nextIdx;
        k := k + 1;
      }
    }

    /** prealloc: a longer array with the same glyphs, and zeros behind them. */
    method Grow()
      requires maxGlyphs == glyphs.Length && 0 <= numGlyphs <= maxGlyphs
      modifies this`glyphs, this`maxGlyphs
      ensures fresh(glyphs) && maxGlyphs == glyphs.Length == old(maxGlyphs) + GROW
      ensures glyphs[..old(maxGlyphs)] == old(glyphs[..])
    {
      var bigger := new Glyph[maxGlyphs + GROW](_ => Glyph(0, 0, []));
      for i := 0 to maxGlyphs
        invariant glyphs == old(glyphs) && maxGlyphs == old(maxGlyphs) && glyphs[..] == old(glyphs[..])
        invariant bigger[..i] == glyphs[..i]
      {
        bigger[i] := glyphs[i];
      }
      glyphs := bigger;
      maxGlyphs := maxGlyphs + GROW;
    }

    /** A new glyph behind the last of its chain. */
    method Append(last: int, codepoint: int) returns (i: int)
      requires Chained() && chains[Home(codepoint)] != [] && Missing(codepoint)
      requires last == chains[Home(codepoint)][|chains[Home(codepoint)]| - 1] && 0 <= last < numGlyphs
      modifies this`glyphs, this`numGlyphs, this`maxGlyphs, this`chains, glyphs
      ensures Chained() && (glyphs == old(glyphs) || fresh(glyphs))
      ensures i == old(numGlyphs) && numGlyphs == i + 1 && Holds(codepoint, i)
      ensures chains == old(chains)[Home(codepoint) := old(chains)[Home(codepoint)] + [i]]
      ensures maxGlyphs == old(maxGlyphs) + if old(numGlyphs == maxGlyphs) then 32 else 0
      ensures glyphs[last].codepoint == old(glyphs[last].codepoint) && glyphs[last].nextIdx == i
      ensures forall c, j :: old(Holds(c, j)) ==> Holds(c, j)
      ensures forall c | Cached(c) :: c == codepoint || old(Cached(c))
    {
      hide Home, IsChain;
      ghost var h := Home(codepoint);
      ghost var g, num := glyphs[..], numGlyphs;
      glyphs[last] := glyphs[last].(nextIdx := numGlyphs);
      if numGlyphs == maxGlyphs { Grow(); }
      i := numGlyphs;
      numGlyphs := numGlyphs + 1;
      glyphs[i] := Glyph(codepoint, -1, render(codepoint));
      ghost var g' := glyphs[..];
      AllChains(render, g, g', num, h, chains, chains[h := chains[h] + [i]], codepoint);
      chains := chains[h := chains[h] + [i]];
      forall c, j | old(Holds(c, j)) ensures Holds(c, j) {
        assert g'[j].codepoint == g[j].codepoint && g'[j].image == g[j].image;
      }
      forall c | Cached(c) && c != codepoint ensures old(Cached(c)) {
        var j :| Holds(c, j);
        assert g'[j].codepoint == g[j].codepoint && g'[j].image == g[j].image;
        assert old(Holds(c, j));
      }
    }

    /** font_get_char: the glyph of the codepoint, from the cache if it is there; else it is
        rendered and, but for codepoint -1 in an empty place, cached from then on. Glyphs keep
        their places. */
    method GetChar(codepoint: int) returns (i: int)
      requires Valid()
      modifies this`glyphs, this`numGlyphs, this`maxGlyphs, this`chains, this`renders, glyphs
      ensures Valid() && (glyphs == old(glyphs) || fresh(glyphs))
      ensures 0 <= i < numGlyphs && glyphs[i].codepoint == codepoint && glyphs[i].image == render(codepoint)
      ensures old(Cached(codepoint)) ==> old(Holds(codepoint, i)) && renders == old(renders)
      ensures !old(Cached(codepoint)) ==> renders == old(renders) + [codepoint]
      ensures Cached(codepoint) <==> codepoint != -1 || old(glyphs[Home(-1)].codepoint) != -1
      ensures forall c, j :: old(Holds(c, j)) ==> Holds(c, j)
      ensures old(glyphs[codepoint % 64].codepoint) == -1 ==>
        i == codepoint % 64 && numGlyphs == old(numGlyphs) && maxGlyphs == old(maxGlyphs)
      ensures old(glyphs[codepoint % 64].codepoint != -1 && !Cached(codepoint)) ==>
        i == old(numGlyphs) && numGlyphs == i + 1
        && maxGlyphs == old(maxGlyphs) + if old(numGlyphs == maxGlyphs) then 32 else 0
      ensures old(Cached(codepoint)) ==> numGlyphs == old(numGlyphs) && maxGlyphs == old(maxGlyphs)
      ensures Cached(codepoint) ==> Holds(codepoint, i)
    {
      HomeIs(codepoint);
      hide Home;
      ghost var h := Home(codepoint);
      i := Home(codepoint);
      if glyphs[i].codepoint != -1 {
        var found: bool;
        i, found := Find(codepoint);
        if found {
          assert Cached(codepoint);
          return;
        }
        NotInChain(codepoint);
        i := Append(i, codepoint);
        assert Cached(codepoint);
      } else {
        EmptyHome(codepoint);
        PutRoot(i, codepoint);
      }
      forall c | old(Cached(c)) ensures Cached(c) {
        var j :| old(Holds(c, j));
        assert Holds(c, j);
      }
      renders := renders + [codepoint];
    }

    lemma HeldOnce(codepoint: int, i: int, j: int)
      requires Chained() && Holds(codepoint, i) && Holds(codepoint, j)
      ensures i == j
    {
      hide Home;
      var g, h, chain := glyphs[..], Home(codepoint), chains[Home(codepoint)];
      var k :| 0 <= k < |chain| && chain[k] == i;
      var l :| 0 <= l < |chain| && chain[l] == j;
      assert InChain(render, g, numGlyphs, h, chain, k) && InChain(render, g, numGlyphs, h, chain, l);
    }

    lemma NotInChain(codepoint: int)
      requires Chained() && Missing(codepoint)
      ensures !Cached(codepoint)
    {
    }

    lemma EmptyHome(codepoint: int)
      requires Chained() && glyphs[Home(codepoint)].codepoint == -1
      ensures chains[Home(codepoint)] == [] && !Cached(codepoint)
    {
      hide Home;
      assert IsChain(render, glyphs[..], numGlyphs, Home(codepoint), chains[Home(codepoint)]);
    }

    /** A glyph in an empty place of the root table. */
    method PutRoot(i: int, codepoint: int)
      requires Chained() && i == Home(codepoint) && chains[i] == []
      modifies this`chains, glyphs
      ensures Chained() && glyphs[i].codepoint == codepoint && glyphs[i].image == render(codepoint)
      ensures if codepoint == -1 then !Cached(codepoint) else Holds(codepoint, i)
      ensures forall c, j :: old(Holds(c, j)) ==> Holds(c, j)
      ensures forall c | Cached(c) :: c == codepoint || old(Cached(c))
    {
      hide Home;
      ghost var g := glyphs[..];
      assert IsChain(render, g, numGlyphs, i, chains[i]);
      glyphs[i] := Glyph(codepoint, -1, render(codepoint));
      ghost var g' := glyphs[..];
      forall k | 0 <= k < ROOT && k != i ensures IsChain(render, g', numGlyphs, k, chains[k]) {
        RootElsewhere(render, g, g', numGlyphs, i, k, chains[k]);
      }
      if codepoint != -1 {
        FirstOfChain(render, g', i, numGlyphs, codepoint);
        chains := chains[i := [i]];
        assert Holds(codepoint, i);
      }
      forall c, j | old(Holds(c, j)) ensures Holds(c, j) {
        RootNotHeld(render, g, numGlyphs, i, Home(c), old(chains)[Home(c)], j);
        assert g'[j] == g[j];
      }
      forall c | Cached(c) && c != codepoint ensures old(Cached(c)) {
        var j :| Holds(c, j);
        assert old(Holds(c, j));
      }
    }
  }

  /** Codepoint -1 is not found again in an empty place. */
  method MinusOneTwice(render: Renderer) returns (font: FontFace)
    ensures fresh(font) && font.Valid() && font.renders == [-1, -1]
  {
    hide Home;
    font := new FontFace(render);
    var i := font.GetChar(-1);
    assert !font.Cached(-1);
    i := font.GetChar(-1);
  }

  /** Three codepoints with one home, one of them twice: the first is in the root table, and the
      others follow behind it. */
  method KnownPlaces(render: Renderer) returns (font: FontFace, places: seq<int>)
    ensures fresh(font) && font.Valid() && font.renders == [0x41, 0x81, 0xC1] && places == [1, 64, 65, 64]
    ensures font.numGlyphs == 66 && font.maxGlyphs == 96
  {
    hide Home, IsChain;
    font := new FontFace(render);
    var a := font.GetChar(0x41);
    assert font.Cached(0x41);
    var b := Follow(font, 0x41, 0x81);
    var c := Follow(font, 0x41, 0xC1);
    var d := Again(font, 0x81, 64);
    places := [a, b, c, d];
  }

  /** A new codepoint whose place in the root table is taken. */
  method Follow(font: FontFace, root: int, codepoint: int) returns (i: int)
    requires font.Valid() && font.Holds(root, root % 64) && root != -1 && codepoint % 64 == root % 64
    requires codepoint != -1 && codepoint !in font.renders && font.numGlyphs < font.maxGlyphs
    modifies font, font.glyphs
    ensures font.Valid() && i == old(font.numGlyphs) && font.numGlyphs == i + 1 && font.Holds(codepoint, i)
    ensures font.renders == old(font.renders) + [codepoint] && font.maxGlyphs == old(font.maxGlyphs)
    ensures font.glyphs == old(font.glyphs) || fresh(font.glyphs)
    ensures forall c, j :: old(font.Holds(c, j)) ==> font.Holds(c, j)
  {
    hide Home, IsChain;
    i := font.GetChar(codepoint);
  }

  method Again(font: FontFace, codepoint: int, place: int) returns (i: int)
    requires font.Valid() && font.Holds(codepoint, place)
    modifies font, font.glyphs
    ensures font.Valid() && i == place && font.numGlyphs == old(font.numGlyphs)
    ensures font.renders == old(font.renders) && font.maxGlyphs == old(font.maxGlyphs)
  {
    hide Home, IsChain;
    assert font.Cached(codepoint);
    i := font.GetChar(codepoint);
    font.HeldOnce(codepoint, i, place);
  }

  /** The last glyph of a chain is not in the chain of another home. */
  lemma LastElsewhere(render: Renderer, g: seq<Glyph>, num: int, h: int, chain: seq<int>, k: int)
    requires IsChain(render, g, num, h, chain) && chain != [] && k != h && 0 <= k < ROOT
    ensures var last := chain[|chain| - 1]; 0 <= last < num && last != k && Home(g[last].codepoint) != k
  {
    hide Home;
    assert InChain(render, g, num, h, chain, |chain| - 1);
  }

  /** All chains after a glyph was added at the end of one. */
  lemma AllChains(render: Renderer, g: seq<Glyph>, g': seq<Glyph>, num: int, h: int, chains: seq<seq<int>>,
                  chains': seq<seq<int>>, codepoint: int)
    requires |chains| == ROOT && 0 <= h < ROOT && chains[h] != [] && 0 <= num <= |g| && num < |g'|
    requires Home(codepoint) == h && chains' == chains[h := chains[h] + [num]]
    requires forall k | 0 <= k < ROOT :: IsChain(render, g, num, k, chains[k])
    requires g'[num] == Glyph(codepoint, -1, render(codepoint))
    requires forall k | 0 <= k < |chains[h]| :: 0 <= chains[h][k] < num && g[chains[h][k]].codepoint != codepoint
    requires forall i | 0 <= i < num ::
      g'[i] == if i == chains[h][|chains[h]| - 1] then g[i].(nextIdx := num) else g[i]
    ensures forall k | 0 <= k < ROOT :: IsChain(render, g', num + 1, k, chains'[k])
  {
    hide Home, IsChain;
    LongerChain(render, g, g', num, h, chains[h], codepoint);
    forall k | 0 <= k < ROOT && k != h ensures IsChain(render, g', num + 1, k, chains[k]) {
      LastElsewhere(render, g, num, h, chains[h], k);
      OtherChain(render, g, g', num, num + 1, k, chains[k]);
    }
  }

  /** An empty place of the root table is in no chain. */
  lemma RootNotHeld(render: Renderer, g: seq<Glyph>, num: int, i: int, home: int, chain: seq<int>, j: int)
    requires IsChain(render, g, num, home, chain) && 0 <= i < ROOT && g[i].codepoint == -1 && j in chain
    ensures j != i
  {
    hide Home;
    var k :| 0 <= k < |chain| && chain[k] == j;
    assert InChain(render, g, num, home, chain, k);
  }

  /** Only an empty place of the root table was written. */
  lemma RootElsewhere(render: Renderer, g: seq<Glyph>, g': seq<Glyph>, num: int, i: int, home: int, chain: seq<int>)
    requires IsChain(render, g, num, home, chain) && 0 <= i < ROOT && i != home && |g'| == |g|
    requires forall j | 0 <= j < num && j != i :: g'[j] == g[j]
    ensures IsChain(render, g', num, home, chain)
  {
    hide Home;
    forall k | 0 <= k < |chain| ensures InChain(render, g', num, home, chain, k) {
      assert InChain(render, g, num, home, chain, k);
      forall j | 0 <= j < k && 0 <= chain[j] < num ensures g'[chain[j]].codepoint != g'[chain[k]].codepoint {
        assert InChain(render, g, num, home, chain, j);
      }
    }
  }
}
