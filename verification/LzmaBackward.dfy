/** wiipax/client/LzmaEnc.c: the optimal parser leaves, at every position it looked at, a link to
    where the best way there comes from. Backward turns the links around in place, and the parser
    then hands out one step after the other. */
module LzmaBackward {

  const CHAR: int := 0xFFFF_FFFF      // the backPrev of a literal

  /** COptimal, without prices, states and distances. */
  datatype Optimal = Optimal(posPrev: int, backPrev: int, prev1IsChar: bool, prev2: bool, posPrev2: int, backPrev2: int)

  /** One decision of the parser: from a position to a later one. */
  datatype Step = Step(from: int, to: int, back: int)

  /** The link at position i leads back: directly; or by a literal and then a match or literal; or
      by a match, a literal and a match. */
  predicate Good(o: Optimal, i: int) {
    && 0 <= o.posPrev < i
    && (o.prev1IsChar ==> 1 <= o.posPrev && (o.prev2 ==> 0 <= o.posPrev2 < o.posPrev - 1))
  }

  predicate AllGood(opt: seq<Optimal>, cur: int) {
    0 <= cur < |opt| && forall i | 0 < i <= cur :: Good(opt[i], i)
  }

  function Before(o: Optimal): int {
    if !o.prev1IsChar then o.posPrev else if o.prev2 then o.posPrev2 else o.posPrev - 1
  }

  /** The steps a link stands for. */
  function StepsOf(o: Optimal, cur: int): seq<Step> {
    if !o.prev1IsChar then [Step(o.posPrev, cur, o.backPrev)]
    else
      (if o.prev2 then [Step(o.posPrev2, o.posPrev - 1, o.backPrev2)] else [])
      + [Step(o.posPrev - 1, o.posPrev, CHAR), Step(o.posPrev, cur, o.backPrev)]
  }

  /** The best way from 0 to cur. */
  function Path(opt: seq<Optimal>, cur: int): seq<Step>
    requires AllGood(opt, cur)
    decreases cur
  {
    if cur == 0 then [] else Path(opt, Before(opt[cur])) + StepsOf(opt[cur], cur)
  }

  /** A match to 2, and from there a match, a literal and a match to 9, a literal and a match to 13. */
  lemma {:induction false} KnownWay(opt: seq<Optimal>)
    requires |opt| > 13 && AllGood(opt, 13)
    requires opt[2] == Optimal(0, 90, false, false, 0, 0)
    requires opt[9] == Optimal(5, 3, true, true, 2, 107)
    requires opt[13] == Optimal(10, 1, true, false, 8, 8)
    ensures Path(opt, 9) == [Step(0, 2, 90), Step(2, 4, 107), Step(4, 5, 0xFFFF_FFFF), Step(5, 9, 3)]
    ensures Path(opt, 13) == Path(opt, 9) + [Step(9, 10, 0xFFFF_FFFF), Step(10, 13, 1)]
  {
    hide Path;
    NoWay(opt);
    LastSteps(opt, 2);
    LastSteps(opt, 9);
    LastSteps(opt, 13);
  }

  lemma {:induction false} LastSteps(opt: seq<Optimal>, cur: int)
    requires AllGood(opt, cur) && cur > 0
    ensures AllGood(opt, Before(opt[cur]))
    ensures Path(opt, cur) == Path(opt, Before(opt[cur])) + StepsOf(opt[cur], cur)
  {
    hide StepsOf;
  }

  /** Steps that follow each other from a to b, always ahead. */
  predicate Leads(steps: seq<Step>, a: int, b: int) {
    if steps == [] then a == b
    else steps[0].from == a && a < steps[0].to && Leads(steps[1..], steps[0].to, b)
  }

  lemma {:induction false} LeadsJoin(s: seq<Step>, t: seq<Step>, a: int, b: int, c: int)
    requires Leads(s, a, b) && Leads(t, b, c)
    ensures Leads(s + t, a, c)
    decreases |s|
  {
    if s == [] {
      assert s + t == t;
    } else {
      assert (s + t)[0] == s[0] && (s + t)[1..] == s[1..] + t;
      LeadsJoin(s[1..], t, s[0].to, b, c);
    }
  }

  lemma StepsLead(o: Optimal, cur: int)
    requires Good(o, cur)
    ensures Leads(StepsOf(o, cur), Before(o), cur)
  {
    var s := StepsOf(o, cur);
    assert Leads([], cur, cur);
    var last := [Step(o.posPrev, cur, o.backPrev)];
    assert last[1..] == [] && Leads(last, o.posPrev, cur);
    if o.prev1IsChar {
      var two := [Step(o.posPrev - 1, o.posPrev, CHAR)] + last;
      assert two[1..] == last && Leads(two, o.posPrev - 1, cur);
      if o.prev2 {
        assert s == [Step(o.posPrev2, o.posPrev - 1, o.backPrev2)] + two;
        assert s[1..] == two;
      } else {
        assert s == two;
      }
    }
  }

  /** The best way starts at 0, always goes ahead and ends at cur. */
  lemma {:induction false} PathLeads(opt: seq<Optimal>, cur: int)
    requires AllGood(opt, cur)
    ensures Leads(Path(opt, cur), 0, cur)
    decreases cur
  {
    hide StepsOf;
    if cur > 0 {
      PathLeads(opt, Before(opt[cur]));
      StepsLead(opt[cur], cur);
      LeadsJoin(Path(opt, Before(opt[cur])), StepsOf(opt[cur], cur), 0, Before(opt[cur]), cur);
    }
  }

  /** The way to cur depends on the links up to cur. */
  lemma {:induction false} PathFrame(opt: seq<Optimal>, opt': seq<Optimal>, cur: int)
    requires AllGood(opt, cur) && cur < |opt'| && forall i | 0 < i <= cur :: opt'[i] == opt[i]
    ensures AllGood(opt', cur) && Path(opt', cur) == Path(opt, cur)
    decreases cur
  {
    hide StepsOf;
    if cur > 0 { PathFrame(opt, opt', Before(opt[cur])); }
  }

  /** Links that were turned around: following them from the first step's start gives the steps. */
  predicate Forward(opt: seq<Optimal>, steps: seq<Step>) {
    forall k | 0 <= k < |steps| :: Shows(opt, steps[k])
  }

  predicate Shows(opt: seq<Optimal>, s: Step) {
    0 <= s.from < |opt| && opt[s.from].posPrev == s.to && opt[s.from].backPrev == s.back
  }

  /** What the loop has before it: the links below cur, and the link of cur with its place and
      distance in `posMem` and `backMem`. */
  function Restored(opt: seq<Optimal>, cur: int, posMem: int, backMem: int): seq<Optimal>
    requires 0 <= cur < |opt|
  {
    opt[cur := opt[cur].(posPrev := posMem, backPrev := backMem)]
  }

  /** A composite link written out: its literal, and the match before it if there is one. */
  function Expanded(opt: seq<Optimal>, cur: int, posMem: int): (r: seq<Optimal>)
    requires 0 < cur < |opt| && 0 <= posMem < cur && (opt[cur].prev1IsChar ==> 1 <= posMem)
    ensures |r| == |opt|
  {
    var o := opt[cur];
    if !o.prev1IsChar then opt
    else
      var one := opt[posMem := opt[posMem].(backPrev := CHAR, prev1IsChar := false, posPrev := posMem - 1)];
      if !o.prev2 then one
      else one[posMem - 1 := one[posMem - 1].(prev1IsChar := false, posPrev := o.posPrev2, backPrev := o.backPrev2)]
  }

  /** The links stay good up to where the composite came from. */
  lemma ExpandedGood(opt: seq<Optimal>, cur: int, posMem: int, backMem: int)
    requires 0 < cur < |opt| && 0 <= posMem < cur && (opt[cur].prev1IsChar ==> 1 <= posMem)
    requires AllGood(Restored(opt, cur, posMem, backMem), cur)
    ensures var v, e := Restored(opt, cur, posMem, backMem), Expanded(opt, cur, posMem);
      && AllGood(e, posMem) && Good(v[cur], cur) && 0 <= Before(v[cur]) < cur && AllGood(v, Before(v[cur]))
      && forall i | 0 < i <= Before(v[cur]) :: e[i] == v[i]
  {
    var v, e := Restored(opt, cur, posMem, backMem), Expanded(opt, cur, posMem);
    assert Good(v[cur], cur);
    forall i | 0 < i <= posMem ensures Good(e[i], i) { assert Good(v[i], i); }
  }

  /** Writing a composite link out does not change the way. */
  lemma {:induction false} ExpandedPath(opt: seq<Optimal>, cur: int, posMem: int, backMem: int)
    requires 0 < cur < |opt| && 0 <= posMem < cur && (opt[cur].prev1IsChar ==> 1 <= posMem)
    requires AllGood(Restored(opt, cur, posMem, backMem), cur)
    ensures var e := Expanded(opt, cur, posMem);
      AllGood(e, posMem)
      && Path(Restored(opt, cur, posMem, backMem), cur) == Path(e, posMem) + [Step(posMem, cur, backMem)]
  {
    hide Path, AllGood, Good;
    var v, e := Restored(opt, cur, posMem, backMem), Expanded(opt, cur, posMem);
    ExpandedGood(opt, cur, posMem, backMem);
    var b := Before(v[cur]);
    PathFrame(v, e, b);
    LastSteps(v, cur);
    if v[cur].prev1IsChar { ExpandedWay(e, v[cur], posMem, b); }
  }

  lemma {:induction false} ExpandedWay(e: seq<Optimal>, o: Optimal, posMem: int, b: int)
    requires 1 <= posMem < |e| && AllGood(e, posMem) && o.prev1IsChar && b == Before(o) && o.posPrev == posMem
    requires !e[posMem].prev1IsChar && e[posMem].posPrev == posMem - 1 && e[posMem].backPrev == CHAR
    requires o.prev2 ==> 0 <= b < posMem - 1 && !e[posMem - 1].prev1IsChar && e[posMem - 1].posPrev == b
    requires o.prev2 ==> e[posMem - 1].backPrev == o.backPrev2
    ensures 0 <= b <= posMem && AllGood(e, b)
    ensures Path(e, posMem) == Path(e, b)
      + ((if o.prev2 then [Step(b, posMem - 1, o.backPrev2)] else []) + [Step(posMem - 1, posMem, CHAR)])
  {
    var lit := [Step(posMem - 1, posMem, CHAR)];
    assert Path(e, posMem) == Path(e, posMem - 1) + lit;
    if o.prev2 {
      assert Path(e, posMem - 1) == Path(e, b) + [Step(b, posMem - 1, o.backPrev2)];
    } else {
      assert [] + lit == lit;
    }
  }

  // ----- Turning the links around -----

  lemma {:induction false} LeadsFrom(steps: seq<Step>, a: int, b: int, k: int)
    requires Leads(steps, a, b) && 0 <= k < |steps|
    ensures a <= steps[k].from
    decreases |steps|
  {
    if k > 0 { LeadsFrom(steps[1..], steps[0].to, b, k - 1); }
  }

  /** One more link turned around, where none was turned before. */
  lemma TurnedOne(opt: seq<Optimal>, opt': seq<Optimal>, done: seq<Step>, s: Step, end: int)
    requires |opt'| == |opt| && Forward(opt, done) && 0 <= s.from < s.to && Leads(done, s.to, end) && Shows(opt', s)
    requires forall i | s.to <= i < |opt| :: opt'[i] == opt[i]
    ensures Forward(opt', [s] + done) && Leads([s] + done, s.from, end)
  {
    var all := [s] + done;
    forall k | 0 <= k < |all| ensures Shows(opt', all[k]) {
      if k > 0 {
        assert Shows(opt, done[k - 1]);
        LeadsFrom(done, s.to, end, k - 1);
      }
    }
    assert all[1..] == done;
  }

  class Optimum {
    const opt: array<Optimal>
    var optimumEndIndex: int
    var optimumCurrentIndex: int

    constructor (opt: array<Optimal>)
      ensures this.opt == opt && optimumEndIndex == 0 && optimumCurrentIndex == 0
    {
      this.opt := opt;
      optimumEndIndex, optimumCurrentIndex := 0, 0;
    }

    /** What the parser has still to hand out. */
    ghost predicate Queued(steps: seq<Step>)
      reads this, opt
    {
      Forward(opt[..], steps) && Leads(steps, optimumCurrentIndex, optimumEndIndex)
    }

    /** MakeAsChar, and the match before the literal. */
    method WriteOut(cur: int, posMem: int)
      requires 0 < cur < opt.Length && 0 <= posMem < cur && (opt[cur].prev1IsChar ==> 1 <= posMem)
      modifies opt
      ensures opt[..] == Expanded(old(opt[..]), cur, posMem)
    {
      if opt[cur].prev1IsChar {
        opt[posMem] := opt[posMem].(backPrev := CHAR, prev1IsChar := false);
        opt[posMem] := opt[posMem].(posPrev := posMem - 1);
        if opt[cur].prev2 {
          opt[posMem - 1] := opt[posMem - 1].(prev1IsChar := false);
          opt[posMem - 1] := opt[posMem - 1].(posPrev := opt[cur].posPrev2);
          opt[posMem - 1] := opt[posMem - 1].(backPrev := opt[cur].backPrev2);
        }
      }
    }

    /** Backward: the best way from 0 to cur is queued, and its first step is handed out. */
    method Backward(cur: int) returns (len: int, backRes: int)
      requires AllGood(opt[..], cur) && cur > 0
      modifies this, opt
      ensures Leads(Path(old(opt[..]), cur), 0, cur) && Path(old(opt[..]), cur) != []
      ensures Forward(opt[..], Path(old(opt[..]), cur)) && Queued(Path(old(opt[..]), cur)[1..])
      ensures len == optimumCurrentIndex == Path(old(opt[..]), cur)[0].to && optimumEndIndex == cur
      ensures backRes == Path(old(opt[..]), cur)[0].back
    {
      hide Path, Expanded, AllGood, StepsOf;
      ghost var way := Path(opt[..], cur);
      PathLeads(opt[..], cur);
      ghost var done: seq<Step> := [];
      GoodAt(opt[..], cur);
      var c := cur;
      var posMem, backMem := opt[c].posPrev, opt[c].backPrev;
      optimumEndIndex := c;
      assert Restored(opt[..], c, posMem, backMem) == opt[..];
      assert way + [] == way;
      while true
        invariant 0 < c <= cur < opt.Length && AllGood(Restored(opt[..], c, posMem, backMem), c)
        invariant Path(Restored(opt[..], c, posMem, backMem), c) + done == way
        invariant Leads(done, c, cur) && Forward(opt[..], done) && optimumEndIndex == cur
        decreases c
      {
        GoodAt(Restored(opt[..], c, posMem, backMem), c);
        ghost var before := opt[..];
        ExpandedPath(before, c, posMem, backMem);
        WriteOut(c, posMem);
        ghost var e := opt[..];
        ExpandedAbove(before, c, posMem);
        var posPrev, backCur := posMem, backMem;
        backMem := opt[posPrev].backPrev;
        posMem := opt[posPrev].posPrev;
        opt[posPrev] := opt[posPrev].(backPrev := backCur, posPrev := c);
        ghost var s := Step(posPrev, c, backCur);
        TurnedOne(before, opt[..], done, s, cur);
        assert Restored(opt[..], posPrev, posMem, backMem) == e;
        done := [s] + done;
        c := posPrev;
        if c == 0 { break; }
      }
      NoWay(Restored(opt[..], c, posMem, backMem));
      assert [] + done == done;
      assert Shows(opt[..], done[0]);
      backRes := opt[0].backPrev;
      optimumCurrentIndex := opt[0].posPrev;
      len := optimumCurrentIndex;
      forall k | 0 <= k < |way[1..]| ensures Shows(opt[..], way[1..][k]) { assert Shows(opt[..], way[k + 1]); }
    }

    /** The start of GetOptimum: the next step, as a length and a distance. */
    method Next(ghost steps: seq<Step>) returns (lenRes: int, backRes: int)
      requires optimumEndIndex != optimumCurrentIndex && Queued(steps)
      modifies this`optimumCurrentIndex
      ensures steps != [] && lenRes == steps[0].to - steps[0].from > 0 && backRes == steps[0].back
      ensures steps[0].from == old(optimumCurrentIndex) && Queued(steps[1..])
    {
      assert Shows(opt[..], steps[0]);
      forall k | 0 <= k < |steps[1..]| ensures Shows(opt[..], steps[1..][k]) { assert Shows(opt[..], steps[k + 1]); }
      lenRes := opt[optimumCurrentIndex].posPrev - optimumCurrentIndex;
      backRes := opt[optimumCurrentIndex].backPrev;
      optimumCurrentIndex := opt[optimumCurrentIndex].posPrev;
    }
  }

  lemma GoodAt(opt: seq<Optimal>, cur: int)
    requires AllGood(opt, cur) && cur > 0
    ensures cur < |opt| && Good(opt[cur], cur)
  {
  }

  lemma NoWay(opt: seq<Optimal>)
    requires |opt| > 0
    ensures AllGood(opt, 0) && Path(opt, 0) == []
  {
  }

  /** Writing a link out touches nothing from cur on. */
  lemma ExpandedAbove(opt: seq<Optimal>, cur: int, posMem: int)
    requires 0 < cur < |opt| && 0 <= posMem < cur && (opt[cur].prev1IsChar ==> 1 <= posMem)
    ensures forall i | cur <= i < |opt| :: Expanded(opt, cur, posMem)[i] == opt[i]
  {
  }
}
