/** The simulated cache: lines, ages and replacement (npc/tools/cachesim/cachesim.cpp). */
module Cache {
  import opened CacheTrace

  datatype Line = Line(valid: bool, tag: nat, age: nat)

  datatype Stats = Stats(accesses: nat, cacheable: nat, uncacheable: nat, hits: nat, misses: nat)

  /** Every line holds a block of its set that was accessed at the time of its age, and no two hold the same. */
  ghost predicate SetOk(opt: Options, trace: seq<Address>, s: nat, lines: seq<Line>)
  {
    && |lines| == opt.ways
    && (forall w :: 0 <= w < |lines| && lines[w].valid ==> LineOk(opt, trace, s, lines[w]))
    && forall w, x :: 0 <= w < x < |lines| && lines[w].valid && lines[x].valid ==> lines[w].tag != lines[x].tag
  }

  ghost predicate LineOk(opt: Options, trace: seq<Address>, s: nat, l: Line)
  {
    && 1 <= l.age <= |trace| && Goes(opt, trace[l.age - 1], s)
    && Tag(opt, Block(opt, trace[l.age - 1])) == l.tag
  }

  ghost predicate Holds(lines: seq<Line>, tag: nat)
  {
    exists w :: 0 <= w < |lines| && lines[w].valid && lines[w].tag == tag
  }

  /** Access k went to this set, and its block is not held. */
  ghost predicate Unheld(opt: Options, trace: seq<Address>, s: nat, lines: seq<Line>, k: int)
  {
    0 <= k < |trace| && Goes(opt, trace[k], s) && !Holds(lines, Tag(opt, Block(opt, trace[k])))
  }

  /** LRU: ages are the times of last accesses, and what is not held was last accessed before everything held. */
  ghost predicate LruOk(opt: Options, trace: seq<Address>, s: nat, lines: seq<Line>)
  {
    && (forall w, k :: 0 <= w < |lines| && lines[w].valid && lines[w].age <= k < |trace| && Goes(opt, trace[k], s) ==>
          Tag(opt, Block(opt, trace[k])) != lines[w].tag)
    && (forall w, k :: 0 <= w < |lines| && Unheld(opt, trace, s, lines, k) ==> lines[w].valid && k + 1 < lines[w].age)
  }

  /** FIFO: the lines are the last fills, the invalid ones last. */
  ghost predicate FifoOk(opt: Options, trace: seq<Address>, s: nat, lines: seq<Line>)
  {
    AreFills(lines, |Fills(opt, trace, s)|, LastFills(opt, trace, s))
  }

  ghost predicate AreFills(lines: seq<Line>, count: nat, last: seq<nat>)
  {
    && (forall w :: 0 <= w < |lines| ==> (lines[w].valid <==> w < count))
    && (forall w :: 0 <= w < |lines| && lines[w].valid ==> IsFill(last, lines[w].age))
    && (forall i :: 0 <= i < |last| ==> HasAge(lines, last[i] + 1))
  }

  ghost predicate IsFill(last: seq<nat>, age: nat) { exists i :: 0 <= i < |last| && last[i] + 1 == age }

  ghost predicate HasAge(lines: seq<Line>, age: nat)
  {
    exists w :: 0 <= w < |lines| && lines[w].valid && lines[w].age == age
  }

  lemma FillIndex(last: seq<nat>, age: nat) returns (i: nat)
    requires IsFill(last, age)
    ensures i < |last| && last[i] + 1 == age
  {
    i :| 0 <= i < |last| && last[i] + 1 == age;
  }

  lemma FillAt(last: seq<nat>, i: nat)
    requires i < |last|
    ensures IsFill(last, last[i] + 1)
  {
  }

  lemma WayOfAge(lines: seq<Line>, age: nat) returns (w: nat)
    requires HasAge(lines, age)
    ensures w < |lines| && lines[w].valid && lines[w].age == age
  {
    w :| 0 <= w < |lines| && lines[w].valid && lines[w].age == age;
  }

  lemma AgeAt(lines: seq<Line>, w: nat)
    requires w < |lines| && lines[w].valid
    ensures HasAge(lines, lines[w].age)
  {
  }

  ghost predicate PolicyOk(opt: Options, trace: seq<Address>, s: nat, lines: seq<Line>)
  {
    match opt.repl
    case Lru => LruOk(opt, trace, s, lines)
    case Fifo => FifoOk(opt, trace, s, lines)
    case Random => true
  }

  // ----- LRU: held means recently used -----

  /** The block a line holds. */
  ghost function BlockOf(opt: Options, trace: seq<Address>, l: Line): nat
  {
    if 1 <= l.age <= |trace| then Block(opt, trace[l.age - 1]) else 0
  }

  /** The blocks of all lines but one. */
  ghost function Blocks(opt: Options, trace: seq<Address>, lines: seq<Line>, n: nat, skip: nat): set<nat>
    requires n <= |lines|
  {
    set w | 0 <= w < n && w != skip :: BlockOf(opt, trace, lines[w])
  }

  ghost predicate DistinctBlocks(opt: Options, trace: seq<Address>, lines: seq<Line>, n: nat)
    requires n <= |lines|
  {
    forall w, x :: 0 <= w < x < n ==> BlockOf(opt, trace, lines[w]) != BlockOf(opt, trace, lines[x])
  }

  lemma {:induction false} BlocksSize(opt: Options, trace: seq<Address>, lines: seq<Line>, n: nat, skip: nat)
    requires n <= |lines|
    ensures |Blocks(opt, trace, lines, n, skip)| <= if skip < n then n - 1 else n
    ensures n <= skip && DistinctBlocks(opt, trace, lines, n) ==>
              |Blocks(opt, trace, lines, n, skip)| == n
  {
    if n > 0 {
      BlocksSize(opt, trace, lines, n - 1, skip);
      var before := Blocks(opt, trace, lines, n - 1, skip);
      assert Blocks(opt, trace, lines, n, skip)
          == if n - 1 == skip then before else before + {BlockOf(opt, trace, lines[n - 1])};
    }
  }

  lemma SubsetSize(a: set<nat>, b: set<nat>)
    requires a <= b
    ensures |a| <= |b|
  {
    assert b == a + (b - a);
  }

  /** In one set, equal tags are equal blocks. */
  lemma TagBlock(opt: Options, trace: seq<Address>, s: nat, l: Line, b: nat)
    requires LineOk(opt, trace, s, l) && SetIndex(opt, b) == s
    ensures l.tag == Tag(opt, b) <==> BlockOf(opt, trace, l) == b
  {
    if l.tag == Tag(opt, b) { SameBlock(opt, BlockOf(opt, trace, l), b); }
  }

  lemma HeldIsRecent(opt: Options, trace: seq<Address>, s: nat, lines: seq<Line>, b: nat, x: nat)
    requires SetOk(opt, trace, s, lines) && LruOk(opt, trace, s, lines) && SetIndex(opt, b) == s
    requires x < |lines| && lines[x].valid && lines[x].tag == Tag(opt, b)
    ensures LruHit(opt, trace, b)
  {
    var j := lines[x].age - 1;
    TagBlock(opt, trace, s, lines[x], b);
    var others := OthersSince(opt, trace, j, b);
    forall c | c in others ensures c in Blocks(opt, trace, lines, |lines|, x) {
      var k :| j < k < |trace| && Goes(opt, trace[k], s) && Block(opt, trace[k]) != b && c == Block(opt, trace[k]);
      assert !Unheld(opt, trace, s, lines, k);
      var w :| 0 <= w < |lines| && lines[w].valid && lines[w].tag == Tag(opt, c);
      TagBlock(opt, trace, s, lines[w], c);
    }
    SubsetSize(others, Blocks(opt, trace, lines, |lines|, x));
    BlocksSize(opt, trace, lines, |lines|, x);
    assert Touches(opt, trace[j], b);
  }

  lemma RecentIsHeld(opt: Options, trace: seq<Address>, s: nat, lines: seq<Line>, b: nat)
    requires SetOk(opt, trace, s, lines) && LruOk(opt, trace, s, lines) && SetIndex(opt, b) == s
    requires LruHit(opt, trace, b)
    ensures Holds(lines, Tag(opt, b))
  {
    var j: nat :| j < |trace| && Touches(opt, trace[j], b) && |OthersSince(opt, trace, j, b)| < opt.ways;
    if !Holds(lines, Tag(opt, b)) {
      assert Unheld(opt, trace, s, lines, j);
      forall w | 0 <= w < |lines| ensures BlockOf(opt, trace, lines[w]) in OthersSince(opt, trace, j, b) {
        TagBlock(opt, trace, s, lines[w], b);
      }
      forall w, x | 0 <= w < x < |lines| ensures BlockOf(opt, trace, lines[w]) != BlockOf(opt, trace, lines[x]) {
        TagBlock(opt, trace, s, lines[w], BlockOf(opt, trace, lines[x]));
      }
      BlocksSize(opt, trace, lines, |lines|, |lines|);
      SubsetSize(Blocks(opt, trace, lines, |lines|, |lines|), OthersSince(opt, trace, j, b));
    }
  }

  /** FIFO: held means among the last fills. */
  lemma HeldIsFilled(opt: Options, trace: seq<Address>, s: nat, lines: seq<Line>, b: nat)
    requires SetOk(opt, trace, s, lines) && FifoOk(opt, trace, s, lines) && SetIndex(opt, b) == s
    ensures Holds(lines, Tag(opt, b)) <==> FifoHit(opt, trace, b)
  {
    hide Fills, LastFills, Tag, SetIndex, Goes, IsFill, HasAge;
    var last := LastFills(opt, trace, s);
    if Holds(lines, Tag(opt, b)) {
      var w :| 0 <= w < |lines| && lines[w].valid && lines[w].tag == Tag(opt, b);
      TagBlock(opt, trace, s, lines[w], b);
      var i := FillIndex(last, lines[w].age);
      assert Block(opt, trace[last[i]]) == b;
    }
    if FifoHit(opt, trace, b) {
      var i :| 0 <= i < |last| && Block(opt, trace[last[i]]) == b;
      var w := WayOfAge(lines, last[i] + 1);
      TagBlock(opt, trace, s, lines[w], b);
    }
  }

  /** For LRU and FIFO: a tag is held exactly if the reference says hit. */
  lemma HeldIffHit(opt: Options, trace: seq<Address>, lines: seq<Line>, pc: Address)
    requires var s := SetIndex(opt, Block(opt, pc)); SetOk(opt, trace, s, lines) && PolicyOk(opt, trace, s, lines)
    requires Cacheable(opt, pc) && opt.repl != Random
    ensures Holds(lines, Tag(opt, Block(opt, pc))) <==> HitAt(opt, trace, pc)
  {
    var b, s := Block(opt, pc), SetIndex(opt, Block(opt, pc));
    if opt.repl == Lru {
      if Holds(lines, Tag(opt, b)) {
        var x :| 0 <= x < |lines| && lines[x].valid && lines[x].tag == Tag(opt, b);
        HeldIsRecent(opt, trace, s, lines, b, x);
      }
      if LruHit(opt, trace, b) { RecentIsHeld(opt, trace, s, lines, b); }
    } else {
      HeldIsFilled(opt, trace, s, lines, b);
    }
  }

  // ----- one access -----

  /** An access that goes elsewhere does not matter to a set. */
  lemma OtherSet(opt: Options, trace: seq<Address>, s: nat, lines: seq<Line>, pc: Address)
    requires SetOk(opt, trace, s, lines) && PolicyOk(opt, trace, s, lines) && !Goes(opt, pc, s)
    ensures SetOk(opt, trace + [pc], s, lines) && PolicyOk(opt, trace + [pc], s, lines)
  {
    assert (trace + [pc])[..|trace|] == trace;
    if opt.repl == Lru {
      forall w, k | 0 <= w < |lines| && Unheld(opt, trace + [pc], s, lines, k)
        ensures lines[w].valid && k + 1 < lines[w].age
      {
        assert Unheld(opt, trace, s, lines, k);
      }
    }
  }

  /** A hit at way x. */
  lemma HitStep(opt: Options, trace: seq<Address>, s: nat, lines: seq<Line>, pc: Address, x: nat)
    requires SetOk(opt, trace, s, lines) && PolicyOk(opt, trace, s, lines) && Goes(opt, pc, s)
    requires x < |lines| && lines[x].valid && lines[x].tag == Tag(opt, Block(opt, pc))
    ensures var after := if opt.repl == Lru then lines[x := lines[x].(age := |trace| + 1)] else lines;
            SetOk(opt, trace + [pc], s, after) && PolicyOk(opt, trace + [pc], s, after)
  {
    hide LruOk, FifoOk;
    assert Holds(lines, Tag(opt, Block(opt, pc)));
    match opt.repl
    case Lru => LruHitStep(opt, trace, s, lines, pc, x);
    case Fifo => FifoHitStep(opt, trace, s, lines, pc);
    case Random =>
  }

  lemma LruHitStep(opt: Options, trace: seq<Address>, s: nat, lines: seq<Line>, pc: Address, x: nat)
    requires SetOk(opt, trace, s, lines) && LruOk(opt, trace, s, lines) && Goes(opt, pc, s)
    requires x < |lines| && lines[x].valid && lines[x].tag == Tag(opt, Block(opt, pc))
    ensures LruOk(opt, trace + [pc], s, lines[x := lines[x].(age := |trace| + 1)])
  {
    var after := lines[x := lines[x].(age := |trace| + 1)];
    forall t ensures Holds(after, t) <==> Holds(lines, t) { SameTags(lines, after, t); }
    assert Holds(lines, Tag(opt, Block(opt, pc)));
    forall w, k | 0 <= w < |after| && Unheld(opt, trace + [pc], s, after, k)
      ensures after[w].valid && k + 1 < after[w].age
    {
      assert Unheld(opt, trace, s, lines, k);
    }
  }

  lemma FifoHitStep(opt: Options, trace: seq<Address>, s: nat, lines: seq<Line>, pc: Address)
    requires SetOk(opt, trace, s, lines) && FifoOk(opt, trace, s, lines) && Goes(opt, pc, s)
    requires Holds(lines, Tag(opt, Block(opt, pc)))
    ensures FifoOk(opt, trace + [pc], s, lines)
  {
    HeldIsFilled(opt, trace, s, lines, Block(opt, pc));
    FillsStep(opt, trace, pc, s);
    hide Fills, FifoHit;
  }

  lemma SameTags(lines: seq<Line>, after: seq<Line>, t: nat)
    requires |lines| == |after|
    requires forall w :: 0 <= w < |lines| ==> lines[w].valid == after[w].valid && lines[w].tag == after[w].tag
    ensures Holds(after, t) <==> Holds(lines, t)
  {
    if Holds(lines, t) {
      var w :| 0 <= w < |lines| && lines[w].valid && lines[w].tag == t;
      assert after[w].valid && after[w].tag == t;
    }
    if Holds(after, t) {
      var w :| 0 <= w < |after| && after[w].valid && after[w].tag == t;
      assert lines[w].valid && lines[w].tag == t;
    }
  }

  /** The way a miss fills: the first invalid one, otherwise any, or one of least age. */
  ghost predicate IsVictim(byAge: bool, lines: seq<Line>, v: nat)
  {
    && v < |lines|
    && (!lines[v].valid ==> forall w :: 0 <= w < v ==> lines[w].valid)
    && (lines[v].valid ==>
          forall w :: 0 <= w < |lines| ==> lines[w].valid && (byAge ==> lines[v].age <= lines[w].age))
  }

  lemma MissStep(opt: Options, trace: seq<Address>, s: nat, lines: seq<Line>, pc: Address, v: nat)
    requires SetOk(opt, trace, s, lines) && PolicyOk(opt, trace, s, lines) && Goes(opt, pc, s)
    requires !Holds(lines, Tag(opt, Block(opt, pc))) && IsVictim(opt.repl != Random, lines, v)
    ensures var after := lines[v := Line(true, Tag(opt, Block(opt, pc)), |trace| + 1)];
            SetOk(opt, trace + [pc], s, after) && PolicyOk(opt, trace + [pc], s, after)
  {
    match opt.repl
    case Lru => LruMiss(opt, trace, s, lines, pc, v);
    case Fifo => FifoMiss(opt, trace, s, lines, pc, v);
    case Random =>
  }

  /** Different lines have different ages. */
  lemma DistinctAges(opt: Options, trace: seq<Address>, s: nat, lines: seq<Line>, v: nat, w: nat)
    requires SetOk(opt, trace, s, lines) && v < |lines| && w < |lines| && v != w && lines[v].valid && lines[w].valid
    ensures lines[v].age != lines[w].age
  {
    assert LineOk(opt, trace, s, lines[v]) && LineOk(opt, trace, s, lines[w]);
  }

  lemma LruMiss(opt: Options, trace: seq<Address>, s: nat, lines: seq<Line>, pc: Address, v: nat)
    requires SetOk(opt, trace, s, lines) && LruOk(opt, trace, s, lines) && Goes(opt, pc, s) && opt.repl == Lru
    requires !Holds(lines, Tag(opt, Block(opt, pc))) && IsVictim(true, lines, v)
    ensures var after := lines[v := Line(true, Tag(opt, Block(opt, pc)), |trace| + 1)];
            LruOk(opt, trace + [pc], s, after)
  {
    var n, t := |trace|, Tag(opt, Block(opt, pc));
    var after := lines[v := Line(true, t, n + 1)];
    forall w, k | 0 <= w < |after| && Unheld(opt, trace + [pc], s, after, k)
      ensures after[w].valid && k + 1 < after[w].age
    {
      assert after[v].valid && after[v].tag == t;
      assert k < n;
      EvictedBefore(opt, trace, s, lines, pc, v, w, k);
    }
  }

  /** A tag that is gone was the victim's. */
  lemma OnlyVictim(lines: seq<Line>, v: nat, l: Line, t: nat)
    requires v < |lines| && Holds(lines, t) && !Holds(lines[v := l], t)
    ensures lines[v].valid && lines[v].tag == t
  {
    var x :| 0 <= x < |lines| && lines[x].valid && lines[x].tag == t;
    var before, after := lines[x], lines[v := l][x];
    assert x != v ==> after == before;
  }

  lemma EvictedBefore(opt: Options, trace: seq<Address>, s: nat, lines: seq<Line>, pc: Address, v: nat, w: nat, k: nat)
    requires SetOk(opt, trace, s, lines) && LruOk(opt, trace, s, lines) && IsVictim(true, lines, v)
    requires w < |lines| && k < |trace|
    requires Unheld(opt, trace + [pc], s, lines[v := Line(true, Tag(opt, Block(opt, pc)), |trace| + 1)], k)
    ensures w == v || (lines[w].valid && k + 1 < lines[w].age)
  {
    var t := Tag(opt, Block(opt, trace[k]));
    if w != v {
      if Holds(lines, t) {
        OnlyVictim(lines, v, Line(true, Tag(opt, Block(opt, pc)), |trace| + 1), t);
        DistinctAges(opt, trace, s, lines, v, w);
      } else {
        assert Unheld(opt, trace, s, lines, k);
      }
    }
  }

  lemma FifoMiss(opt: Options, trace: seq<Address>, s: nat, lines: seq<Line>, pc: Address, v: nat)
    requires SetOk(opt, trace, s, lines) && FifoOk(opt, trace, s, lines) && Goes(opt, pc, s) && opt.repl == Fifo
    requires !Holds(lines, Tag(opt, Block(opt, pc))) && IsVictim(true, lines, v)
    ensures var after := lines[v := Line(true, Tag(opt, Block(opt, pc)), |trace| + 1)];
            FifoOk(opt, trace + [pc], s, after)
  {
    hide Fills, FifoHit, AreFills, IsVictim, Holds, Last;
    var n, f := |trace|, Fills(opt, trace, s);
    HeldIsFilled(opt, trace, s, lines, Block(opt, pc));
    FillsStep(opt, trace, pc, s);
    forall w, x | 0 <= w < |lines| && 0 <= x < |lines| && w != x && lines[w].valid && lines[x].valid
      ensures lines[w].age != lines[x].age
    {
      DistinctAges(opt, trace, s, lines, w, x);
    }
    FifoRotates(lines, f, n, Tag(opt, Block(opt, pc)), v);
  }

  lemma FillsStep(opt: Options, trace: seq<Address>, pc: Address, s: nat)
    requires Goes(opt, pc, s)
    ensures Fills(opt, trace + [pc], s)
         == if FifoHit(opt, trace, Block(opt, pc)) then Fills(opt, trace, s) else Fills(opt, trace, s) + [|trace|]
  {
    hide FifoHit;
    assert (trace + [pc])[..|trace|] == trace;
  }

  /** The victim is the oldest fill; the new one joins the end. */
  lemma FifoRotates(lines: seq<Line>, f: seq<nat>, n: nat, t: nat, v: nat)
    requires AreFills(lines, |f|, Last(f, |lines|)) && IsVictim(true, lines, v)
    requires forall i, j :: 0 <= i < j < |f| ==> f[i] < f[j]
    requires DistinctAge(lines)
    ensures AreFills(lines[v := Line(true, t, n + 1)], |f| + 1, Last(f + [n], |lines|))
  {
    hide IsFill, HasAge, DistinctAge, IsVictim;
    var before, last := Last(f, |lines|), Last(f + [n], |lines|);
    if |f| < |lines| {
      FirstInvalid(lines, |f|, v);
      assert last == before[0..] + [n];
      FifoShift(lines, before, 0, n, t, v, |f|);
    } else {
      AllValid(lines, v);
      assert before == f[|f| - |lines|..] && last == before[1..] + [n];
      OldestIsVictim(lines, before, v);
      FifoShift(lines, before, 1, n, t, v, |f|);
    }
  }

  lemma FirstInvalid(lines: seq<Line>, count: nat, v: nat)
    requires IsVictim(true, lines, v) && count < |lines|
    requires forall w :: 0 <= w < |lines| ==> (lines[w].valid <==> w < count)
    ensures v == count
  {
    assert !lines[count].valid;
  }

  lemma AllValid(lines: seq<Line>, v: nat)
    requires IsVictim(true, lines, v) && forall w :: 0 <= w < |lines| ==> lines[w].valid
    ensures v < |lines| && lines[v].valid
  {
  }

  ghost predicate DistinctAge(lines: seq<Line>)
  {
    forall w, x :: 0 <= w < |lines| && 0 <= x < |lines| && w != x && lines[w].valid && lines[x].valid ==>
      lines[w].age != lines[x].age
  }

  /** Dropping the first d fills with the victim, and adding one. */
  lemma FifoShift(lines: seq<Line>, before: seq<nat>, d: nat, n: nat, t: nat, v: nat, count: nat)
    requires AreFills(lines, count, before) && v < |lines| && DistinctAge(lines) && d <= 1 && d <= |before|
    requires if d == 0 then !lines[v].valid && v == count
             else lines[v].valid && count >= |lines| && lines[v].age == before[0] + 1
    requires forall i :: d <= i < |before| ==> d == 1 ==> before[0] < before[i]
    ensures AreFills(lines[v := Line(true, t, n + 1)], count + 1, before[d..] + [n])
  {
    hide IsFill, HasAge;
    var after, last := lines[v := Line(true, t, n + 1)], before[d..] + [n];
    forall w | 0 <= w < |after| && after[w].valid ensures IsFill(last, after[w].age) {
      if w == v {
        FillAt(last, |last| - 1);
      } else {
        var i := FillIndex(before, lines[w].age);
        FillAt(last, i - d);
      }
    }
    forall i | 0 <= i < |last| ensures HasAge(after, last[i] + 1) {
      if i == |last| - 1 {
        AgeAt(after, v);
      } else {
        var w := WayOfAge(lines, before[i + d] + 1);
        AgeAt(after, w);
      }
    }
  }

  lemma OldestIsVictim(lines: seq<Line>, last: seq<nat>, v: nat)
    requires IsVictim(true, lines, v) && lines[v].valid && |last| > 0
    requires HasAge(lines, last[0] + 1) && IsFill(last, lines[v].age)
    requires forall i :: 0 <= i < |last| ==> last[0] <= last[i]
    ensures lines[v].age == last[0] + 1
  {
  }

  // ----- the simulator -----

  /** The way that holds a tag, or the number of ways. */
  method FindTag(lines: seq<Line>, tag: nat) returns (w: nat)
    ensures w <= |lines| && (w < |lines| <==> Holds(lines, tag))
    ensures w < |lines| ==> lines[w].valid && lines[w].tag == tag
  {
    w := 0;
    while w < |lines|
      invariant 0 <= w <= |lines| && forall x :: 0 <= x < w ==> !(lines[x].valid && lines[x].tag == tag)
    {
      if lines[w].valid && lines[w].tag == tag { return; }
      w := w + 1;
    }
  }

  /** The first invalid way, or the number of ways. */
  method FindInvalid(lines: seq<Line>) returns (w: nat)
    ensures w <= |lines| && (w < |lines| ==> !lines[w].valid) && forall x :: 0 <= x < w ==> lines[x].valid
  {
    w := 0;
    while w < |lines|
      invariant 0 <= w <= |lines| && forall x :: 0 <= x < w ==> lines[x].valid
    {
      if !lines[w].valid { return; }
      w := w + 1;
    }
  }

  method FindOldest(lines: seq<Line>) returns (v: nat)
    requires |lines| > 0
    ensures v < |lines| && forall x :: 0 <= x < |lines| ==> lines[v].age <= lines[x].age
  {
    v := 0;
    var bestAge, w := lines[0].age, 1;
    while w < |lines|
      invariant 1 <= w <= |lines| && v < w && bestAge == lines[v].age
      invariant forall x :: 0 <= x < w ==> bestAge <= lines[x].age
    {
      if lines[w].age < bestAge {
        bestAge := lines[w].age;
        v := w;
      }
      w := w + 1;
    }
  }

  method ChooseVictim(opt: Options, lines: seq<Line>) returns (v: nat)
    requires |lines| == opt.ways
    ensures IsVictim(opt.repl != Random, lines, v)
  {
    v := FindInvalid(lines);
    if v == |lines| {
      if opt.repl == Random {
        v :| 0 <= v < opt.ways;
      } else {
        v := FindOldest(lines);
      }
    }
  }

  /** access_cache within one set: search, replacement and update. */
  method AccessSet(opt: Options, ghost trace: seq<Address>, lines: seq<Line>, pc: Address, now: nat)
    returns (hit: bool, after: seq<Line>)
    requires Cacheable(opt, pc) && now == |trace| + 1
    requires var s := SetIndex(opt, Block(opt, pc)); SetOk(opt, trace, s, lines) && PolicyOk(opt, trace, s, lines)
    ensures var s := SetIndex(opt, Block(opt, pc));
            SetOk(opt, trace + [pc], s, after) && PolicyOk(opt, trace + [pc], s, after)
    ensures opt.repl != Random ==> (hit <==> HitAt(opt, trace, pc))
  {
    hide SetOk, PolicyOk, HitAt, Block, SetIndex, Tag, Holds, IsVictim;
    var block := Block(opt, pc);
    var tag := Tag(opt, block);
    ghost var s := SetIndex(opt, block);
    if opt.repl != Random { HeldIffHit(opt, trace, lines, pc); }
    after := lines;
    var x := FindTag(lines, tag);
    hit := x < |lines|;
    if hit {
      HitStep(opt, trace, s, lines, pc, x);
      if opt.repl == Lru { after := lines[x := lines[x].(age := now)]; }
    } else {
      WaysOf(opt, trace, s, lines);
      var v := ChooseVictim(opt, lines);
      MissStep(opt, trace, s, lines, pc, v);
      VictimBound(opt.repl != Random, lines, v);
      after := lines[v := Line(true, tag, now)];
    }
  }

  lemma VictimBound(byAge: bool, lines: seq<Line>, v: nat)
    requires IsVictim(byAge, lines, v)
    ensures v < |lines|
  {
  }

  class Simulator {
    const opt: Options
    var cache: seq<seq<Line>>
    var stats: Stats
    var now: nat
    /** The accesses so far. */
    ghost var trace: seq<Address>

    ghost predicate Valid()
      reads this
    {
      && |cache| == opt.sets && now == |trace|
      && (forall s :: 0 <= s < |cache| ==> SetOk(opt, trace, s, cache[s]) && PolicyOk(opt, trace, s, cache[s]))
      && stats.accesses == |trace| && stats.hits + stats.misses == stats.accesses
      && stats.cacheable + stats.uncacheable == stats.accesses
      && (opt.repl != Random ==> stats.hits == HitCount(opt, trace))
    }

    constructor (opt: Options)
      ensures Valid() && this.opt == opt && trace == []
    {
      this.opt := opt;
      cache := seq(opt.sets, _ => seq(opt.ways, _ => Line(false, 0, 0)));
      stats := Stats(0, 0, 0, 0, 0);
      now := 0;
      trace := [];
    }

    /** access_cache. */
    method Access(pc: Address) returns (hit: bool)
      requires Valid()
      modifies this
      ensures Valid() && trace == old(trace) + [pc]
      ensures stats.hits == old(stats.hits) + (if hit then 1 else 0)
      ensures stats.cacheable == old(stats.cacheable) + (if Cacheable(opt, pc) then 1 else 0)
      ensures opt.repl != Random ==> (hit <==> HitAt(opt, old(trace), pc))
    {
      hide SetOk, PolicyOk, HitAt, HitCount, Block, SetIndex;
      ghost var before := trace;
      now := now + 1;
      trace := trace + [pc];
      HitCountStep(opt, before, pc);
      stats := stats.(accesses := stats.accesses + 1);
      if !Cacheable(opt, pc) {
        OtherSets(opt, before, cache, pc, opt.sets);
        stats := stats.(uncacheable := stats.uncacheable + 1, misses := stats.misses + 1);
        return false;
      }
      stats := stats.(cacheable := stats.cacheable + 1);
      var set' := SetIndex(opt, Block(opt, pc));
      OtherSets(opt, before, cache, pc, set');
      var lines;
      hit, lines := AccessSet(opt, before, cache[set'], pc, now);
      cache := cache[set' := lines];
      stats := if hit then stats.(hits := stats.hits + 1) else stats.(misses := stats.misses + 1);
    }

    /** The loop over the trace file. */
    method Run(pcs: seq<Address>)
      requires Valid()
      modifies this
      ensures Valid() && trace == old(trace) + pcs
    {
      hide Valid;
      var i := 0;
      while i < |pcs|
        invariant 0 <= i <= |pcs| && Valid() && trace == old(trace) + pcs[..i]
      {
        var hit := Access(pcs[i]);
        assert pcs[..i + 1] == pcs[..i] + [pcs[i]];
        i := i + 1;
      }
      assert pcs[..i] == pcs;
    }
  }

  lemma WaysOf(opt: Options, trace: seq<Address>, s: nat, lines: seq<Line>)
    requires SetOk(opt, trace, s, lines)
    ensures |lines| == opt.ways
  {
  }

  lemma HitCountStep(opt: Options, trace: seq<Address>, pc: Address)
    ensures HitCount(opt, trace + [pc]) == HitCount(opt, trace) + if HitAt(opt, trace, pc) then 1 else 0
    ensures !Cacheable(opt, pc) ==> !HitAt(opt, trace, pc)
  {
    assert (trace + [pc])[..|trace|] == trace;
  }

  lemma OtherSets(opt: Options, trace: seq<Address>, cache: seq<seq<Line>>, pc: Address, s: nat)
    requires forall t :: 0 <= t < |cache| ==> SetOk(opt, trace, t, cache[t]) && PolicyOk(opt, trace, t, cache[t])
    requires Cacheable(opt, pc) ==> s == SetIndex(opt, Block(opt, pc))
    ensures forall t :: 0 <= t < |cache| && (Cacheable(opt, pc) ==> t != s) ==>
              SetOk(opt, trace + [pc], t, cache[t]) && PolicyOk(opt, trace + [pc], t, cache[t])
  {
    forall t | 0 <= t < |cache| && (Cacheable(opt, pc) ==> t != s)
      ensures SetOk(opt, trace + [pc], t, cache[t]) && PolicyOk(opt, trace + [pc], t, cache[t])
    {
      OtherSet(opt, trace, t, cache[t], pc);
    }
  }

  /** On one trace, LRU with more ways reports no fewer hits. */
  lemma MoreWaysReportMoreHits(narrow: Simulator, wide: Simulator)
    requires narrow.Valid() && wide.Valid() && narrow.trace == wide.trace
    requires narrow.opt.repl == Lru && narrow.opt.ways <= wide.opt.ways
    requires wide.opt == narrow.opt.(ways := wide.opt.ways)
    ensures narrow.stats.hits <= wide.stats.hits && wide.stats.misses <= narrow.stats.misses
  {
    MoreWaysMoreHits(narrow.opt, wide.opt.ways, narrow.trace);
  }
}
