/** What the cache simulator should report for a trace, stated on the trace alone (npc/tools/cachesim/cachesim.cpp). */
module CacheTrace {
  import opened Arithmetic

  type Address = x: int | 0 <= x < 0x1_0000_0000

  datatype Region = Sdram | Flash | Psram | AllRegions

  datatype Policy = Fifo | Lru | Random

  datatype OptionsData = OptionsData(sets: nat, ways: nat, lineSize: nat, region: Region, repl: Policy)

  /** What parse_args accepts and access_cache needs. */
  type Options = o: OptionsData | o.sets > 0 && o.ways > 0 && o.lineSize > 0 witness OptionsData(1, 1, 1, Sdram, Fifo)

  predicate Cacheable(opt: Options, addr: Address)
  {
    match opt.region
    case AllRegions => addr / 0x1000_0000 == 3 || addr / 0x2000_0000 == 4 || addr / 0x2000_0000 == 5
    case Flash => addr / 0x1000_0000 == 3
    case Psram => addr / 0x2000_0000 == 4
    case Sdram => addr / 0x2000_0000 == 5
  }

  /** The regions as address ranges; `all` is their union. */
  lemma CacheableRanges(opt: Options, addr: Address)
    ensures Cacheable(opt.(region := Flash), addr) <==> 0x3000_0000 <= addr < 0x4000_0000
    ensures Cacheable(opt.(region := Psram), addr) <==> 0x8000_0000 <= addr < 0xa000_0000
    ensures Cacheable(opt.(region := Sdram), addr) <==> 0xa000_0000 <= addr < 0xc000_0000
    ensures Cacheable(opt.(region := AllRegions), addr) <==>
              exists r: Region :: r != AllRegions && Cacheable(opt.(region := r), addr)
  {
    if addr / 0x1000_0000 == 3 { assert Cacheable(opt.(region := Flash), addr); }
    if addr / 0x2000_0000 == 4 { assert Cacheable(opt.(region := Psram), addr); }
    if addr / 0x2000_0000 == 5 { assert Cacheable(opt.(region := Sdram), addr); }
  }

  function Block(opt: Options, pc: Address): nat { pc / opt.lineSize }

  /** Line k is the aligned range of addresses from k * lineSize on. */
  predicate InLine(opt: Options, pc: Address, k: nat) { k * opt.lineSize <= pc < (k + 1) * opt.lineSize }

  lemma BlockIsLine(opt: Options, pc: Address, k: nat)
    ensures Block(opt, pc) == k <==> InLine(opt, pc, k)
  {
    var q := pc / opt.lineSize;
    assert q * opt.lineSize <= pc < (q + 1) * opt.lineSize;
    if q < k {
      assert (q + 1) * opt.lineSize <= k * opt.lineSize;
    } else if k < q {
      assert (k + 1) * opt.lineSize <= q * opt.lineSize;
    }
  }

  /** Two addresses share a block exactly if they lie in one aligned line. */
  lemma BlocksAreLines(opt: Options, p: Address, q: Address)
    ensures Block(opt, p) == Block(opt, q) <==> exists k: nat :: InLine(opt, p, k) && InLine(opt, q, k)
  {
    BlockIsLine(opt, p, Block(opt, p));
    BlockIsLine(opt, q, Block(opt, p));
    if k: nat :| InLine(opt, p, k) && InLine(opt, q, k) {
      BlockIsLine(opt, p, k);
      BlockIsLine(opt, q, k);
    }
  }

  function SetIndex(opt: Options, b: nat): (s: nat)
    ensures s < opt.sets
  {
    b % opt.sets
  }

  function Tag(opt: Options, b: nat): nat { b / opt.sets }

  /** Set and tag together identify a block. */
  lemma SameBlock(opt: Options, b: nat, c: nat)
    requires SetIndex(opt, b) == SetIndex(opt, c) && Tag(opt, b) == Tag(opt, c)
    ensures b == c
  {
  }

  /** Any `sets` consecutive lines go to pairwise different sets, starting with set 0 for line 0, and the line after
      them goes to the set of the first. */
  lemma SetsInTurn(opt: Options, b: nat, i: nat, j: nat)
    requires i < j < opt.sets
    ensures SetIndex(opt, b + i) != SetIndex(opt, b + j) && SetIndex(opt, b + opt.sets) == SetIndex(opt, b)
    ensures SetIndex(opt, i) == i && SetIndex(opt, j) == j
  {
    Apart(opt.sets, b + i, b + j);
    AddMultiple(opt.sets, 1, b);
    SmallMod(opt.sets, i);
    SmallMod(opt.sets, j);
  }

  lemma Apart(n: nat, x: nat, y: nat)
    requires x < y < x + n
    ensures x % n != y % n
  {
    var q, r := x / n, x % n + (y - x);
    if r < n { RemainderUnique(n, y, q, r); } else { RemainderUnique(n, y, q + 1, r - n); }
  }

  /** An access that goes to set s. */
  predicate Goes(opt: Options, pc: Address, s: nat) { Cacheable(opt, pc) && SetIndex(opt, Block(opt, pc)) == s }

  predicate Touches(opt: Options, pc: Address, b: nat) { Cacheable(opt, pc) && Block(opt, pc) == b }

  /** The other blocks of b's set accessed after position j. */
  ghost function OthersSince(opt: Options, trace: seq<Address>, j: nat, b: nat): set<nat>
  {
    set k | j < k < |trace| && Goes(opt, trace[k], SetIndex(opt, b)) && Block(opt, trace[k]) != b
          :: Block(opt, trace[k])
  }

  /** Under LRU an access to b hits: b was accessed, and fewer than `ways` other blocks of its set since. */
  ghost predicate LruHit(opt: Options, trace: seq<Address>, b: nat)
  {
    exists j: nat :: j < |trace| && Touches(opt, trace[j], b) && |OthersSince(opt, trace, j, b)| < opt.ways
  }

  /** The last n elements. */
  function Last(s: seq<nat>, n: nat): seq<nat> { if |s| <= n then s else s[|s| - n..] }

  /** The positions of the accesses that FIFO fills set s with. */
  ghost function Fills(opt: Options, trace: seq<Address>, s: nat): (f: seq<nat>)
    ensures forall i :: 0 <= i < |f| ==> f[i] < |trace| && Goes(opt, trace[f[i]], s)
    ensures forall i, j :: 0 <= i < j < |f| ==> f[i] < f[j]
    decreases |trace|, 0
  {
    if trace == [] then []
    else
      var n := |trace| - 1;
      var before, pc := Fills(opt, trace[..n], s), trace[n];
      if Goes(opt, pc, s) && !FifoHit(opt, trace[..n], Block(opt, pc)) then before + [n] else before
  }

  /** Under FIFO an access to b hits: b is one of the last `ways` blocks its set was filled with. */
  ghost predicate FifoHit(opt: Options, trace: seq<Address>, b: nat)
    decreases |trace|, 2
  {
    var last := LastFills(opt, trace, SetIndex(opt, b));
    exists i :: 0 <= i < |last| && Block(opt, trace[last[i]]) == b
  }

  ghost function LastFills(opt: Options, trace: seq<Address>, s: nat): (last: seq<nat>)
    ensures forall i :: 0 <= i < |last| ==> last[i] < |trace|
    ensures forall i :: 0 <= i < |last| ==> last[0] <= last[i]
    decreases |trace|, 1
  {
    Last(Fills(opt, trace, s), opt.ways)
  }

  ghost predicate HitAt(opt: Options, trace: seq<Address>, pc: Address)
  {
    var b := Block(opt, pc);
    Cacheable(opt, pc) && if opt.repl == Lru then LruHit(opt, trace, b) else FifoHit(opt, trace, b)
  }

  /** The number of hits of a whole trace. */
  ghost function HitCount(opt: Options, trace: seq<Address>): nat
  {
    if trace == [] then 0
    else
      var n := |trace| - 1;
      HitCount(opt, trace[..n]) + if HitAt(opt, trace[..n], trace[n]) then 1 else 0
  }

  /** LRU has the inclusion property: a hit with some number of ways is a hit with more. */
  lemma LruInclusion(opt: Options, more: nat, trace: seq<Address>, b: nat)
    requires opt.ways <= more && LruHit(opt, trace, b)
    ensures LruHit(opt.(ways := more), trace, b)
  {
    var j: nat :| j < |trace| && Touches(opt, trace[j], b) && |OthersSince(opt, trace, j, b)| < opt.ways;
    assert OthersSince(opt.(ways := more), trace, j, b) == OthersSince(opt, trace, j, b);
    assert Touches(opt.(ways := more), trace[j], b);
  }

  /** So on no trace do more ways lose hits. */
  lemma {:induction false} MoreWaysMoreHits(opt: Options, more: nat, trace: seq<Address>)
    requires opt.ways <= more && opt.repl == Lru
    ensures HitCount(opt, trace) <= HitCount(opt.(ways := more), trace)
  {
    if trace != [] {
      var n := |trace| - 1;
      MoreWaysMoreHits(opt, more, trace[..n]);
      if HitAt(opt, trace[..n], trace[n]) { LruInclusion(opt, more, trace[..n], Block(opt, trace[n])); }
    }
  }
}
