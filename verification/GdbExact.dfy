/** Exactly which payloads survive send_packet followed by recv_packet (nemu/tools/qemu-diff/src/protocol.c). */
module GdbExact {
  import opened Gdb
  import opened GdbPacket

  /** Position q of the payload is past its end or holds something other than a '*'. */
  predicate NotStar(p: seq<Byte>, q: nat) { q >= |p| || p[q] != RUN }

  /** The decoder has put out less than it has read, and what it would have to catch up with is not all '*'. */
  ghost predicate Behind(p: seq<Byte>, k: nat, out: seq<Byte>)
  {
    |out| < k && exists q: nat :: |out| <= q + 1 && q <= k && NotStar(p, q)
  }

  /** It has put out more, and only '*'. */
  ghost predicate Ahead(k: nat, out: seq<Byte>) { |out| > k + 1 && forall i :: 0 <= i < |out| ==> out[i] == RUN }

  /** What was put out differs from the payload already, or can no longer meet it. */
  ghost predicate Lost(p: seq<Byte>, k: nat, out: seq<Byte>) { out <= p ==> Behind(p, k, out) || Ahead(k, out) }

  lemma BehindAt(p: seq<Byte>, k: nat, out: seq<Byte>, q: nat)
    requires |out| < k && |out| <= q + 1 && q <= k && NotStar(p, q)
    ensures Behind(p, k, out)
  {
  }

  /** What is read at k repeats the byte before. */
  predicate RunAt(p: seq<Byte>, k: nat, out: seq<Byte>)
  {
    k + 1 < |p| && p[k] == RUN && |out| > 0 && IsCount(p[k + 1])
  }

  /** Ahead, the next byte starts another run of '*'. */
  lemma AheadRuns(p: seq<Byte>, k: nat, out: seq<Byte>)
    requires out <= p && Ahead(k, out)
    ensures RunAt(p, k, out) && p[k + 1] == RUN
  {
    assert out[k] == p[k] && out[k + 1] == p[k + 1];
  }

  lemma NotAhead(p: seq<Byte>, k: nat, out: seq<Byte>)
    requires out <= p && !RunAt(p, k, out)
    ensures !Ahead(k, out)
  {
    assert k + 1 < |out| ==> out[k] == p[k] && out[k + 1] == p[k + 1];
  }

  lemma LostLiteral(p: seq<Byte>, k: nat, out: seq<Byte>, c: Byte)
    requires k < |p| && Lost(p, k, out) && !RunAt(p, k, out)
    ensures Lost(p, k + 1, out + [c])
  {
    if out + [c] <= p {
      assert out <= p;
      NotAhead(p, k, out);
      var q: nat :| |out| <= q + 1 && q <= k && NotStar(p, q);
      if q >= |out| {
        BehindAt(p, k + 1, out + [c], q);
      } else if NotStar(p, k) {
        BehindAt(p, k + 1, out + [c], k);
      } else {
        assert !(k + 1 < |p|) || p[k + 1] != RUN;
        BehindAt(p, k + 1, out + [c], k + 1);
      }
    }
  }

  lemma NoStarAhead(p: seq<Byte>, k: nat, out: seq<Byte>)
    requires out <= p && k < |p| && p[k] != RUN
    ensures !Ahead(k, out)
  {
    assert k < |out| ==> out[k] == p[k];
  }

  lemma LostMark(p: seq<Byte>, k: nat, out: seq<Byte>)
    requires k < |p| && p[k] != RUN && (Lost(p, k, out) || out == p[..k] || out == [])
    ensures Lost(p, k + 1, out)
  {
    if out <= p {
      NoStarAhead(p, k, out);
      if |out| <= k { BehindAt(p, k + 1, out, k); }
    }
  }

  /** A stretch of copies. */
  lemma Copies(p: seq<Byte>, out: seq<Byte>, z: Byte, n: nat, i: nat)
    requires out + Repeat(z, n) <= p
    ensures |out| <= i < |out| + n ==> i < |p| && p[i] == z
  {
    assert |out| <= i < |out| + n ==> (out + Repeat(z, n))[i] == z;
  }

  /** A run that made up for everything would be of '*' over all of the gap. */
  lemma LostRun(p: seq<Byte>, k: nat, out: seq<Byte>)
    requires Lost(p, k, out) && RunAt(p, k, out)
    ensures Lost(p, k + 2, out + Repeat(out[|out| - 1], p[k + 1] - 29))
  {
    var z, n: nat := out[|out| - 1], p[k + 1] - 29;
    var after := out + Repeat(z, n);
    if after <= p {
      assert out <= p && p[|out| - 1] == z;
      if Behind(p, k, out) { BehindRun(p, k, out, z, n); } else { AheadRun(p, k, out, z, n); }
    }
  }

  lemma AheadRun(p: seq<Byte>, k: nat, out: seq<Byte>, z: Byte, n: nat)
    requires out <= p && Ahead(k, out) && z == out[|out| - 1] && k + 1 < |p| && n + 29 == p[k + 1]
    ensures Ahead(k + 2, out + Repeat(z, n))
  {
    AheadRuns(p, k, out);
  }

  /** Copies that reached past the run would be of '*', 13 of them, over all of the gap. */
  lemma NoCatchingUp(p: seq<Byte>, k: nat, out: seq<Byte>, z: Byte, n: nat, q: nat)
    requires 0 < |out| < k && k + 1 < |p| && p[k] == RUN && n + 29 == p[k + 1]
    requires out + Repeat(z, n) <= p && p[|out| - 1] == z
    requires |out| <= q + 1 && q <= k && NotStar(p, q)
    ensures |out| + n < k + 2
  {
    Copies(p, out, z, n, k);
    Copies(p, out, z, n, k + 1);
    Copies(p, out, z, n, q);
  }

  lemma BehindRun(p: seq<Byte>, k: nat, out: seq<Byte>, z: Byte, n: nat)
    requires Behind(p, k, out) && k + 1 < |p| && p[k] == RUN && n + 29 == p[k + 1]
    requires |out| > 0 && out + Repeat(z, n) <= p && p[|out| - 1] == z
    ensures Behind(p, k + 2, out + Repeat(z, n))
  {
    var after := out + Repeat(z, n);
    var q: nat :| |out| <= q + 1 && q <= k && NotStar(p, q);
    NoCatchingUp(p, k, out, z, n, q);
    if p[k + 1] != RUN {
      BehindAt(p, k + 2, after, k + 1);
    } else if z != RUN {
      Copies(p, out, z, n, |after| - 1);
      BehindAt(p, k + 2, after, |after| - 1);
    } else {
      Copies(p, out, z, n, q);
      BehindAt(p, k + 2, after, q);
    }
  }

  /** At the end of the packet it is too late. */
  lemma LostEnd(p: seq<Byte>, k: nat, out: seq<Byte>)
    requires k <= |p| && Lost(p, k, out) && (k < |p| ==> p[k] != RUN)
    ensures out != p
  {
  }

  /** What the decoder reads next does not help. */
  lemma LostStep(p: seq<Byte>, k: nat, pr: Progress, tail: seq<Byte>) returns (j: nat, next: Progress)
    requires k < |p| && p[k] != END && Lost(p, k, pr.out) && tail != [] && tail[0] == END
    ensures k < j <= |p| && Lost(p, j, next.out) && Parse(p[k..] + tail, pr) == Parse(p[j..] + tail, next)
  {
    hide Parse, AddByte, Lost, IsCount, Flip, Repeat;
    var s := p[k..] + tail;
    Rest(p, k, tail);
    if s[0] == START || s[0] == ESCAPE {
      ParseMark(s, pr);
      j, next := k + 1, if s[0] == START then FRESH else Progress(pr.out, AddByte(pr.sum, s[0]), true);
      LostMark(p, k, next.out);
    } else if RunAt(p, k, pr.out) {
      j, next := LostAtRun(p, k, pr, tail);
    } else {
      EndIsNoCount();
      ParseLiteral(s, pr);
      var c := if pr.escape then Flip(s[0]) else s[0];
      LostLiteral(p, k, pr.out, c);
      j, next := k + 1, Progress(pr.out + [c], AddByte(pr.sum, s[0]), false);
    }
  }

  lemma LostAtRun(p: seq<Byte>, k: nat, pr: Progress, tail: seq<Byte>) returns (j: nat, next: Progress)
    requires Lost(p, k, pr.out) && RunAt(p, k, pr.out) && tail != []
    ensures k < j <= |p| && Lost(p, j, next.out) && Parse(p[k..] + tail, pr) == Parse(p[j..] + tail, next)
  {
    hide Parse, AddByte, Lost, IsCount, Repeat;
    var s := p[k..] + tail;
    Rest(p, k, tail);
    CountBound(s[1]);
    ParseRun(s, pr);
    LostRun(p, k, pr.out);
    var out := pr.out + Repeat(pr.out[|pr.out| - 1], s[1] - 29);
    j, next := k + 2, Progress(out, AddByte(AddByte(pr.sum, s[0]), s[1]), pr.escape);
  }

  /** From such a state the payload is never received. */
  lemma {:induction false} LostForever(p: seq<Byte>, k: nat, pr: Progress, tail: seq<Byte>)
    requires k <= |p| && Lost(p, k, pr.out) && tail != [] && tail[0] == END
    ensures var r := Parse(p[k..] + tail, pr); r.Packet? && r.payload != p
    decreases |p| - k
  {
    hide Parse, Lost;
    Rest(p, k, tail);
    if k == |p| || p[k] == END {
      ParseEnd(p[k..] + tail, pr);
      LostEnd(p, k, pr.out);
    } else {
      var j, next := LostStep(p, k, pr, tail);
      LostForever(p, j, next, tail);
    }
  }

  lemma EndIsNoCount()
    ensures !IsCount(END)
  {
  }

  lemma Rest(p: seq<Byte>, k: nat, tail: seq<Byte>)
    requires k <= |p| && tail != []
    ensures var s := p[k..] + tail;
            && s != [] && s[0] == (if k < |p| then p[k] else tail[0])
            && (k < |p| ==> s[1..] == p[k + 1..] + tail && |s| > 1 && s[1] == if k + 1 < |p| then p[k + 1] else tail[0])
            && (k + 1 < |p| ==> s[2..] == p[k + 2..] + tail)
  {
  }

  /** Up to the first byte that does not mean itself the decoder keeps level; from there on it is lost. */
  lemma {:induction false} NotLiteral(p: seq<Byte>, k: nat, i: nat, tail: seq<Byte>)
    requires k <= i < |p| && !Literal(p, i) && tail != [] && tail[0] == END
    requires forall j: nat :: j < i ==> Literal(p, j)
    ensures var r := Parse(p[k..] + tail, Progress(p[..k], Sum(p[..k]), false)); r.Packet? && r.payload != p
    decreases i - k
  {
    hide Parse, AddByte, Lost, IsCount, Flip, Repeat;
    var s, pr := p[k..] + tail, Progress(p[..k], Sum(p[..k]), false);
    Rest(p, k, tail);
    if k < i {
      EndIsNoCount();
      assert Literal(p, k);
      ParseLiteral(s, pr);
      assert p[..k + 1] == p[..k] + [p[k]] && p[..k + 1][..k] == p[..k];
      NotLiteral(p, k + 1, i, tail);
    } else {
      FirstNotLiteral(p, k, tail);
    }
  }

  lemma FirstNotLiteral(p: seq<Byte>, k: nat, tail: seq<Byte>)
    requires k < |p| && !Literal(p, k) && tail != [] && tail[0] == END && forall j: nat :: j < k ==> Literal(p, j)
    ensures var r := Parse(p[k..] + tail, Progress(p[..k], Sum(p[..k]), false)); r.Packet? && r.payload != p
  {
    hide Parse, AddByte, Lost, Flip;
    var s, pr := p[k..] + tail, Progress(p[..k], Sum(p[..k]), false);
    Rest(p, k, tail);
    if p[k] == END {
      ParseEnd(s, pr);
    } else if p[k] == START || p[k] == ESCAPE {
      ParseMark(s, pr);
      var next := if s[0] == START then FRESH else Progress(pr.out, AddByte(pr.sum, s[0]), true);
      LostMark(p, k, next.out);
      LostForever(p, k + 1, next, tail);
    } else {
      ParseRun(s, pr);
      FirstRun(p, k);
      var out := p[..k] + Repeat(p[k - 1], p[k + 1] - 29);
      LostForever(p, k + 2, Progress(out, AddByte(AddByte(pr.sum, s[0]), s[1]), false), tail);
    }
  }

  /** The first run falls behind, or is of '*' from the start and runs ahead. */
  lemma FirstRun(p: seq<Byte>, k: nat)
    requires 0 < k && k + 1 < |p| && p[k] == RUN && IsCount(p[k + 1]) && Literal(p, k - 1)
    ensures Lost(p, k + 2, p[..k] + Repeat(p[k - 1], p[k + 1] - 29))
  {
    var z, n: nat := p[k - 1], p[k + 1] - 29;
    var out := p[..k] + Repeat(z, n);
    if out <= p {
      if n <= 1 {
        BehindAt(p, k + 2, out, k + 1);
      } else {
        Copies(p, p[..k], z, n, k);
        Copies(p, p[..k], z, n, k + 1);
        assert z == RUN && n == 13 && k == 1;
        assert forall i :: 0 <= i < |out| ==> out[i] == RUN;
      }
    }
  }

  /** recv_packet returns what send_packet wrote exactly if every byte of it means itself. */
  lemma SendThenReceiveExact(p: seq<Byte>)
    ensures Receive([START] + (p + Trailer(Sum(p)))) == Packet(p, true) <==> forall i: nat :: i < |p| ==> Literal(p, i)
  {
    hide Parse, Receive, Literal;
    if forall i: nat :: i < |p| ==> Literal(p, i) {
      SendThenReceive(p);
    } else {
      var i := FirstOdd(p, |p|);
      var t := Trailer(Sum(p));
      assert [] + [START] + (p + t) == [START] + (p + t);
      SkipJunk([], p + t);
      NotLiteral(p, 0, i, t);
      assert p[0..] == p && p[..0] == [];
    }
  }

  lemma {:induction false} FirstOdd(p: seq<Byte>, n: nat) returns (i: nat)
    requires n <= |p| && exists j: nat :: j < n && !Literal(p, j)
    ensures i < n && !Literal(p, i) && forall j: nat :: j < i ==> Literal(p, j)
    decreases n
  {
    if j: nat :| j < n - 1 && !Literal(p, j) {
      i := FirstOdd(p, n - 1);
    } else {
      i := n - 1;
    }
  }
}
