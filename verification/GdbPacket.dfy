/** Sending and receiving packets (nemu/tools/qemu-diff/src/protocol.c). */
module GdbPacket {
  import opened Arithmetic
  import opened Bits
  import opened Gdb

  /** c ^ 0x20. */
  function Flip(c: Byte): Byte { if c / 32 % 2 == 0 then c + 32 else c - 32 }

  lemma FlipIsXor(c: Byte)
    ensures Flip(c) == BitXor(c, 0x20)
  {
    XorPower(c, 5);
    assert Pow2(1) == 2 && Pow2(2) == 4 && Pow2(3) == 8 && Pow2(4) == 16 && Pow2(5) == 32;
    Split(c, 5);
    assert c / 32 == Shr(c, 5);
  }

  lemma FlipTwice(c: Byte)
    ensures Flip(Flip(c)) == c
  {
  }

  predicate IsSpecial(c: Byte) { c == START || c == END || c == ESCAPE || c == RUN }

  /** The characters that can be a repeat count. */
  predicate IsCount(c: Byte) { 29 <= c <= 126 && c != START && c != END }

  function Repeat(c: Byte, n: nat): seq<Byte> { seq(n, _ => c) }

  /** Addition of uint8_t. */
  function AddByte(a: Byte, b: Byte): Byte { (a + b) % 256 }

  /** The sum of the bytes, modulo 256. */
  function Sum(s: seq<Byte>): Byte { if s == [] then 0 else AddByte(Sum(s[..|s| - 1]), s[|s| - 1]) }

  function Total(s: seq<Byte>): nat { if s == [] then 0 else s[0] + Total(s[1..]) }

  lemma {:induction false} TotalLast(s: seq<Byte>, b: Byte)
    ensures Total(s + [b]) == Total(s) + b
    decreases |s|
  {
    if s != [] {
      TotalLast(s[1..], b);
      assert (s + [b])[1..] == s[1..] + [b];
    }
  }

  /** The checksum is the integer sum of the bytes modulo 256. */
  lemma {:induction false} SumIsTotal(s: seq<Byte>)
    ensures Sum(s) == Total(s) % 256
    decreases |s|
  {
    if s != [] {
      var t, b := s[..|s| - 1], s[|s| - 1];
      SumIsTotal(t);
      TotalLast(t, b);
      assert s == t + [b];
      AddModLeft(256, Total(t), b);
    }
  }

  lemma {:induction false} SumConcat(s: seq<Byte>, t: seq<Byte>)
    ensures Sum(s + t) == AddByte(Sum(s), Sum(t))
    decreases |t|
  {
    if t == [] {
      assert s + t == s;
    } else {
      var u, c := t[..|t| - 1], t[|t| - 1];
      assert (s + t)[..|s + t| - 1] == s + u && (s + t)[|s + t| - 1] == c;
      SumConcat(s, u);
      SumAssociates(Sum(s), Sum(u), c);
    }
  }

  lemma SumAssociates(a: Byte, b: Byte, c: Byte)
    ensures AddByte(AddByte(a, b), c) == AddByte(a, AddByte(b, c))
  {
  }

  // ----- receiving -----

  /** What the loop of recv_packet carries: the bytes so far, the checksum and whether the next byte is escaped. */
  datatype Progress = Progress(out: seq<Byte>, sum: Byte, escape: bool)

  const FRESH: Progress := Progress([], 0, false)

  /** A packet, or the end of the stream. */
  datatype Reply = Closed | Packet(payload: seq<Byte>, sumOk: bool)

  function ByteAt(s: seq<Byte>, i: nat): Byte { if i < |s| then s[i] else 255 }

  /** What the rest of the stream makes of the progress. */
  function Parse(s: seq<Byte>, p: Progress): Reply
    decreases |s|
  {
    if s == [] then Closed
    else
      var c := s[0];
      var sum := AddByte(p.sum, c);
      if c == START then Parse(s[1..], FRESH)
      else if c == END then Packet(p.out, p.sum == DecodeHex(ByteAt(s, 1), ByteAt(s, 2)))
      else if c == ESCAPE then Parse(s[1..], Progress(p.out, sum, true))
      else if c == RUN && |p.out| > 0 && |s| > 1 && IsCount(s[1]) then
        var repeated := Repeat(p.out[|p.out| - 1], s[1] - 29);
        Parse(s[2..], Progress(p.out + repeated, AddByte(sum, s[1]), p.escape))
      else Parse(s[1..], Progress(p.out + [if p.escape then Flip(c) else c], sum, false))
  }

  /** Everything up to the first start of a packet is skipped. */
  function Receive(s: seq<Byte>): Reply
  {
    if s == [] then Closed else if s[0] == START then Parse(s[1..], FRESH) else Receive(s[1..])
  }

  lemma ParseEnd(s: seq<Byte>, p: Progress)
    requires s != [] && s[0] == END
    ensures Parse(s, p) == Packet(p.out, p.sum == DecodeHex(ByteAt(s, 1), ByteAt(s, 2)))
  {
    hide Flip, IsCount, Repeat, DecodeHex, AddByte, ByteAt;
  }

  lemma ParseMark(s: seq<Byte>, p: Progress)
    requires s != [] && (s[0] == START || s[0] == ESCAPE)
    ensures Parse(s, p) == Parse(s[1..], if s[0] == START then FRESH else Progress(p.out, AddByte(p.sum, s[0]), true))
  {
    hide Flip, IsCount, Repeat, DecodeHex, AddByte, ByteAt;
  }

  lemma ParseRun(s: seq<Byte>, p: Progress)
    requires |s| > 1 && s[0] == RUN && |p.out| > 0 && IsCount(s[1])
    ensures Parse(s, p) == Parse(s[2..], Progress(p.out + Repeat(p.out[|p.out| - 1], s[1] - 29),
                                                  AddByte(AddByte(p.sum, s[0]), s[1]), p.escape))
  {
    hide Flip, IsCount, Repeat, DecodeHex, AddByte, ByteAt;
  }

  lemma ParseLiteral(s: seq<Byte>, p: Progress)
    requires s != [] && s[0] != START && s[0] != END && s[0] != ESCAPE
    requires !(s[0] == RUN && |p.out| > 0 && |s| > 1 && IsCount(s[1]))
    ensures var c := if p.escape then Flip(s[0]) else s[0];
            Parse(s, p) == Parse(s[1..], Progress(p.out + [c], AddByte(p.sum, s[0]), false))
  {
    hide Flip, IsCount, Repeat, DecodeHex, AddByte, ByteAt;
  }

  /** realloc. */
  method Grow(reply: array<Byte>, size: nat) returns (bigger: array<Byte>)
    requires size >= reply.Length
    ensures fresh(bigger) && bigger.Length == size && bigger[..reply.Length] == reply[..]
  {
    bigger := new Byte[size](_ => 0);
    var i := 0;
    while i < reply.Length
      invariant 0 <= i <= reply.Length && forall j :: 0 <= j < i ==> bigger[j] == reply[j]
    {
      bigger[i] := reply[i];
      i := i + 1;
    }
  }

  /** memset(&reply[i], c, count). */
  method Fill(reply: array<Byte>, i: nat, c: Byte, count: nat)
    requires i + count <= reply.Length
    modifies reply
    ensures reply[..i] == old(reply[..i]) && reply[..i + count] == old(reply[..i]) + Repeat(c, count)
  {
    var k := 0;
    while k < count
      invariant 0 <= k <= count && reply[..i + k] == old(reply[..i]) + Repeat(c, k)
    {
      reply[i + k] := c;
      k := k + 1;
      assert reply[..i + k] == reply[..i + (k - 1)] + [c];
    }
    assert reply[..i] == reply[..i + count][..i];
  }

  /** The first loop of recv_packet: the position after the first start of a packet. */
  method SkipToStart(input: seq<Byte>) returns (found: bool, pos: nat)
    ensures pos <= |input|
    ensures Receive(input) == if found then Parse(input[pos..], FRESH) else Closed
  {
    pos := 0;
    assert input[0..] == input;
    while pos < |input| && input[pos] != START
      invariant 0 <= pos <= |input| && Receive(input[pos..]) == Receive(input)
    {
      assert input[pos..][1..] == input[pos + 1..];
      pos := pos + 1;
    }
    found := pos < |input|;
    if found {
      assert input[pos..][1..] == input[pos + 1..];
      pos := pos + 1;
    }
  }

  /** A buffer with room for n more bytes after the first i. */
  method Reserve(reply: array<Byte>, i: nat, n: nat) returns (r: array<Byte>)
    requires i <= reply.Length && n <= 97 && reply.Length >= 4096
    ensures r == reply || fresh(r)
    ensures i + n <= r.Length && r.Length >= 4096 && r[..i] == reply[..i]
  {
    r := reply;
    if i + n > reply.Length {
      r := Grow(reply, reply.Length * 2);
      assert r[..i] == r[..reply.Length][..i];
    }
  }

  /** One more byte. */
  method Append(reply: array<Byte>, i: nat, c: Byte) returns (r: array<Byte>)
    requires i <= reply.Length && reply.Length >= 4096
    modifies reply
    ensures r == reply || fresh(r)
    ensures i + 1 <= r.Length && r.Length >= 4096 && r[..i + 1] == old(reply[..i]) + [c]
  {
    r := Reserve(reply, i, 1);
    r[i] := c;
    assert r[..i + 1] == r[..i] + [c];
  }

  /** The last byte n more times. */
  method AppendRun(reply: array<Byte>, i: nat, n: nat) returns (r: array<Byte>)
    requires 0 < i <= reply.Length && n <= 97 && reply.Length >= 4096
    modifies reply
    ensures r == reply || fresh(r)
    ensures i + n <= r.Length && r.Length >= 4096
    ensures r[..i + n] == old(reply[..i]) + Repeat(old(reply[i - 1]), n)
  {
    r := Reserve(reply, i, n);
    assert r[i - 1] == r[..i][i - 1] == reply[..i][i - 1];
    Fill(r, i, r[i - 1], n);
  }

  /** recv_packet: it computes Receive, and i never exceeds the size of the buffer. */
  method RecvPacket(input: seq<Byte>) returns (r: Reply)
    ensures r == Receive(input)
  {
    hide Parse, Receive, Flip, DecodeHex, IsCount, AddByte;
    var found, pos := SkipToStart(input);
    if !found { return Closed; }
    var reply := new Byte[4096](_ => 0);
    var i, sum: Byte, escape := 0, 0, false;
    assert reply[..0] == [];
    while pos < |input|
      invariant 0 <= pos <= |input| && 0 <= i <= reply.Length && reply.Length >= 4096 && fresh(reply)
      invariant Parse(input[pos..], Progress(reply[..i], sum, escape)) == Receive(input)
      decreases |input| - pos
    {
      ghost var s, p := input[pos..], Progress(reply[..i], sum, escape);
      var c := input[pos];
      Dropped(input, pos);
      pos := pos + 1;
      if c == START {
        ParseMark(s, p);
        i, sum, escape := 0, 0, false;
        assert reply[..0] == [];
      } else if c == END {
        ParseEnd(s, p);
        var sumOk := sum == DecodeHex(ByteAt(input, pos), ByteAt(input, pos + 1));
        r := Packet(reply[..i], sumOk);
        if i == reply.Length { reply := Grow(reply, i + 1); }
        reply[i] := 0;
        return;
      } else if c == ESCAPE {
        ParseMark(s, p);
        sum, escape := AddByte(sum, c), true;
      } else if c == RUN && i > 0 && pos < |input| && IsCount(input[pos]) {
        ParseRun(s, p);
        CountBound(input[pos]);
        var count: nat := input[pos] - 29;
        reply := AppendRun(reply, i, count);
        i, sum, pos := i + count, AddByte(AddByte(sum, c), input[pos]), pos + 1;
      } else {
        ParseLiteral(s, p);
        reply := Append(reply, i, if escape then Flip(c) else c);
        i, sum, escape := i + 1, AddByte(sum, c), false;
      }
    }
    ParseNothing(input[pos..], Progress(reply[..i], sum, escape));
    r := Closed;
  }

  lemma Dropped(s: seq<Byte>, k: nat)
    requires k < |s|
    ensures s[k..] != [] && s[k..][0] == s[k] && s[k..][1..] == s[k + 1..]
    ensures ByteAt(s[k..], 1) == ByteAt(s, k + 1) && ByteAt(s[k..], 2) == ByteAt(s, k + 2)
    ensures k + 1 < |s| ==> |s[k..]| > 1 && s[k..][1] == s[k + 1] && s[k..][2..] == s[k + 2..]
    ensures k + 1 == |s| ==> |s[k..]| == 1
  {
  }

  lemma CountBound(c: Byte)
    requires IsCount(c)
    ensures 0 <= c - 29 <= 97
  {
  }

  lemma ParseNothing(s: seq<Byte>, p: Progress)
    requires s == []
    ensures Parse(s, p) == Closed
  {
  }

  // ----- encoded payloads -----

  /** A byte as it is, an escaped byte, or n repetitions of the byte before. */
  datatype Chunk = Raw(b: Byte) | Esc(b: Byte) | Run(n: nat)

  /** What may be sent after `out`. */
  predicate ChunkOk(c: Chunk, out: seq<Byte>)
  {
    match c
    case Raw(b) => !IsSpecial(b)
    case Esc(b) => !IsSpecial(Flip(b))
    case Run(n) => n <= 97 && 29 + n != START && 29 + n != END && |out| > 0
  }

  function Wire(c: Chunk): seq<Byte>
    requires c.Run? ==> c.n <= 97
  {
    match c
    case Raw(b) => [b]
    case Esc(b) => [ESCAPE, Flip(b)]
    case Run(n) => [RUN, 29 + n]
  }

  function Extend(out: seq<Byte>, c: Chunk): seq<Byte>
    requires ChunkOk(c, out)
  {
    match c
    case Raw(b) => out + [b]
    case Esc(b) => out + [b]
    case Run(n) => out + Repeat(out[|out| - 1], n)
  }

  predicate ChunksOk(cs: seq<Chunk>, out: seq<Byte>)
  {
    cs != [] ==> ChunkOk(cs[0], out) && ChunksOk(cs[1..], Extend(out, cs[0]))
  }

  /** The payload that chunks stand for, after `out`. */
  function Payload(cs: seq<Chunk>, out: seq<Byte>): seq<Byte>
    requires ChunksOk(cs, out)
  {
    if cs == [] then out else Payload(cs[1..], Extend(out, cs[0]))
  }

  function WireAll(cs: seq<Chunk>, out: seq<Byte>): seq<Byte>
    requires ChunksOk(cs, out)
  {
    if cs == [] then [] else Wire(cs[0]) + WireAll(cs[1..], Extend(out, cs[0]))
  }

  /** One chunk. */
  lemma ParseChunk(c: Chunk, p: Progress, tail: seq<Byte>)
    requires ChunkOk(c, p.out) && !p.escape
    ensures Parse(Wire(c) + tail, p) == Parse(tail, Progress(Extend(p.out, c), AddByte(p.sum, Sum(Wire(c))), false))
  {
    hide Parse, AddByte;
    var s := Wire(c) + tail;
    SumOfOne(s[0]);
    match c
    case Raw(b) =>
      ParseLiteral(s, p);
      assert s[1..] == tail;
    case Esc(b) =>
      FlipTwice(b);
      ParseMark(s, p);
      assert s[1..] == [Flip(b)] + tail && s[1..][1..] == tail;
      ParseLiteral(s[1..], Progress(p.out, AddByte(p.sum, ESCAPE), true));
      SumOfTwo(ESCAPE, Flip(b));
      SumAssociates(p.sum, ESCAPE, Flip(b));
    case Run(n) =>
      ParseRun(s, p);
      assert s[2..] == tail;
      SumOfTwo(RUN, 29 + n);
      SumAssociates(p.sum, RUN, 29 + n);
  }

  lemma SumOfOne(b: Byte)
    ensures Sum([b]) == b
  {
    assert [b][..0] == [];
  }

  lemma SumOfTwo(a: Byte, b: Byte)
    ensures Sum([a, b]) == AddByte(a, b)
  {
    assert [a, b][..1] == [a];
    SumOfOne(a);
  }

  lemma {:induction false} ParseChunks(cs: seq<Chunk>, p: Progress, tail: seq<Byte>)
    requires ChunksOk(cs, p.out) && !p.escape
    ensures Parse(WireAll(cs, p.out) + tail, p)
         == Parse(tail, Progress(Payload(cs, p.out), AddByte(p.sum, Sum(WireAll(cs, p.out))), false))
    decreases |cs|
  {
    hide Parse, AddByte, Wire, Extend;
    if cs == [] {
      AddNothing(p.sum);
      assert WireAll(cs, p.out) + tail == tail;
    } else {
      var w, rest := Wire(cs[0]), WireAll(cs[1..], Extend(p.out, cs[0]));
      assert (w + rest) + tail == w + (rest + tail);
      ParseChunk(cs[0], p, rest + tail);
      ParseChunks(cs[1..], Progress(Extend(p.out, cs[0]), AddByte(p.sum, Sum(w)), false), tail);
      SumConcat(w, rest);
      SumAssociates(p.sum, Sum(w), Sum(rest));
    }
  }

  lemma AddNothing(a: Byte)
    ensures AddByte(a, 0) == a && AddByte(0, a) == a && Sum([]) == 0
  {
  }

  /** The end of a packet: '#' and the checksum in hexadecimal. */
  function Trailer(sum: Byte): seq<Byte> { [END, UpperHex(sum / 16), UpperHex(sum % 16)] }

  lemma ParseTrailer(p: Progress, tail: seq<Byte>)
    ensures Parse(Trailer(p.sum) + tail, p) == Packet(p.out, true)
  {
    HexRoundTrip(p.sum);
    ParseEnd(Trailer(p.sum) + tail, p);
  }

  lemma {:induction false} SkipJunk(junk: seq<Byte>, s: seq<Byte>)
    requires START !in junk
    ensures Receive(junk + [START] + s) == Parse(s, FRESH)
    decreases |junk|
  {
    var all := junk + [START] + s;
    if junk == [] {
      assert all[0] == START && all[1..] == s;
    } else {
      assert all[0] == junk[0] && all[1..] == junk[1..] + [START] + s;
      SkipJunk(junk[1..], s);
    }
  }

  /** A start in the middle of a packet starts over, whatever marks stand before it. */
  lemma {:induction false} StartOver(noise: seq<Byte>, p: Progress, s: seq<Byte>)
    requires END !in noise
    ensures Parse(noise + [START] + s, p) == Parse(s, FRESH)
    decreases |noise|
  {
    hide Parse, AddByte, Flip, Repeat;
    var all := noise + [START] + s;
    if noise == [] {
      ParseMark(all, p);
      assert all[1..] == s;
    } else {
      var c := noise[0];
      assert all[0] == c && c != END && all[1..] == noise[1..] + [START] + s;
      if c == START || c == ESCAPE {
        ParseMark(all, p);
        StartOver(noise[1..], if c == START then FRESH else Progress(p.out, AddByte(p.sum, c), true), s);
      } else if c == RUN && |p.out| > 0 && IsCount(all[1]) {
        assert |noise| > 1 && all[2..] == noise[2..] + [START] + s;
        ParseRun(all, p);
        var out := p.out + Repeat(p.out[|p.out| - 1], all[1] - 29);
        StartOver(noise[2..], Progress(out, AddByte(AddByte(p.sum, c), all[1]), p.escape), s);
      } else {
        ParseLiteral(all, p);
        StartOver(noise[1..], Progress(p.out + [if p.escape then Flip(c) else c], AddByte(p.sum, c), false), s);
      }
    }
  }

  /** Whatever comes before, packets that were broken off included, and after: an encoded payload is received, and its
      checksum is accepted exactly if the two bytes behind it are digits of the sum of the bytes sent. */
  lemma ReceiveChecked(
    junk: seq<Byte>, noise: seq<Byte>, cs: seq<Chunk>, msb: Byte, lsb: Byte, tail: seq<Byte>)
    requires START !in junk && END !in noise && (noise != [] ==> noise[0] == START) && ChunksOk(cs, [])
    ensures var w := WireAll(cs, []);
            Receive(junk + noise + [START] + (w + ([END, msb, lsb] + tail)))
              == Packet(Payload(cs, []), DecodeHex(msb, lsb) == Total(w) % 256)
  {
    hide Parse, Receive, AddByte, DecodeHex;
    var w, end := WireAll(cs, []), [END, msb, lsb] + tail;
    if noise == [] {
      SkipJunk(junk, w + end);
      assert junk + noise == junk;
    } else {
      SkipJunk(junk, noise[1..] + [START] + (w + end));
      assert junk + noise + [START] + (w + end) == junk + [START] + (noise[1..] + [START] + (w + end));
      StartOver(noise[1..], FRESH, w + end);
    }
    ParseChunks(cs, FRESH, end);
    AddNothing(Sum(w));
    ParseEnd(end, Progress(Payload(cs, []), Sum(w), false));
    SumIsTotal(w);
  }

  /** Whatever came before and comes after, an encoded payload is received as it was, with the checksum right. */
  lemma ReceiveEncoded(junk: seq<Byte>, cs: seq<Chunk>, tail: seq<Byte>)
    requires START !in junk && ChunksOk(cs, [])
    ensures var w := WireAll(cs, []);
            Receive(junk + [START] + (w + (Trailer(Sum(w)) + tail))) == Packet(Payload(cs, []), true)
  {
    hide Parse, Receive, AddByte;
    var w := WireAll(cs, []);
    SkipJunk(junk, w + (Trailer(Sum(w)) + tail));
    ParseChunks(cs, FRESH, Trailer(Sum(w)) + tail);
    AddNothing(Sum(w));
    ParseTrailer(Progress(Payload(cs, []), Sum(w), false), tail);
  }

  /** Every payload has an encoding: escape what is special. */
  function Escaped(payload: seq<Byte>): seq<Chunk>
  {
    seq(|payload|, i requires 0 <= i < |payload| => if IsSpecial(payload[i]) then Esc(payload[i]) else Raw(payload[i]))
  }

  lemma {:induction false} EscapedPayload(payload: seq<Byte>, out: seq<Byte>)
    ensures ChunksOk(Escaped(payload), out) && Payload(Escaped(payload), out) == out + payload
    decreases |payload|
  {
    if payload != [] {
      var b := payload[0];
      assert Escaped(payload)[1..] == Escaped(payload[1..]);
      EscapedPayload(payload[1..], out + [b]);
      assert out + [b] + payload[1..] == out + payload;
    } else {
      assert out + payload == out;
    }
  }

  // ----- sending -----

  /** send_packet. */
  method SendPacket(command: seq<Byte>) returns (wire: seq<Byte>)
    ensures wire == [START] + (command + Trailer(Sum(command)))
    ensures |wire| == |command| + 4
    ensures DecodeHex(wire[|command| + 2], wire[|command| + 3]) == Total(command) % 256
  {
    var sum: Byte, i := 0, 0;
    while i < |command|
      invariant 0 <= i <= |command| && sum == Sum(command[..i])
    {
      assert command[..i + 1][..i] == command[..i];
      sum := AddByte(sum, command[i]);
      i := i + 1;
    }
    assert command[..i] == command;
    wire := [START] + command;
    wire := wire + Trailer(sum);
    HexRoundTrip(sum);
    SumIsTotal(command);
    assert wire == [START] + (command + Trailer(sum));
  }

  /** Byte i means itself: it is no mark, and if it is a '*' that could repeat something, no count follows. */
  predicate Literal(p: seq<Byte>, i: nat)
    requires i < |p|
  {
    && p[i] != START && p[i] != END && p[i] != ESCAPE
    && (p[i] == RUN && 0 < i < |p| - 1 ==> !IsCount(p[i + 1]))
  }

  lemma {:induction false} ParseLiterals(p: seq<Byte>, k: nat, tail: seq<Byte>)
    requires k <= |p| && (forall i: nat :: i < |p| ==> Literal(p, i)) && (tail != [] ==> !IsCount(tail[0]))
    ensures Parse(p[k..] + tail, Progress(p[..k], Sum(p[..k]), false)) == Parse(tail, Progress(p, Sum(p), false))
    decreases |p| - k
  {
    hide Parse, AddByte, IsCount;
    if k == |p| {
      assert p[k..] + tail == tail && p[..k] == p;
    } else {
      var s := p[k..] + tail;
      assert Literal(p, k);
      assert k + 1 < |p| ==> s[1] == p[k + 1];
      assert k + 1 == |p| && |s| > 1 ==> s[1] == tail[0];
      ParseLiteral(s, Progress(p[..k], Sum(p[..k]), false));
      assert s[1..] == p[k + 1..] + tail && p[..k + 1] == p[..k] + [p[k]];
      assert p[..k + 1][..k] == p[..k];
      ParseLiterals(p, k + 1, tail);
    }
  }

  /** What send_packet wrote, recv_packet returns, if every byte means itself. */
  lemma SendThenReceive(p: seq<Byte>)
    requires forall i: nat :: i < |p| ==> Literal(p, i)
    ensures Receive([START] + (p + Trailer(Sum(p)))) == Packet(p, true)
  {
    hide Parse, Receive;
    var t := Trailer(Sum(p));
    assert [] + [START] + (p + t) == [START] + (p + t);
    SkipJunk([], p + t);
    ParseLiterals(p, 0, t);
    assert p[0..] == p && p[..0] == [];
    ParseTrailer(Progress(p, Sum(p), false), []);
    assert t + [] == t;
  }

  /** In particular without any of the four marks. */
  lemma SendThenReceivePlain(p: seq<Byte>)
    requires forall i :: 0 <= i < |p| ==> !IsSpecial(p[i])
    ensures Receive([START] + (p + Trailer(Sum(p)))) == Packet(p, true)
  {
    forall i: nat | i < |p| ensures Literal(p, i) {
      assert !IsSpecial(p[i]);
    }
    SendThenReceive(p);
  }
}
