/** Decimating copy of bunch-by-bunch samples from the DMA ring to the reader, chunk by chunk. */
module Decimation {
  import opened Arithmetic

  // ---- What decimation means -------------------------------------------------------------

  /** Every dec-th sample of s, starting at index off. */
  function Decimate<S>(s: seq<S>, off: nat, dec: nat): (r: seq<S>)
    requires dec > 0
    ensures r == [] || off + |r| <= |s|
    decreases |s| - off
  {
    if off >= |s| then [] else [s[off]] + Decimate(s, off + dec, dec)
  }

  /** Samples to skip in whatever follows n samples. */
  function NextOffset(n: nat, off: nat, dec: nat): nat
    requires dec > 0
    decreases n - off
  {
    if off >= n then off - n else NextOffset(n, off + dec, dec)
  }

  /** Decimation does not care how the stream is cut. */
  lemma {:induction false} DecimateConcat<S>(a: seq<S>, b: seq<S>, off: nat, dec: nat)
    requires dec > 0
    ensures Decimate(a + b, off, dec) == Decimate(a, off, dec) + Decimate(b, NextOffset(|a|, off, dec), dec)
    ensures NextOffset(|a| + |b|, off, dec) == NextOffset(|b|, NextOffset(|a|, off, dec), dec)
    decreases |a| - off
  {
    if off >= |a| {
      DecimateShift(a, b, off, dec);
    } else {
      DecimateConcat(a, b, off + dec, dec);
      assert [a[off]] + (Decimate(a, off + dec, dec) + Decimate(b, NextOffset(|a|, off + dec, dec), dec))
          == Decimate(a, off, dec) + Decimate(b, NextOffset(|a|, off, dec), dec);
    }
  }

  lemma {:induction false} DecimateShift<S>(a: seq<S>, b: seq<S>, off: nat, dec: nat)
    requires dec > 0 && off >= |a|
    ensures Decimate(a + b, off, dec) == Decimate(b, off - |a|, dec)
    ensures NextOffset(|a| + |b|, off, dec) == NextOffset(|b|, off - |a|, dec)
    decreases |a| + |b| - off
  {
    var t := off - |a|;
    if t >= |b| {
    } else {
      DecimateShift(a, b, off + dec, dec);
      assert off + dec - |a| == t + dec && (a + b)[off] == b[t];
      DecimateStep(a + b, off, dec);
      DecimateStep(b, t, dec);
    }
  }

  lemma DecimateStep<S>(s: seq<S>, off: nat, dec: nat)
    requires dec > 0 && off < |s|
    ensures Decimate(s, off, dec) == [s[off]] + Decimate(s, off + dec, dec)
    ensures NextOffset(|s|, off, dec) == NextOffset(|s|, off + dec, dec)
    ensures off + dec >= |s| ==> NextOffset(|s|, off, dec) == off + dec - |s|
  {
  }

  /** Position bookkeeping: samples passed plus samples still to skip is a whole number of
      decimation steps, one for each sample delivered. */
  lemma {:induction false} DecimateCount<S>(s: seq<S>, off: nat, dec: nat)
    requires dec > 0
    ensures off + dec * |Decimate(s, off, dec)| == if off >= |s| then off else |s| + NextOffset(|s|, off, dec)
    ensures off < |s| ==> NextOffset(|s|, off, dec) < dec
    decreases |s| - off
  {
    if off >= |s| {
    } else {
      DecimateCount(s, off + dec, dec);
      DecimateStep(s, off, dec);
      Distribute(dec, |Decimate(s, off + dec, dec)|, 1);
    }
  }

  lemma {:induction false} DecimateAt<S>(s: seq<S>, off: nat, dec: nat, k: nat)
    requires dec > 0 && k < |Decimate(s, off, dec)|
    ensures 0 <= off + k * dec < |s| && Decimate(s, off, dec)[k] == s[off + k * dec]
    decreases k
  {
    if k == 0 {
    } else {
      DecimateAt(s, off + dec, dec, k - 1);
      assert (k - 1) * dec == k * dec - dec;
    }
  }

  lemma OneStepApart(dec: nat, n: int, m: int)
    requires dec > 0 && 1 <= dec * n - dec * m <= dec
    ensures n == m + 1
  {
    assert dec * (n - m) == dec * n - dec * m;
    assert dec * (n - m - 1) == dec * (n - m) - dec;
    MulSign(dec, n - m);
    MulSign(dec, n - m - 1);
  }

  /** The read asks for (c - 1) * dec + 1 samples, which yield exactly c. */
  lemma RequestYields<S>(s: seq<S>, c: nat, dec: nat)
    requires dec > 0 && c > 0 && |s| == dec * (c - 1) + 1
    ensures |Decimate(s, 0, dec)| == c
  {
    assert dec * (c - 1) >= 0;
    DecimateCount(s, 0, dec);
    OneStepApart(dec, |Decimate(s, 0, dec)|, c - 1);
  }

  // ---- Any split into chunks -------------------------------------------------------------

  function Flatten<S>(chunks: seq<seq<S>>): seq<S> {
    if chunks == [] then [] else chunks[0] + Flatten(chunks[1..])
  }

  /** Outputs of successive copies, each chunk decimated with the offset left by the one before. */
  function Emitted<S>(chunks: seq<seq<S>>, off: nat, dec: nat): seq<S>
    requires dec > 0
  {
    if chunks == [] then []
    else Decimate(chunks[0], off, dec) + Emitted(chunks[1..], NextOffset(|chunks[0]|, off, dec), dec)
  }

  lemma {:induction false} ChunkingIsIrrelevant<S>(chunks: seq<seq<S>>, off: nat, dec: nat)
    requires dec > 0
    ensures Emitted(chunks, off, dec) == Decimate(Flatten(chunks), off, dec)
  {
    if chunks == [] {
    } else {
      ChunkingIsIrrelevant(chunks[1..], NextOffset(|chunks[0]|, off, dec), dec);
      DecimateConcat(chunks[0], Flatten(chunks[1..]), off, dec);
    }
  }

  // ---- The copy --------------------------------------------------------------------------

  /** The one call that goes wrong: the next sample due is the first one after the chunk. */
  predicate BoundaryHit(bufsize: nat, dec: nat, off: nat) {
    dec > 1 && bufsize > 0 && off == bufsize
  }

  /** What one copy delivers, the offset it leaves, and the memory it was made from. */
  datatype Copied<S> = Copied(out: seq<S>, off: nat, mem: seq<S>)

  function Patch<S>(mem: seq<S>, b: nat, d: seq<S>): (r: seq<S>)
    requires b + |d| <= |mem|
    ensures |r| == |mem|
  {
    mem[..b] + d + mem[b + |d|..]
  }

  predicate CanCopy<S>(mem: seq<S>, b: nat, size: nat, dec: nat, off: nat) {
    && dec > 0 && (dec == 1 ==> off == 0) && b + size <= |mem|
    && (BoundaryHit(size, dec, off) ==> b + size < |mem|)
  }

  /** The copy of mem[b..b+size] as the program makes it, with the samples compacted in place. */
  function Copy<S>(mem: seq<S>, b: nat, size: nat, dec: nat, off: nat): (r: Copied<S>)
    requires CanCopy(mem, b, size, dec, off)
    ensures |r.mem| == |mem|
  {
    if size == 0 then Copied([], off, mem)
    else if off > size then Copied([], off - size, mem)
    else if dec > 1 && off == size then Copied([mem[b + size]], dec, mem)
    else var due := Decimate(mem[b..b + size], off, dec);
         if due == [] then Copied([], NextOffset(size, off, dec), mem)
         else Copied(due, NextOffset(size, off, dec), Patch(mem, b + off, due))
  }

  /** The offset a copy leaves depends on the sizes only. */
  function OffsetAfter(size: nat, dec: nat, off: nat): nat
    requires dec > 0
  {
    if BoundaryHit(size, dec, off) then dec else NextOffset(size, off, dec)
  }

  lemma CopyIsDecimation<S>(mem: seq<S>, b: nat, size: nat, dec: nat, off: nat)
    requires CanCopy(mem, b, size, dec, off)
    ensures Copy(mem, b, size, dec, off).off == OffsetAfter(size, dec, off)
    ensures !BoundaryHit(size, dec, off) ==>
              Copy(mem, b, size, dec, off).out == Decimate(mem[b..b + size], off, dec)
    ensures dec == 1 ==> Copy(mem, b, size, dec, off).off == 0
  {
    if dec == 1 { DecimateByOne(mem[b..b + size], 0); }
  }

  /** Outputs of successive copies of chunks, `behind[k]` being the sample behind chunk k in memory. */
  function Delivered<S>(chunks: seq<seq<S>>, behind: seq<S>, off: nat, dec: nat): seq<S>
    requires |behind| == |chunks| && dec > 0 && (dec == 1 ==> off == 0)
  {
    if chunks == [] then []
    else var c := Copy(chunks[0] + [behind[0]], 0, |chunks[0]|, dec, off);
         CopyIsDecimation(chunks[0] + [behind[0]], 0, |chunks[0]|, dec, off);
         c.out + Delivered(chunks[1..], behind[1..], c.off, dec)
  }

  /** Some chunk of the given lengths ends right before the next sample due. */
  predicate HitsBoundary(lengths: seq<nat>, off: nat, dec: nat)
    requires dec > 0
  {
    lengths != []
    && (BoundaryHit(lengths[0], dec, off) || HitsBoundary(lengths[1..], OffsetAfter(lengths[0], dec, off), dec))
  }

  predicate HaveLengths<S>(chunks: seq<seq<S>>, lengths: seq<nat>) {
    |chunks| == |lengths| && forall k :: 0 <= k < |chunks| ==> |chunks[k]| == lengths[k]
  }

  lemma {:induction false} NoHitNoHarm<S>(chunks: seq<seq<S>>, behind: seq<S>, lengths: seq<nat>, off: nat, dec: nat)
    requires |behind| == |chunks| && dec > 0 && (dec == 1 ==> off == 0) && HaveLengths(chunks, lengths)
    requires !HitsBoundary(lengths, off, dec)
    ensures Delivered(chunks, behind, off, dec) == Emitted(chunks, off, dec)
  {
    if chunks == [] {
    } else {
      var mem, size := chunks[0] + [behind[0]], |chunks[0]|;
      assert mem[0..size] == chunks[0];
      CopyIsDecimation(mem, 0, size, dec, off);
      NoHitNoHarm(chunks[1..], behind[1..], lengths[1..], OffsetAfter(size, dec, off), dec);
    }
  }

  /** A stream of zeros with ones behind its chunks. */
  function Zeros(lengths: seq<nat>): (r: seq<seq<int>>)
    ensures HaveLengths(r, lengths)
  {
    seq(|lengths|, k requires 0 <= k < |lengths| => seq(lengths[k], _ => 0))
  }

  function Ones(n: nat): (r: seq<int>)
    ensures |r| == n
  {
    seq(n, _ => 1)
  }

  lemma {:induction false} HitDelivers(lengths: seq<nat>, off: nat, dec: nat)
    requires dec > 0 && (dec == 1 ==> off == 0) && HitsBoundary(lengths, off, dec)
    ensures 1 in Delivered(Zeros(lengths), Ones(|lengths|), off, dec)
  {
    var chunks, behind, size := Zeros(lengths), Ones(|lengths|), lengths[0];
    var mem := chunks[0] + [behind[0]];
    CopyIsDecimation(mem, 0, size, dec, off);
    var c := Copy(mem, 0, size, dec, off);
    if BoundaryHit(size, dec, off) {
      assert c.out == [1];
    } else {
      HitDelivers(lengths[1..], c.off, dec);
      assert chunks[1..] == Zeros(lengths[1..]) && behind[1..] == Ones(|lengths| - 1);
    }
  }

  lemma {:induction false} DecimateOnly<S>(s: seq<S>, off: nat, dec: nat)
    requires dec > 0
    ensures forall x :: x in Decimate(s, off, dec) ==> x in s
    decreases |s| - off
  {
    if off >= |s| {
    } else {
      DecimateOnly(s, off + dec, dec);
    }
  }

  lemma {:induction false} FlattenOnly<S>(chunks: seq<seq<S>>, x: S)
    requires x in Flatten(chunks)
    ensures exists k :: 0 <= k < |chunks| && x in chunks[k]
  {
    if chunks == [] {
    } else if x !in chunks[0] {
      FlattenOnly(chunks[1..], x);
      var k :| 0 <= k < |chunks[1..]| && x in chunks[1..][k];
      assert x in chunks[k + 1];
    }
  }

  /** For chunks of given lengths the joined outputs are every dec-th sample of the stream, whatever
      the stream and whatever lies behind the chunks, exactly if no chunk ends right before the next
      sample due. */
  lemma ChunkingIsIrrelevantIff(lengths: seq<nat>, off: nat, dec: nat)
    requires dec > 0 && (dec == 1 ==> off == 0)
    ensures (forall chunks: seq<seq<int>>, behind: seq<int> {:trigger Delivered(chunks, behind, off, dec)} |
               HaveLengths(chunks, lengths) && |behind| == |chunks| ::
               Delivered(chunks, behind, off, dec) == Decimate(Flatten(chunks), off, dec))
            <==> !HitsBoundary(lengths, off, dec)
  {
    if HitsBoundary(lengths, off, dec) {
      var zeros := Zeros(lengths);
      HitDelivers(lengths, off, dec);
      if 1 in Decimate(Flatten(zeros), off, dec) {
        DecimateOnly(Flatten(zeros), off, dec);
        FlattenOnly(zeros, 1);
      }
      assert Delivered(zeros, Ones(|lengths|), off, dec) != Decimate(Flatten(zeros), off, dec);
    } else {
      forall chunks: seq<seq<int>>, behind: seq<int> | HaveLengths(chunks, lengths) && |behind| == |chunks|
        ensures Delivered(chunks, behind, off, dec) == Decimate(Flatten(chunks), off, dec)
      {
        NoHitNoHarm(chunks, behind, lengths, off, dec);
        ChunkingIsIrrelevant(chunks, off, dec);
      }
    }
  }

  /** It does happen: every fifth sample, and atoms of four samples coming one at a time. */
  lemma AtomsHitTheBoundary()
    ensures !HitsBoundary([4, 4, 4, 4], 0, 5) && HitsBoundary([4, 4, 4, 4, 4], 0, 5)
  {
    assert OffsetAfter(4, 5, 0) == 1 && OffsetAfter(4, 5, 1) == 2;
    assert OffsetAfter(4, 5, 2) == 3 && OffsetAfter(4, 5, 3) == 4;
    Hits([4, 4, 4, 4, 4], 0);
    Hits([4, 4, 4, 4], 1);
    Hits([4, 4, 4], 2);
    Hits([4, 4], 3);
    Hits([4], 4);
    Hits([4, 4, 4, 4], 0);
    Hits([4, 4, 4], 1);
    Hits([4, 4], 2);
    Hits([4], 3);
  }

  lemma Hits(lengths: seq<nat>, off: nat)
    requires lengths != []
    ensures HitsBoundary(lengths, off, 5)
            <==> BoundaryHit(lengths[0], 5, off) || HitsBoundary(lengths[1..], OffsetAfter(lengths[0], 5, off), 5)
  {
  }

  /** j samples of s are kept at the front of cur, the next one due is s[i], and everything that
      is still to be read is in place. */
  ghost predicate Compacted<S>(cur: seq<S>, s: seq<S>, i: nat, j: nat, dec: nat)
    requires dec > 0
  {
    && |cur| == |s| && 1 <= j <= |s| && j < i
    && cur[..j] + Decimate(s, i, dec) == Decimate(s, 0, dec)
    && NextOffset(|s|, i, dec) == NextOffset(|s|, 0, dec)
    && cur[j..] == s[j..]
  }

  lemma CompactStep<S>(cur: seq<S>, s: seq<S>, i: nat, j: nat, dec: nat)
    requires dec > 1 && Compacted(cur, s, i, j, dec) && i < |s|
    ensures cur[i] == s[i] && Compacted(cur[j := cur[i]], s, i + dec, j + 1, dec)
  {
    assert cur[i] == cur[j..][i - j] == s[i];
    var next := cur[j := cur[i]];
    assert next[..j + 1] == cur[..j] + [s[i]];
    assert next[j + 1..] == s[j..][1..];
    assert cur[..j] + ([s[i]] + Decimate(s, i + dec, dec)) == next[..j + 1] + Decimate(s, i + dec, dec);
  }

  lemma CompactStart<S>(s: seq<S>, dec: nat)
    requires dec > 1 && |s| > 0
    ensures Compacted(s, s, dec, 1, dec)
  {
    assert s[..1] == [s[0]];
  }

  lemma CompactEnd<S>(cur: seq<S>, s: seq<S>, i: nat, j: nat, dec: nat)
    requires dec > 0 && Compacted(cur, s, i, j, dec) && i >= |s|
    ensures cur[..j] == Decimate(s, 0, dec) && i - |s| == NextOffset(|s|, 0, dec)
  {
    assert cur[..j] + [] == cur[..j];
  }

  method MoveSample<S>(buf: array<S>, b: nat, n: nat, i: nat, j: nat)
    requires b + n <= buf.Length && i < n && j < n
    modifies buf
    ensures buf[b..b + n] == old(buf[b..b + n])[j := old(buf[b..b + n])[i]]
    ensures buf[..b] == old(buf[..b]) && buf[b + n..] == old(buf[b + n..])
  {
    buf[b + j] := buf[b + i];
  }

  /** Moves every dec-th sample of buf[b..b+n] to the front, in place; j samples are kept and i is
      the index of the next one due. */
  method Compact<S>(buf: array<S>, b: nat, n: nat, dec: nat) returns (j: nat, i: nat)
    requires dec > 1 && n > 0 && b + n <= buf.Length
    modifies buf
    ensures 1 <= j <= n <= i && i - n == NextOffset(n, 0, dec)
    ensures buf[b..b + j] == Decimate(old(buf[b..b + n]), 0, dec)
    ensures buf[..] == Patch(old(buf[..]), b, Decimate(old(buf[b..b + n]), 0, dec))
  {
    ghost var s, mem := buf[b..b + n], buf[..];
    assert buf[..b] == mem[..b] && buf[b + n..] == mem[b + n..] && s == mem[b..b + n];
    i := dec;
    j := 1;
    CompactStart(s, dec);
    while i < n
      invariant Compacted(buf[b..b + n], s, i, j, dec)
      invariant buf[..b] == mem[..b] && buf[b + n..] == mem[b + n..]
    {
      CompactStep(buf[b..b + n], s, i, j, dec);
      MoveSample(buf, b, n, i, j);
      i := i + dec;
      j := j + 1;
    }
    CompactEnd(buf[b..b + n], s, i, j, dec);
    PatchIs(mem, buf[..], b, n, j, s, buf[b..b + n]);
  }

  lemma PatchIs<S>(mem: seq<S>, now: seq<S>, b: nat, n: nat, j: nat, s: seq<S>, cur: seq<S>)
    requires |now| == |mem| && b + n <= |mem| && j <= n
    requires s == mem[b..b + n] && cur == now[b..b + n] && cur[j..] == s[j..]
    requires now[..b] == mem[..b] && now[b + n..] == mem[b + n..]
    ensures now[b..b + j] == cur[..j] && now == Patch(mem, b, cur[..j])
  {
    assert now == now[..b] + cur + now[b + n..];
    assert mem == mem[..b] + s + mem[b + n..];
    assert cur == cur[..j] + cur[j..];
    assert mem[b + j..] == s[j..] + mem[b + n..];
  }

  /** Copies the samples due in buf[b..b+size].  Unless the next sample due is the first one after
      the chunk, the output is the decimated chunk and the new offset continues the stream; in
      that one case a sample from outside the chunk is delivered. */
  method CopyBufferToUser<S>(buf: array<S>, b: nat, size: nat, dec: nat, off: nat)
      returns (out: seq<S>, copied: nat, newOff: nat)
    requires CanCopy(buf[..], b, size, dec, off)
    modifies buf
    ensures copied == |out| && (dec == 1 ==> newOff == 0)
    ensures Copied(out, newOff, buf[..]) == Copy(old(buf[..]), b, size, dec, off)
    ensures !BoundaryHit(size, dec, off) ==>
              out == Decimate(old(buf[b..b + size]), off, dec) && newOff == NextOffset(size, off, dec)
    ensures BoundaryHit(size, dec, off) ==> out == [old(buf[b + size])] && newOff == dec
  {
    ghost var mem := buf[..];
    assert mem[b..b + size] == buf[b..b + size];
    CopyIsDecimation(mem, b, size, dec, off);
    newOff := off;
    if size == 0 {
      return [], 0, newOff;
    }
    if off > size {
      newOff := off - size;
      return [], 0, newOff;
    }
    var start := b + off;
    if dec > 1 {
      if off == size {
        copied, newOff := 1, dec;
      } else {
        copied, newOff := CompactDue(buf, b, size, dec, off);
      }
    } else {
      copied, newOff := size, 0;
      DecimateByOne(mem[b..b + size], 0);
      assert Patch(mem, b, mem[b..b + size]) == mem;
    }
    out := buf[start..start + copied];
  }

  lemma CopyOfDue<S>(mem: seq<S>, b: nat, size: nat, dec: nat, off: nat)
    requires dec > 1 && off < size && b + size <= |mem|
    ensures var due := Decimate(mem[b + off..b + size], 0, dec);
            due != [] && b + off + |due| <= |mem|
            && Copy(mem, b, size, dec, off) == Copied(due, NextOffset(size - off, 0, dec), Patch(mem, b + off, due))
  {
    assert mem[b..b + size][off..] == mem[b + off..b + size];
    DecimateTail(mem[b..b + size], off, dec);
  }

  /** The decimating branch, for a chunk in which some sample is due. */
  method CompactDue<S>(buf: array<S>, b: nat, size: nat, dec: nat, off: nat) returns (copied: nat, newOff: nat)
    requires dec > 1 && off < size && b + size <= buf.Length
    modifies buf
    ensures b + off + copied <= buf.Length
    ensures Copied(buf[b + off..b + off + copied], newOff, buf[..]) == Copy(old(buf[..]), b, size, dec, off)
  {
    ghost var mem := buf[..];
    var n, start := size - off, b + off;
    ghost var due := Decimate(mem[start..start + n], 0, dec);
    assert start + n == b + size;
    assert buf[start..start + n] == mem[start..start + n];
    CopyOfDue(mem, b, size, dec, off);
    var i;
    copied, i := Compact(buf, start, n, dec);
    newOff := i - n;
    assert buf[start..start + copied] == due;
  }

  lemma {:induction false} DecimateTail<S>(s: seq<S>, off: nat, dec: nat)
    requires dec > 0 && off <= |s|
    ensures Decimate(s[off..], 0, dec) == Decimate(s, off, dec)
    ensures NextOffset(|s| - off, 0, dec) == NextOffset(|s|, off, dec)
  {
    assert s == s[..off] + s[off..];
    DecimateShift(s[..off], s[off..], off, dec);
  }

  lemma {:induction false} DecimateByOne<S>(s: seq<S>, off: nat)
    requires off <= |s|
    ensures Decimate(s, off, 1) == s[off..] && NextOffset(|s|, off, 1) == 0
    decreases |s| - off
  {
    if off == |s| {
    } else {
      DecimateByOne(s, off + 1);
    }
  }

  // ---- Positioning -----------------------------------------------------------------------

  const CIRCBUF_SAMPLES := 0x800_0000
  const ATOM_SAMPLES := 4

  datatype Position = At(samples: int) | NotPermitted  // -EPERM

  /** Samples from a memory atom to the next logical atom of l samples. */
  function Residue(pos: nat, l: nat): nat
    requires l > 0
  {
    (l - (pos + l) % l) % l
  }

  /** Position of a trigger in samples since arming; a trigger before the last arming is refused. */
  function TriggerPosition(trig: nat, arm: nat, l: nat): Position
    requires l > 0
  {
    if trig < arm then NotPermitted
    else var pos := (trig - arm) * ATOM_SAMPLES;
         At(pos + Residue(pos, l))
  }

  lemma ResidueIs(pos: nat, l: nat, q: int, r: int)
    requires l > 0 && pos == l * q + r && 0 <= r < l
    ensures Residue(pos, l) == if r == 0 then 0 else l - r
  {
    assert (pos + l) % l == r by {
      Distribute(l, q, 1);
      ModUnique(pos + l, l, q + 1, r);
    }
    if r == 0 {
      ModUnique(l, l, 1, 0);
    } else {
      ModUnique(l - r, l, 0, l - r);
    }
  }

  lemma FirstMultiple(pos: nat, l: nat, m: nat)
    requires l > 0 && m % l == 0 && m >= pos
    ensures (pos + Residue(pos, l)) % l == 0 && pos <= pos + Residue(pos, l) <= m
  {
    var q, r, k := pos / l, pos % l, m / l;
    assert pos == l * q + r && m == l * k;
    ResidueIs(pos, l, q, r);
    Distribute(l, q, 1);
    if r > 0 {
      ModUnique(pos + l - r, l, q + 1, 0);
      if k <= q { MulLess(l, k, q); }
      MulLess(l, q + 1, k);
    }
  }

  /** It is the first logical atom boundary at or after the trigger's memory atom. */
  lemma TriggerIsFirstBoundary(trig: nat, arm: nat, l: nat, m: nat)
    requires l > 0 && arm <= trig && m % l == 0 && m >= (trig - arm) * ATOM_SAMPLES
    ensures TriggerPosition(trig, arm, l).At?
    ensures var t := TriggerPosition(trig, arm, l).samples;
            t % l == 0 && (trig - arm) * ATOM_SAMPLES <= t <= m
  {
    FirstMultiple((trig - arm) * ATOM_SAMPLES, l, m);
  }

  /** A trigger from before the arming is refused, and no other. */
  lemma EarlyTriggerIsRefused(trig: nat, arm: nat, l: nat)
    requires l > 0
    ensures TriggerPosition(trig, arm, l) == NotPermitted <==> trig < arm
  {
  }

  /** A seek by samples, held within the history buffer around the trigger. */
  function Seek(fPos: int, offset: int, trigPosition: nat, l: nat): int
    requires l > 0
  {
    var eof := trigPosition + CIRCBUF_SAMPLES / 2 - trigPosition % l;
    var bof := eof - CIRCBUF_SAMPLES;
    if fPos + offset > eof then eof else if fPos + offset < bof then bof else fPos + offset
  }

  /** Around a trigger position the seek window is exactly half a buffer to either side, and a seek
      past an end stops at that end. */
  lemma SeekWindow(trig: nat, arm: nat, l: nat, fPos: int, offset: int)
    requires l > 0 && arm <= trig
    ensures var t := TriggerPosition(trig, arm, l).samples;
            && t >= 0
            && -(CIRCBUF_SAMPLES / 2) <= Seek(fPos, offset, t, l) - t <= CIRCBUF_SAMPLES / 2
            && (Seek(fPos, offset, t, l) == fPos + offset
                <==> -(CIRCBUF_SAMPLES / 2) <= fPos + offset - t <= CIRCBUF_SAMPLES / 2)
            && (fPos + offset - t > CIRCBUF_SAMPLES / 2 ==> Seek(fPos, offset, t, l) == t + CIRCBUF_SAMPLES / 2)
            && (fPos + offset - t < -(CIRCBUF_SAMPLES / 2) ==> Seek(fPos, offset, t, l) == t - CIRCBUF_SAMPLES / 2)
  {
    var pos := (trig - arm) * ATOM_SAMPLES;
    Distribute(l, pos, 1);
    MulSign(l, 1);
    MulLess(pos, 1, l);
    ModUnique(l * pos, l, pos, 0);
    TriggerIsFirstBoundary(trig, arm, l, l * pos);
  }
}
