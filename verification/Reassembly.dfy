/** What the stored files contain: unp/tcpflow/tcpip.c puts a stream back together from its
    segments, whatever their order, overlap and duplication. */
module Reassembly {
  import opened Bytes
  import opened Streams
  import opened FlowSpec

  const IP_HEADER := 20
  const TCP_HEADER := 20

  // The bytes process_ip and process_tcp hand to store_packet, if they hand over any.
  function PayloadLength(caplen: u32, ipHeaderWords: nat, ipTotalLength: u16, fragment: u16, tcpHeaderWords: nat):
    (r: Option<nat>)
    ensures r.Some? ==> 1 <= r.value < 0x1_0000
  {
    if caplen < IP_HEADER || fragment % 0x2000 != 0 || 4 * ipHeaderWords > ipTotalLength then None
    else
      var length := ipTotalLength - 4 * ipHeaderWords;
      if length < TCP_HEADER || length <= 4 * tcpHeaderWords then None
      else Some(length - 4 * tcpHeaderWords)
  }

  // For a packet with headers of those lengths and n bytes of data it is those n bytes, unless the capture
  // is too short, the packet is a later fragment, it holds no data, or it has no room for a TCP header.
  lemma PayloadOf(caplen: u32, ipHeaderWords: nat, tcpHeaderWords: nat, n: nat, fragment: u16)
    requires 4 * ipHeaderWords + 4 * tcpHeaderWords + n < 0x1_0000
    ensures PayloadLength(caplen, ipHeaderWords, 4 * ipHeaderWords + 4 * tcpHeaderWords + n, fragment, tcpHeaderWords)
         == if caplen < 20 || fragment % 0x2000 != 0 || n == 0 || 4 * tcpHeaderWords + n < 20 then None else Some(n)
  {
  }

  // The sequence number of a position in the stream, and that of k places before the stream:
  // they count modulo 2^32 (section 3.4 of RFC 9293).
  function NumberAt(isn: u32, position: nat): u32 {
    (isn + position) % 0x1_0000_0000
  }

  function NumberBehind(isn: u32, k: nat): u32 {
    (isn - k) % 0x1_0000_0000
  }

  // Numbered at most 64K before the first segment.
  ghost predicate Early(seqno: u32, isn: u32) {
    exists k: nat :: 0 < k <= 0x1_0000 && seqno == NumberBehind(isn, k)
  }

  // Exactly such segments are dropped.
  lemma EarlyExactly(seqno: u32, isn: u32)
    ensures Early(seqno, isn) <==> Offset(seqno, isn) >= 0xffff_0000
  {
    if Offset(seqno, isn) >= 0xffff_0000 {
      assert seqno == NumberBehind(isn, 0x1_0000_0000 - Offset(seqno, isn));
    }
  }

  // The window guard and the 16-bit IP length keep offset + length inside 32 bits.
  lemma NoWrap(caplen: u32, ipHeaderWords: nat, ipTotalLength: u16, fragment: u16, tcpHeaderWords: nat,
               seqno: u32, isn: u32)
    requires PayloadLength(caplen, ipHeaderWords, ipTotalLength, fragment, tcpHeaderWords).Some?
    requires !Early(seqno, isn)
    ensures var length := PayloadLength(caplen, ipHeaderWords, ipTotalLength, fragment, tcpHeaderWords).value;
      (Offset(seqno, isn) + length) % 0x1_0000_0000 == Offset(seqno, isn) + length
  {
    EarlyExactly(seqno, isn);
  }

  // The offset undoes the wrap.
  lemma OffsetOf(isn: u32, position: u32)
    ensures Offset(NumberAt(isn, position), isn) == position
  {
  }

  // The initial sequence number of a flow is that of its first segment in the trace.
  function FirstSeqno(segments: seq<Segment>, f: FlowId): Option<u32> {
    if segments == [] then None
    else
      var last := |segments| - 1;
      var earlier := FirstSeqno(segments[..last], f);
      if earlier.None? && segments[last].flow == f then Some(segments[last].seqno) else earlier
  }

  ghost predicate IsSlice(s: Segment, isn: u32, stream: seq<byte>, a: u32) {
    a + |s.data| <= |stream| && s.data == stream[a..a + |s.data|] && s.seqno == NumberAt(isn, a)
  }

  // A slice of the stream is dropped exactly when it starts in the last 64K of the sequence space.
  lemma DroppedSlice(s: Segment, isn: u32, stream: seq<byte>, a: u32)
    requires IsSlice(s, isn, stream, a)
    ensures Early(s.seqno, isn) <==> a >= 0xffff_0000
  {
    OffsetOf(isn, a);
    EarlyExactly(s.seqno, isn);
  }

  // Every segment of f is a slice of the stream, or so little before the first one that it is dropped.
  ghost predicate SlicesOf(segments: seq<Segment>, f: FlowId, isn: u32, stream: seq<byte>) {
    forall s <- segments :: s.flow == f ==> Early(s.seqno, isn) || exists a: u32 :: IsSlice(s, isn, stream, a)
  }

  ghost predicate Covers(s: Segment, f: FlowId, isn: u32, p: nat) {
    s.flow == f && !Early(s.seqno, isn) && exists a: u32 :: s.seqno == NumberAt(isn, a) && a <= p < a + |s.data|
  }

  lemma CoversAt(s: Segment, f: FlowId, isn: u32, p: nat)
    ensures var a := Offset(s.seqno, isn);
      Covers(s, f, isn, p) <==> s.flow == f && a < 0xffff_0000 && a <= p < a + |s.data|
  {
    EarlyExactly(s.seqno, isn);
    assert s.seqno == NumberAt(isn, Offset(s.seqno, isn));
    forall a: u32 | s.seqno == NumberAt(isn, a) ensures a == Offset(s.seqno, isn) {
      OffsetOf(isn, a);
    }
  }

  ghost predicate Covered(segments: seq<Segment>, f: FlowId, isn: u32, p: nat) {
    exists i :: 0 <= i < |segments| && Covers(segments[i], f, isn, p)
  }

  // The file holds the stream where it is covered, zeros in the gaps, and ends with the last covered byte.
  ghost predicate Reassembled(content: seq<byte>, segments: seq<Segment>, f: FlowId, isn: u32, stream: seq<byte>) {
    && |content| <= |stream|
    && (forall p: nat :: Covered(segments, f, isn, p) ==> p < |content|)
    && (forall p | 0 <= p < |content| :: content[p] == if Covered(segments, f, isn, p) then stream[p] else 0)
    && (content != [] ==> Covered(segments, f, isn, |content| - 1))
  }

  lemma CoveredByOneMore(segments: seq<Segment>, f: FlowId, isn: u32, p: nat)
    requires segments != []
    ensures var last := |segments| - 1;
      Covered(segments, f, isn, p) <==> Covered(segments[..last], f, isn, p) || Covers(segments[last], f, isn, p)
  {
  }

  lemma SliceOffset(s: Segment, isn: u32, stream: seq<byte>)
    requires Early(s.seqno, isn) || exists a: u32 :: IsSlice(s, isn, stream, a)
    requires Offset(s.seqno, isn) < 0xffff_0000
    ensures var a := Offset(s.seqno, isn); a + |s.data| <= |stream| && s.data == stream[a..a + |s.data|]
  {
    EarlyExactly(s.seqno, isn);
    var a: u32 :| IsSlice(s, isn, stream, a);
    OffsetOf(isn, a);
  }

  // One more segment keeps the file reassembled.
  lemma ReassembledStep(content: seq<byte>, segments: seq<Segment>, f: FlowId, isn: u32, stream: seq<byte>)
    requires segments != [] && Reassembled(content, segments[..|segments| - 1], f, isn, stream)
    requires SlicesOf(segments, f, isn, stream)
    ensures var s := segments[|segments| - 1]; var a := Offset(s.seqno, isn);
      Reassembled(if s.flow == f && a < 0xffff_0000 then WriteAt(content, a, s.data) else content,
                  segments, f, isn, stream)
  {
    hide Covered, Covers, IsSlice, Early, Offset, WriteAt;
    var last := |segments| - 1;
    var s := segments[last];
    var a := Offset(s.seqno, isn);
    assert s in segments;
    if s.flow == f && a < 0xffff_0000 {
      SliceOffset(s, isn, stream);
    }
    forall p: nat
      ensures Covered(segments, f, isn, p)
         <==> Covered(segments[..last], f, isn, p) || (s.flow == f && a < 0xffff_0000 && a <= p < a + |s.data|)
    {
      CoveredByOneMore(segments, f, isn, p);
      CoversAt(s, f, isn, p);
    }
  }

  // With no byte limit the file of a flow is its stream, for any order, overlap and duplication.
  lemma {:induction false} StreamReassembled(segments: seq<Segment>, f: FlowId, isn: u32, stream: seq<byte>)
    requires FirstSeqno(segments, f) == Some(isn) && SlicesOf(segments, f, isn, stream)
    ensures var flows := StoreAll(map[], segments, 0);
      && f in flows && flows[f].isn == isn && !flows[f].finished && flows[f].file.Some?
      && Reassembled(Content(flows[f]), segments, f, isn, stream)
  {
    var last := |segments| - 1;
    var earlier := segments[..last];
    if FirstSeqno(earlier, f).Some? {
      assert forall s <- earlier :: s in segments;
      StreamReassembled(earlier, f, isn, stream);
      ReassembledStep(Content(StoreAll(map[], earlier, 0)[f]), segments, f, isn, stream);
    } else {
      NotSeen(earlier, f, 0);
      assert forall p: nat :: !Covered(earlier, f, isn, p);
      ReassembledStep([], segments, f, isn, stream);
    }
  }

  // The segment carries byte p of the stream.
  ghost predicate Carries(s: Segment, f: FlowId, isn: u32, stream: seq<byte>, p: nat) {
    s.flow == f && exists a: u32 :: IsSlice(s, isn, stream, a) && a <= p < a + |s.data|
  }

  ghost predicate Captured(segments: seq<Segment>, f: FlowId, isn: u32, stream: seq<byte>, p: nat) {
    exists i :: 0 <= i < |segments| && Carries(segments[i], f, isn, stream, p)
  }

  lemma CarriedIsCovered(s: Segment, f: FlowId, isn: u32, stream: seq<byte>, p: nat)
    requires Carries(s, f, isn, stream, p) && p < 0xffff_0000
    ensures Covers(s, f, isn, p)
  {
    var a: u32 :| IsSlice(s, isn, stream, a) && a <= p < a + |s.data|;
    DroppedSlice(s, isn, stream, a);
  }

  // A stream within the window whose every byte was captured is in the file, whole.
  lemma StreamComplete(segments: seq<Segment>, f: FlowId, isn: u32, stream: seq<byte>)
    requires FirstSeqno(segments, f) == Some(isn) && SlicesOf(segments, f, isn, stream)
    requires |stream| <= 0xffff_0000
    requires forall p: nat | p < |stream| :: Captured(segments, f, isn, stream, p)
    ensures var flows := StoreAll(map[], segments, 0); f in flows && Content(flows[f]) == stream
  {
    hide SlicesOf, Carries, Covers, StoreAll;
    StreamReassembled(segments, f, isn, stream);
    forall p | 0 <= p < |stream| ensures Covered(segments, f, isn, p) {
      assert Captured(segments, f, isn, stream, p);
      var i :| 0 <= i < |segments| && Carries(segments[i], f, isn, stream, p);
      CarriedIsCovered(segments[i], f, isn, stream, p);
    }
    assert stream != [] ==> Covered(segments, f, isn, |stream| - 1);
  }

  lemma {:induction false} NotSeen(segments: seq<Segment>, f: FlowId, bytesPerFlow: nat)
    requires FirstSeqno(segments, f) == None
    ensures f !in StoreAll(map[], segments, bytesPerFlow)
    ensures forall s <- segments :: s.flow != f
  {
    if segments != [] {
      NotSeen(segments[..|segments| - 1], f, bytesPerFlow);
    }
  }

  // ---- The byte limit ----

  // c is c0 cut at the limit: what c0 has beyond c and below the limit is only a gap.
  ghost predicate CutAt(c: seq<byte>, c0: seq<byte>, limit: nat) {
    && |c| <= limit && c <= c0
    && forall p | |c| <= p < |c0| && p < limit :: c0[p] == 0
  }

  lemma WriteBoth(c: seq<byte>, c0: seq<byte>, limit: nat, a: nat, d: seq<byte>)
    requires CutAt(c, c0, limit) && a <= limit
    ensures CutAt(WriteAt(c, a, if a + |d| > limit then d[..limit - a] else d), WriteAt(c0, a, d), limit)
  {
  }

  lemma WriteBeyond(c: seq<byte>, c0: seq<byte>, limit: nat, a: nat, d: seq<byte>)
    requires CutAt(c, c0, limit) && a > limit
    ensures CutAt(c, WriteAt(c0, a, d), limit)
  {
  }

  // The record r of a limited flow against the one without a limit.
  ghost predicate Limited(r: FlowRecord, r0: FlowRecord, limit: nat) {
    r.isn == r0.isn && !r0.finished && CutAt(Content(r), Content(r0), limit)
  }

  lemma LimitedStep(r: FlowRecord, r0: FlowRecord, s: Segment, limit: nat)
    requires limit > 0 && !r.finished && Limited(r, r0, limit)
    ensures Limited(StoreRecord(r, s, limit), StoreRecord(r0, s, 0), limit)
  {
    hide WriteAt, CutAt;
    var a := Offset(s.seqno, r.isn);
    if a <= limit {
      WriteBoth(Content(r), Content(r0), limit, a, s.data);
    } else {
      WriteBeyond(Content(r), Content(r0), limit, a, s.data);
    }
  }

  lemma LimitedStart(s: Segment, limit: nat)
    requires limit > 0
    ensures var r := FlowRecord(s.seqno, false, None); Limited(StoreRecord(r, s, limit), StoreRecord(r, s, 0), limit)
  {
    var r := FlowRecord(s.seqno, false, None);
    LimitedStep(r, r, s, limit);
  }

  // The segment that brings a flow to its limit: it starts at or below the limit and ends beyond it.
  ghost predicate Finishes(s: Segment, f: FlowId, isn: u32, limit: nat) {
    s.flow == f && !Early(s.seqno, isn) && exists a: u32 :: s.seqno == NumberAt(isn, a) && a <= limit < a + |s.data|
  }

  lemma FinishesNow(r: FlowRecord, s: Segment, limit: nat)
    requires limit > 0
    ensures StoreRecord(r, s, limit).isn == r.isn && (r.finished ==> StoreRecord(r, s, limit) == r)
    ensures StoreRecord(r, s, limit).finished <==> r.finished || Finishes(s, s.flow, r.isn, limit)
  {
    CoversAt(s, s.flow, r.isn, limit);
  }

  // The first n segments are those up to the first that finishes the flow, or all of them.
  ghost predicate UpToLimit(segments: seq<Segment>, f: FlowId, isn: u32, limit: nat, n: nat, finished: bool) {
    && n <= |segments| && (forall i | 0 <= i < n - 1 :: !Finishes(segments[i], f, isn, limit))
    && (if finished then n > 0 && Finishes(segments[n - 1], f, isn, limit)
        else n == |segments| && (n > 0 ==> !Finishes(segments[n - 1], f, isn, limit)))
  }

  lemma UpToOneMore(segments: seq<Segment>, f: FlowId, isn: u32, limit: nat, n: nat, finished: bool)
    requires segments != [] && UpToLimit(segments[..|segments| - 1], f, isn, limit, n, finished)
    ensures var last := Finishes(segments[|segments| - 1], f, isn, limit);
      UpToLimit(segments, f, isn, limit, if finished then n else |segments|, finished || last)
  {
    hide Finishes;
  }

  lemma NoneFinishes(segments: seq<Segment>, f: FlowId, isn: u32, limit: nat)
    requires forall s <- segments :: s.flow != f
    ensures UpToLimit(segments, f, isn, limit, |segments|, false)
  {
  }

  lemma {:induction false} SeenExactly(segments: seq<Segment>, f: FlowId, limit: nat)
    ensures f in StoreAll(map[], segments, limit) <==> FirstSeqno(segments, f).Some?
  {
    hide StoreRecord;
    if segments != [] {
      SeenExactly(segments[..|segments| - 1], f, limit);
    }
  }

  // A limited file is the unlimited file of the first n segments, cut at the limit; the n-th is the first that
  // finishes the flow, if one does, and later segments do not count.
  lemma {:induction false} LimitedFile(segments: seq<Segment>, f: FlowId, limit: nat) returns (n: nat)
    requires limit > 0 && f in StoreAll(map[], segments, limit)
    ensures var r := StoreAll(map[], segments, limit)[f];
      FirstSeqno(segments, f) == Some(r.isn) && UpToLimit(segments, f, r.isn, limit, n, r.finished)
    ensures n <= |segments| && (n == |segments| || StoreAll(map[], segments, limit)[f].finished)
    ensures f in StoreAll(map[], segments[..n], 0)
    ensures Limited(StoreAll(map[], segments, limit)[f], StoreAll(map[], segments[..n], 0)[f], limit)
  {
    hide StoreRecord, Limited, UpToLimit, Finishes;
    var last := |segments| - 1;
    var earlier := segments[..last];
    var s := segments[last];
    assert segments[..|segments|] == segments;
    SeenExactly(earlier, f, limit);
    if f !in StoreAll(map[], earlier, limit) {
      SameFlowsSeen(earlier, f, limit);
      n := |segments|;
      LimitedStart(s, limit);
      NotSeen(earlier, f, limit);
      NoneFinishes(earlier, f, s.seqno, limit);
      FinishesNow(FlowRecord(s.seqno, false, None), s, limit);
      UpToOneMore(segments, f, s.seqno, limit, last, false);
    } else {
      n := LimitedFile(earlier, f, limit);
      assert segments[..n] == earlier[..n];
      var r := StoreAll(map[], earlier, limit)[f];
      UpToOneMore(segments, f, r.isn, limit, n, r.finished);
      OneMoreFinishes(r, s, f, limit);
      if !r.finished {
        n := |segments|;
        assert earlier[..last] == earlier;
        LimitedStep(r, StoreAll(map[], earlier, 0)[f], s, limit);
      }
    }
  }

  lemma OneMoreFinishes(r: FlowRecord, s: Segment, f: FlowId, limit: nat)
    requires limit > 0
    ensures var r' := if s.flow == f then StoreRecord(r, s, limit) else r;
      && r'.isn == r.isn && (r.finished ==> r' == r)
      && (r'.finished <==> r.finished || Finishes(s, f, r.isn, limit))
  {
    if s.flow == f {
      FinishesNow(r, s, limit);
    }
  }

  lemma {:induction false} SameFlowsSeen(segments: seq<Segment>, f: FlowId, limit: nat)
    ensures f in StoreAll(map[], segments, limit) <==> f in StoreAll(map[], segments, 0)
  {
    if segments != [] {
      SameFlowsSeen(segments[..|segments| - 1], f, limit);
    }
  }
}
