/** What unp/tcpflow leaves on the disk after a whole trace. */
module CaptureResult {
  import opened Bytes
  import opened Streams
  import opened FlowSpec
  import opened FlowTable
  import opened Reassembly
  import FdRing

  // Without a byte limit the file of a flow is its stream.
  lemma StreamOnDisk(c: Capture, segments: seq<Segment>, f: FlowId, isn: u32, stream: seq<byte>)
    requires c.Linked() && c.Abs() == StoreAll(map[], segments, 0)
    requires FirstSeqno(segments, f) == Some(isn) && SlicesOf(segments, f, isn, stream)
    ensures f in c.os.disk && Reassembled(c.os.disk[f], segments, f, isn, stream)
  {
    hide Reassembled, SlicesOf;
    StreamReassembled(segments, f, isn, stream);
  }

  lemma NoneUsed(v: FdRing.View)
    requires FdRing.Records(v) == map[]
    ensures FdRing.ByUse(v.vars, [])
  {
    forall f ensures f !in v.vars {
      assert f in v.vars ==> f in FdRing.Records(v);
    }
  }

  // Capturing a trace from the start.
  method CaptureTrace(c: Capture, segments: seq<Segment>)
    requires c.Valid() && c.Abs() == map[] && c.bytesPerFlow == 0 && forall s <- segments :: |s.data| < 0x1_0000
    modifies c, c.fdRing, c.table, c.table.buckets, c.States().Values
    ensures c.Valid() && c.InOrderOfUse(segments)
    ensures forall f, isn, stream |
              FirstSeqno(segments, f) == Some(isn) && SlicesOf(segments, f, isn, stream) ::
              f in c.os.disk && Reassembled(c.os.disk[f], segments, f, isn, stream)
  {
    hide Reassembled, SlicesOf, FirstSeqno, StoreAll, FdRing.Inv, FdRing.ByUse, HashTable.Valid, Capture.Linked,
         Capture.InOrderOfUse;
    NoneUsed(c.view);
    c.CaptureAll(segments);
    assert [] + segments == segments;
    c.UseInMemory(segments);
    forall f, isn, stream |
      FirstSeqno(segments, f) == Some(isn) && SlicesOf(segments, f, isn, stream)
      ensures f in c.os.disk && Reassembled(c.os.disk[f], segments, f, isn, stream)
    {
      StreamOnDisk(c, segments, f, isn, stream);
    }
  }
}
