/** The reference model of unp/tcpflow: a plain map from flows to records, every file always open. */
module FlowSpec {
  import opened Bytes
  import opened Streams

  datatype Segment = Segment(flow: FlowId, seqno: u32, data: seq<byte>)

  // The isn is the sequence number of the first segment captured for the flow.
  datatype FlowRecord = FlowRecord(isn: u32, finished: bool, file: Option<seq<byte>>)

  type Flows = map<FlowId, FlowRecord>

  function Offset(seqno: u32, isn: u32): (r: u32)
  {
    (seqno - isn) % 0x1_0000_0000
  }

  function Content(r: FlowRecord): seq<byte> {
    match r.file case None => [] case Some(c) => c
  }

  // bytesPerFlow == 0 means no limit.
  function StoreRecord(r: FlowRecord, s: Segment, bytesPerFlow: nat): FlowRecord {
    var offset := Offset(s.seqno, r.isn);
    if r.finished || offset >= 0xffff_0000 || (bytesPerFlow != 0 && offset > bytesPerFlow) then
      r
    else if bytesPerFlow != 0 && offset + |s.data| > bytesPerFlow then
      FlowRecord(r.isn, true, Some(WriteAt(Content(r), offset, s.data[..bytesPerFlow - offset])))
    else
      FlowRecord(r.isn, false, Some(WriteAt(Content(r), offset, s.data)))
  }

  function RecordOf(flows: Flows, s: Segment): FlowRecord {
    if s.flow in flows then flows[s.flow] else FlowRecord(s.seqno, false, None)
  }

  function Store(flows: Flows, s: Segment, bytesPerFlow: nat): Flows {
    flows[s.flow := StoreRecord(RecordOf(flows, s), s, bytesPerFlow)]
  }

  function StoreAll(flows: Flows, segments: seq<Segment>, bytesPerFlow: nat): Flows {
    if segments == [] then flows
    else
      var last := |segments| - 1;
      Store(StoreAll(flows, segments[..last], bytesPerFlow), segments[last], bytesPerFlow)
  }
}
