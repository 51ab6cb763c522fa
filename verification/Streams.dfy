/** The operating system as unp/tcpflow sees it: files on disk, and a bounded table of
    open streams, each with a file position. A file is named by the flow it records. */
module Streams {
  import opened Bytes

  type u16 = n: nat | n < 0x1_0000
  type u32 = n: nat | n < 0x1_0000_0000

  datatype Option<+T> = None | Some(value: T)

  datatype FlowId = FlowId(src: u32, dst: u32, sport: u16, dport: u16)

  datatype Stream = Stream(file: FlowId, position: nat)

  datatype Mode = ReadUpdate | Truncate

  datatype OpenResult = Opened(os: Os, id: nat) | TooManyFiles | NoSuchFile

  datatype Os = Os(disk: map<FlowId, seq<byte>>, table: map<nat, Stream>, nextId: nat, limit: nat) {
    ghost predicate Valid() {
      forall id <- table :: id < nextId
    }

    // "w" truncates or creates; "r+" keeps the contents and needs the file to exist.
    function Fopen(f: FlowId, mode: Mode): (r: OpenResult)
      requires Valid()
      ensures r == TooManyFiles <==> |table| >= limit
      ensures r.Opened? ==> r.os.Valid()
    {
      if |table| >= limit then TooManyFiles
      else if mode == ReadUpdate && f !in disk then NoSuchFile
      else
        var disk' := if mode == Truncate then disk[f := []] else disk;
        Opened(Os(disk', table[nextId := Stream(f, 0)], nextId + 1, limit), nextId)
    }

    function Fclose(id: nat): (os: Os)
      requires Valid() && id in table
      ensures os.Valid()
    {
      this.(table := table - {id})
    }

    function Fseek(id: nat, position: nat): (os: Os)
      requires Valid() && id in table
      ensures os.Valid()
    {
      this.(table := table[id := table[id].(position := position)])
    }

    // Writes at the stream's position and moves it past the bytes written.
    function Fwrite(id: nat, data: seq<byte>): (os: Os)
      requires Valid() && id in table && table[id].file in disk
      ensures os.Valid()
    {
      var s := table[id];
      this.(disk := disk[s.file := WriteAt(disk[s.file], s.position, data)],
            table := table[id := s.(position := s.position + |data|)])
    }
  }

  function Zeros(n: nat): (z: seq<byte>)
    ensures |z| == n && forall i | 0 <= i < n :: z[i] == 0
  {
    seq(n, _ => 0 as byte)
  }

  // A write past the end leaves a hole that reads as zeros; an empty write changes nothing.
  function WriteAt(content: seq<byte>, offset: nat, data: seq<byte>): (r: seq<byte>)
    ensures |r| == if data == [] || offset + |data| <= |content| then |content| else offset + |data|
    ensures forall i | 0 <= i < |r| ::
              r[i] == if offset <= i < offset + |data| then data[i - offset]
                      else if i < |content| then content[i] else 0
  {
    if data == [] then content
    else if |content| < offset then content + Zeros(offset - |content|) + data
    else content[..offset] + data + if offset + |data| < |content| then content[offset + |data|..] else []
  }
}
