/** The two connections of redis_ae/tcpproxy/tcpproxy.c that relay a client's bytes to a server
    and the server's bytes back, each through the other's buffer list. */
module Relay {
  import opened Bytes
  import opened BufferChain

  const CHUNKS := 3
  const MAX_WRITE_PER_EVENT := 1024 * 1024 * 1024

  class Connection {
    const isClient: bool
    const blist: BufferList
    var closeAfterSent: bool   // CLIENT_CLOSE_AFTER_SENT
    var writeEvent: bool       // AE_WRITABLE is registered
    ghost var received: seq<byte>  // everything read from the socket
    ghost var sent: seq<byte>      // everything written to the socket

    constructor (isClient: bool)
      ensures this.isClient == isClient && !closeAfterSent && !writeEvent && received == [] == sent
      ensures blist.Valid() && blist.Bytes() == [] && fresh(blist) && fresh(blist.chunks)
      ensures blist.State() == Stock(0, CHUNKS - 1, 0, 0)
    {
      this.isClient := isClient;
      blist := new BufferList(CHUNKS);
      closeAfterSent, writeEvent := false, false;
      received, sent := [], [];
    }

    // Bytes leave the queue for the socket.
    method Take(count: nat)
      requires blist.Valid() && 1 <= count <= blist.head.size - blist.readPos
      modifies this`sent, blist, blist.chunks
      ensures blist.Valid() && sent + blist.Bytes() == old(sent + blist.Bytes())
      ensures count <= old(|blist.Bytes()|) && blist.Bytes() == old(blist.Bytes())[count..]
      ensures sent == old(sent) + old(blist.Bytes())[..count]
      ensures blist.State() == old(blist.State()).Popped(count)
      ensures blist.Bytes() != [] ==> blist.State().pos == After(old(blist.State()).pos, count)
    {
      hide BufferList.Valid, BufferList.Bytes, BufferList.Room, BufferList.Full, BufferList.Stuck, BufferList.State;
      blist.Ends();
      blist.StateTells();
      ghost var bytes := blist.Bytes();
      blist.Pop(count);
      blist.StateTells();
      sent := sent + bytes[..count];
    }
  }

  datatype Why = Open | ClientFailed | ServerDone

  // What a socket call answers: an error, EAGAIN, zero (the end of the stream), or bytes.
  datatype Recv = RecvError | RecvAgain | RecvEnd | RecvBytes(bytes: seq<byte>)
  datatype Send = SendError | SendAgain | SendNothing | SendBytes(count: nat)

  // recv into len bytes gives at most len of those that have come, and zero when asked for none.
  function ReadSocket(answer: Recv, len: nat): (r: Recv)
    ensures r.RecvBytes? ==> 1 <= |r.bytes| <= len
  {
    match answer
    case RecvBytes(bytes) =>
      var n := Least(|bytes|, len);
      if n == 0 then RecvEnd else RecvBytes(bytes[..n])
    case _ => answer
  }

  // send takes at most the bytes offered.
  function WriteSocket(answer: Send, len: nat): (r: Send)
    ensures r.SendBytes? ==> 1 <= r.count <= len
  {
    match answer
    case SendBytes(count) =>
      var n := Least(count, len);
      if n == 0 then SendNothing else SendBytes(n)
    case _ => answer
  }

  datatype ReadEnd = NoRoom | NoMore | Down

  // What one read event takes from a socket whose recv calls give these answers, when the write node of the
  // list it reads into holds size bytes and spare chunks follow it.
  function Taken(answers: seq<Recv>, size: nat, spare: nat): (seq<byte>, ReadEnd)
    requires size <= BUFFER_CHUNK_SIZE
  {
    if size == BUFFER_CHUNK_SIZE && spare == 0 then ([], NoRoom)
    else if answers == [] then ([], NoMore)
    else
      match ReadSocket(answers[0], BUFFER_CHUNK_SIZE - size)
      case RecvError => ([], Down)
      case RecvEnd => ([], Down)
      case RecvAgain => ([], NoMore)
      case RecvBytes(bytes) =>
        var full := size + |bytes| == BUFFER_CHUNK_SIZE && spare > 0;
        var (more, end) := Taken(answers[1..], if full then 0 else size + |bytes|, if full then spare - 1 else spare);
        (bytes + more, end)
  }

  // With a full write node that is not the tail nothing is ever taken, and bytes waiting look like the end.
  lemma StuckTakesNothing(answers: seq<Recv>, spare: nat)
    requires spare > 0
    ensures Taken(answers, BUFFER_CHUNK_SIZE, spare).0 == []
    ensures answers != [] && answers[0].RecvBytes? ==> Taken(answers, BUFFER_CHUNK_SIZE, spare).1 == Down
  {
  }

  // No recv call fails or reports the end of the stream.
  ghost predicate Alive(answers: seq<Recv>) {
    forall a <- answers :: a.RecvAgain? || (a.RecvBytes? && a.bytes != [])
  }

  // A living stream is taken for an ended one exactly when the list is stuck and bytes are waiting.
  lemma {:induction false} FalseEnd(answers: seq<Recv>, s: Stock)
    requires s.size <= BUFFER_CHUNK_SIZE && Alive(answers)
    ensures Taken(answers, s.size, s.spare).1 == Down <==> s.Stuck() && answers != [] && answers[0].RecvBytes?
    decreases |answers|
  {
    if answers != [] && !s.Stuck() {
      assert answers[0] in answers;
      var r := ReadSocket(answers[0], BUFFER_CHUNK_SIZE - s.size);
      if r.RecvBytes? {
        FalseEnd(answers[1..], s.Pushed(|r.bytes|));
      }
    }
  }

  datatype SendEnd = Drained | Refused | Failed | Enough

  // How much one write event sends when send gives these answers, of total bytes queued from pos in the first chunk on.
  function Given(answers: seq<Send>, pos: nat, total: nat, sofar: nat): (r: (nat, SendEnd))
    requires total > 0 ==> pos < BUFFER_CHUNK_SIZE
    ensures r.0 <= total && (r.1 == Drained ==> r.0 == total)
  {
    if total == 0 then (0, Drained)
    else if answers == [] then (0, Refused)
    else
      match WriteSocket(answers[0], Least(BUFFER_CHUNK_SIZE - pos, total))
      case SendError => (0, Failed)
      case SendAgain => (0, Refused)
      case SendNothing => (0, Refused)
      case SendBytes(n) =>
        if sofar + n > MAX_WRITE_PER_EVENT then (n, Enough)
        else
          var (more, end) := Given(answers[1..], After(pos, n), total - n, sofar + n);
          (n + more, end)
  }

  // A write event stops before the queue is empty or the socket refuses only after more than 1 GiB.
  lemma {:induction false} EndsEarly(answers: seq<Send>, pos: nat, total: nat, sofar: nat)
    requires (total > 0 ==> pos < BUFFER_CHUNK_SIZE) && sofar <= 1073741824
    ensures var g := Given(answers, pos, total, sofar); g.1 == Enough <==> sofar + g.0 > 1073741824
    decreases |answers|
  {
    if total > 0 && answers != [] {
      var r := WriteSocket(answers[0], Least(BUFFER_CHUNK_SIZE - pos, total));
      if r.SendBytes? && sofar + r.count <= 1073741824 {
        EndsEarly(answers[1..], After(pos, r.count), total - r.count, sofar + r.count);
      }
    }
  }

  function After(pos: nat, n: nat): nat {
    if pos + n == BUFFER_CHUNK_SIZE then 0 else pos + n
  }

  // The answer of the k-th call, and of calls beyond the last answer.
  function RecvAt(answers: seq<Recv>, k: nat, len: nat): (r: Recv)
    ensures r.RecvBytes? ==> 1 <= |r.bytes| <= len
  {
    if k < |answers| then ReadSocket(answers[k], len) else RecvAgain
  }

  function SendAt(answers: seq<Send>, k: nat, len: nat): (r: Send)
    ensures r.SendBytes? ==> 1 <= r.count <= len
  {
    if k < |answers| then WriteSocket(answers[k], len) else SendAgain
  }

  // One turn of the sending loop.
  lemma GivenStep(answers: seq<Send>, k: nat, pos: nat, total: nat, sofar: nat)
    requires k <= |answers| && total > 0 && pos < BUFFER_CHUNK_SIZE
    ensures match SendAt(answers, k, Least(BUFFER_CHUNK_SIZE - pos, total))
      case SendBytes(n) =>
        && k < |answers| && n <= total
        && if sofar + n > MAX_WRITE_PER_EVENT then Given(answers[k..], pos, total, sofar) == (n, Enough)
           else var g := Given(answers[k + 1..], After(pos, n), total - n, sofar + n);
             Given(answers[k..], pos, total, sofar) == (n + g.0, g.1)
      case SendError => Given(answers[k..], pos, total, sofar) == (0, Failed)
      case _ => Given(answers[k..], pos, total, sofar) == (0, Refused)
  {
  }

  lemma GivenNone(answers: seq<Send>, pos: nat, sofar: nat)
    ensures Given(answers, pos, 0, sofar) == (0, Drained)
  {
  }

  // Where a write event started, and that it is on its way after k calls and total bytes: what it will have
  // sent in the end is decided by the answers left.
  datatype Beginning = Start(answers: seq<Send>, stock: Stock, queue: seq<byte>, sent: seq<byte>) {
    ghost predicate Ok() {
      queue != [] || stock.used > 0 ==> stock.pos < BUFFER_CHUNK_SIZE
    }
  }

  ghost predicate Sending(start: Beginning, k: nat, total: nat, s: Stock, rest: seq<byte>, sent: seq<byte>)
    requires start.Ok()
  {
    && k <= |start.answers| && total <= |start.queue|
    && rest == start.queue[total..] && sent == start.sent + start.queue[..total]
    && s == start.stock.PoppedAll(total) && (rest != [] ==> s.pos < BUFFER_CHUNK_SIZE)
    && var g := Given(start.answers[k..], s.pos, |rest|, total);
      Given(start.answers, start.stock.pos, |start.queue|, 0) == (total + g.0, g.1)
  }

  // How a write event ended: what was sent, what is left, and where in the chain.
  ghost predicate SentAs(start: Beginning, end: SendEnd, s: Stock, sent: seq<byte>, rest: seq<byte>)
    requires start.Ok()
  {
    var g := Given(start.answers, start.stock.pos, |start.queue|, 0);
    && end == g.1 && sent == start.sent + start.queue[..g.0] && rest == start.queue[g.0..]
    && s == start.stock.PoppedAll(g.0)
  }

  lemma SentEnd(start: Beginning, end: SendEnd, s: Stock, sent: seq<byte>, rest: seq<byte>)
    requires start.Ok() && SentAs(start, end, s, sent, rest)
    ensures end == Given(start.answers, start.stock.pos, |start.queue|, 0).1
    ensures (start.queue == [] ==> end == Drained) && (end == Drained ==> rest == [])
  {
  }

  lemma SendingEnds(start: Beginning, k: nat, total: nat, s: Stock, rest: seq<byte>, sent: seq<byte>)
    requires start.Ok() && Sending(start, k, total, s, rest, sent)
    ensures if rest == [] then SentAs(start, Drained, s, sent, rest)
      else match SendAt(start.answers, k, Least(BUFFER_CHUNK_SIZE - s.pos, |rest|))
        case SendError => SentAs(start, Failed, s, sent, rest)
        case SendBytes(n) => k < |start.answers| && n <= |rest|
        case _ => SentAs(start, Refused, s, sent, rest)
  {
  }

  // n bytes more; where the reading position goes matters only if something is left.
  lemma SendingStep(start: Beginning, k: nat, total: nat, s: Stock, rest: seq<byte>, sent: seq<byte>)
    requires start.Ok() && Sending(start, k, total, s, rest, sent) && rest != []
    requires SendAt(start.answers, k, Least(BUFFER_CHUNK_SIZE - s.pos, |rest|)).SendBytes?
    requires var n := SendAt(start.answers, k, Least(BUFFER_CHUNK_SIZE - s.pos, |rest|)).count;
      n < |rest| ==> s.Popped(n).pos == After(s.pos, n)
    ensures var n := SendAt(start.answers, k, Least(BUFFER_CHUNK_SIZE - s.pos, |rest|)).count;
      if total + n > MAX_WRITE_PER_EVENT then SentAs(start, Enough, s.Popped(n), sent + rest[..n], rest[n..])
      else Sending(start, k + 1, total + n, s.Popped(n), rest[n..], sent + rest[..n])
  {
    hide Given, Stock.PoppedAll;
    var n := SendAt(start.answers, k, Least(BUFFER_CHUNK_SIZE - s.pos, |rest|)).count;
    GivenStep(start.answers, k, s.pos, |rest|, total);
    SliceMore(start.sent, start.queue, total, n);
    start.stock.PopLast(total, n);
    if n == |rest| {
      GivenNone(start.answers[k + 1..], After(s.pos, n), total + n);
      GivenNone(start.answers[k + 1..], s.Popped(n).pos, total + n);
    }
  }

  lemma SendingStarts(start: Beginning)
    requires start.Ok()
    ensures Sending(start, 0, 0, start.stock, start.queue, start.sent)
  {
  }

  // One turn of the reading loop.
  lemma TakenStep(answers: seq<Recv>, k: nat, s: Stock)
    requires k <= |answers| && s.size <= BUFFER_CHUNK_SIZE
    ensures s.Full() ==> Taken(answers[k..], s.size, s.spare) == ([], NoRoom)
    ensures !s.Full() ==> match RecvAt(answers, k, BUFFER_CHUNK_SIZE - s.size)
      case RecvBytes(bytes) =>
        && k < |answers|
        && var p := s.Pushed(|bytes|); var t := Taken(answers[k + 1..], p.size, p.spare);
          Taken(answers[k..], s.size, s.spare) == (bytes + t.0, t.1)
      case RecvAgain => Taken(answers[k..], s.size, s.spare) == ([], NoMore)
      case _ => Taken(answers[k..], s.size, s.spare) == ([], Down)
  {
  }

  // Where a read event started, and that it is on its way after k calls.
  datatype Arriving = Arrival(answers: seq<Recv>, stock: Stock, received: seq<byte>)

  ghost predicate Reading(start: Arriving, k: nat, s: Stock, received: seq<byte>)
    requires start.stock.size <= BUFFER_CHUNK_SIZE
  {
    && k <= |start.answers| && s.size <= BUFFER_CHUNK_SIZE
    && exists got: seq<byte> :: Got(start, k, s, received, got)
  }

  // got has come so far; what comes in the end is decided by the answers left.
  ghost predicate Got(start: Arriving, k: nat, s: Stock, received: seq<byte>, got: seq<byte>)
    requires start.stock.size <= BUFFER_CHUNK_SIZE && s.size <= BUFFER_CHUNK_SIZE && k <= |start.answers|
  {
    && received == start.received + got && s == start.stock.PushedAll(|got|)
    && var t := Taken(start.answers[k..], s.size, s.spare);
      Taken(start.answers, start.stock.size, start.stock.spare) == (got + t.0, t.1)
  }

  // How a read event ended: what was taken, and how full the list is.
  ghost predicate TookAs(start: Arriving, end: ReadEnd, s: Stock, received: seq<byte>)
    requires start.stock.size <= BUFFER_CHUNK_SIZE
  {
    var t := Taken(start.answers, start.stock.size, start.stock.spare);
    end == t.1 && received == start.received + t.0 && s == start.stock.PushedAll(|t.0|)
  }

  lemma ReadingStarts(start: Arriving)
    requires start.stock.size <= BUFFER_CHUNK_SIZE
    ensures Reading(start, 0, start.stock, start.received)
  {
    assert start.answers[0..] == start.answers;
    var t := Taken(start.answers, start.stock.size, start.stock.spare);
    assert [] + t.0 == t.0;
    assert Got(start, 0, start.stock, start.received, []);
  }

  lemma ReadingEnds(start: Arriving, k: nat, s: Stock, received: seq<byte>)
    requires start.stock.size <= BUFFER_CHUNK_SIZE && Reading(start, k, s, received)
    ensures if s.Full() then TookAs(start, NoRoom, s, received)
      else match RecvAt(start.answers, k, BUFFER_CHUNK_SIZE - s.size)
        case RecvBytes(_) => k < |start.answers|
        case RecvAgain => TookAs(start, NoMore, s, received)
        case _ => TookAs(start, Down, s, received)
  {
    hide Taken, Stock.PushedAll;
    var got :| Got(start, k, s, received, got);
    assert got + [] == got;
    TakenStep(start.answers, k, s);
  }

  lemma ReadingStep(start: Arriving, k: nat, s: Stock, received: seq<byte>)
    requires start.stock.size <= BUFFER_CHUNK_SIZE && Reading(start, k, s, received)
    requires !s.Full() && RecvAt(start.answers, k, BUFFER_CHUNK_SIZE - s.size).RecvBytes?
    ensures var bytes := RecvAt(start.answers, k, BUFFER_CHUNK_SIZE - s.size).bytes;
      Reading(start, k + 1, s.Pushed(|bytes|), received + bytes)
  {
    hide Taken, Stock.PushedAll;
    var got :| Got(start, k, s, received, got);
    var bytes := RecvAt(start.answers, k, BUFFER_CHUNK_SIZE - s.size).bytes;
    TakenStep(start.answers, k, s);
    start.stock.PushLast(|got|, |bytes|);
    var p := s.Pushed(|bytes|);
    Associate(start.received, got, bytes, Taken(start.answers[k + 1..], p.size, p.spare).0);
    assert Got(start, k + 1, p, received + bytes, got + bytes);
  }

  lemma Associate(a: seq<byte>, b: seq<byte>, c: seq<byte>, d: seq<byte>)
    ensures (a + b) + c == a + (b + c) && b + (c + d) == (b + c) + d
  {
  }

  lemma SliceMore(base: seq<byte>, queue: seq<byte>, done: nat, n: nat)
    requires done + n <= |queue|
    ensures queue[done..][n..] == queue[done + n..]
    ensures (base + queue[..done]) + queue[done..][..n] == base + queue[..done + n]
  {
  }

  // ---- The relay on values ----

  // A socket that is ready, and what its calls will answer.
  datatype Event = Readable(ofClient: bool, recvs: seq<Recv>) | Writable(ofClient: bool, sends: seq<Send>)

  // One connection: its buffer list, what came from its socket and went to it, and whether it waits to write.
  datatype Side = Side(stock: Stock, queue: seq<byte>, received: seq<byte>, sent: seq<byte>, writeEvent: bool) {
    ghost predicate Ok() {
      stock.size <= BUFFER_CHUNK_SIZE && (queue != [] ==> stock.pos < BUFFER_CHUNK_SIZE)
    }
  }

  // Both connections; closing says that the client is to be closed once everything is sent.
  datatype Proxy = Proxy(client: Side, server: Side, closing: bool, why: Why) {
    function Freed(cause: Why): Proxy {
      Proxy(client.(writeEvent := false), server.(writeEvent := false), closing, cause)
    }

    // An error of the client frees both; one of the server waits until the client has been sent everything.
    function Fails(ofClient: bool): Proxy {
      if ofClient then Freed(ClientFailed)
      else if client.queue == [] then Freed(ServerDone)
      else this.(closing := true)
    }

    // What comes from one side is queued for the other, which then waits to write.
    ghost function Reads(ofClient: bool, answers: seq<Recv>): Proxy
      requires client.Ok() && server.Ok()
    {
      var (c, r) := if ofClient then (client, server) else (server, client);
      var (bytes, end) := Taken(answers, r.stock.size, r.stock.spare);
      var c' := c.(received := c.received + bytes);
      var r' := r.(stock := r.stock.PushedAll(|bytes|), queue := r.queue + bytes,
                   writeEvent := r.writeEvent || bytes != []);
      var p := if ofClient then this.(client := c', server := r') else this.(client := r', server := c');
      if end == Down then p.Fails(ofClient) else p
    }

    ghost function Ends(ofClient: bool, end: SendEnd): Proxy {
      if end == Failed then Fails(ofClient)
      else if end == Drained && ofClient && closing then Freed(ServerDone)
      else this
    }

    // The first bytes queued for a side are sent to it.
    ghost function Writes(ofClient: bool, answers: seq<Send>): Proxy
      requires client.Ok() && server.Ok()
    {
      var c := if ofClient then client else server;
      var (n, end) := Given(answers, c.stock.pos, |c.queue|, 0);
      var c' := c.(stock := c.stock.PoppedAll(n), queue := c.queue[n..], sent := c.sent + c.queue[..n],
                   writeEvent := c.writeEvent && c.queue != []);
      (if ofClient then this.(client := c') else this.(server := c')).Ends(ofClient, end)
    }

    // From here the event leads to p; a freed pair has no events, and a side is written to only if it waits for it.
    ghost predicate Leads(e: Event, p: Proxy) {
      && client.Ok() && server.Ok()
      && p == if why != Open then this
              else match e
                case Readable(ofClient, answers) => Reads(ofClient, answers)
                case Writable(ofClient, answers) =>
                  if (if ofClient then client else server).writeEvent then Writes(ofClient, answers) else this
    }
  }

  // Only the two queues and histories that a read event is about have changed from p to q; then they are as Reads says.
  lemma ReadsTo(p: Proxy, ofClient: bool, answers: seq<Recv>, end: ReadEnd, q: Proxy)
    requires p.client.Ok() && p.server.Ok()
    requires var (c, r) := if ofClient then (p.client, p.server) else (p.server, p.client);
      var (c', r') := if ofClient then (q.client, q.server) else (q.server, q.client);
      && c' == c.(received := c'.received) && c.received == r.sent + r.queue && c'.received == r'.sent + r'.queue
      && r' == r.(stock := r'.stock, queue := r'.queue, writeEvent := r.writeEvent || c'.received != c.received)
      && TookAs(Arrival(answers, r.stock, c.received), end, r'.stock, c'.received)
    requires q.closing == p.closing && q.why == p.why
    ensures p.Reads(ofClient, answers) == if end == Down then q.Fails(ofClient) else q
  {
    hide Taken, Stock.PushedAll;
    var (c, r) := if ofClient then (p.client, p.server) else (p.server, p.client);
    var (c', r') := if ofClient then (q.client, q.server) else (q.server, q.client);
    var bytes := Taken(answers, r.stock.size, r.stock.spare).0;
    SameRest(r.sent, r'.queue, r.queue, bytes);
    assert c'.received == c.received <==> bytes == [] by {
      assert |c'.received| == |c.received| + |bytes|;
    }
  }

  lemma SameRest(a: seq<byte>, b: seq<byte>, c: seq<byte>, d: seq<byte>)
    requires a + b == a + c + d
    ensures b == c + d
  {
    assert b == (a + b)[|a|..] && c + d == (a + c + d)[|a|..];
  }

  lemma WritesTo(p: Proxy, ofClient: bool, answers: seq<Send>, end: SendEnd, q: Proxy)
    requires p.client.Ok() && p.server.Ok()
    requires var c := if ofClient then p.client else p.server; var c' := if ofClient then q.client else q.server;
      && c' == c.(stock := c'.stock, queue := c'.queue, sent := c'.sent, writeEvent := c.writeEvent && c.queue != [])
      && var start := Start(answers, c.stock, c.queue, c.sent);
        start.Ok() && SentAs(start, end, c'.stock, c'.sent, c'.queue)
    requires q.closing == p.closing && q.why == p.why
    requires if ofClient then q.server == p.server else q.client == p.client
    ensures p.Writes(ofClient, answers) == q.Ends(ofClient, end)
  {
    hide Given, Stock.PoppedAll;
  }

  // How an event ends: in an error or the end of the stream, or with everything sent.
  ghost predicate GoesDown(p: Proxy, e: Event)
    requires p.client.Ok() && p.server.Ok()
  {
    match e
    case Readable(ofClient, answers) =>
      var r := if ofClient then p.server else p.client;
      Taken(answers, r.stock.size, r.stock.spare).1 == Down
    case Writable(ofClient, answers) =>
      var c := if ofClient then p.client else p.server;
      c.writeEvent && Given(answers, c.stock.pos, |c.queue|, 0).1 == Failed
  }

  ghost predicate SendsAll(p: Proxy, e: Event)
    requires p.client.Ok() && p.server.Ok()
  {
    && e.Writable? && e.ofClient && p.client.writeEvent
    && Given(e.sends, p.client.stock.pos, |p.client.queue|, 0).1 == Drained
  }

  // An open pair is freed by exactly these events: the client goes down, the server does with nothing queued for the
  // client, or the client has been sent everything after the server went down.
  lemma FreedWhen(p: Proxy, e: Event, q: Proxy)
    requires p.Leads(e, q) && p.why == Open
    ensures q.why == ClientFailed <==> e.ofClient && GoesDown(p, e)
    ensures q.why == ServerDone <==>
      if GoesDown(p, e) then !e.ofClient && q.client.queue == [] else p.closing && SendsAll(p, e)
    ensures q.closing <==> p.closing || (!e.ofClient && GoesDown(p, e) && q.client.queue != [])
  {
    hide Taken, Given, Stock.PushedAll, Stock.PoppedAll;
  }

  class Pair {
    const client: Connection
    const server: Connection
    var why: Why   // Open, or why both connections were freed

    // The two connections share nothing.
    ghost predicate Apart() {
      && client != server && client.blist != server.blist && client.blist.chunks !! server.blist.chunks
      && client.isClient && !server.isClient
    }

    ghost function Footprint(): set<object>
    {
      {this, client, server, client.blist, server.blist} + client.blist.chunks + server.blist.chunks
    }

    // What was sent to one side, followed by what is queued for it, is what the other side sent.
    ghost predicate Faithful(from: Connection, to: Connection)
      requires to.blist.Valid()
      reads from, to, to.blist, to.blist.chunks
    {
      from.received == to.sent + to.blist.Bytes()
    }

    // Queued bytes are waiting for a write event.
    ghost predicate Pending(c: Connection)
      requires c.blist.Valid()
      reads c, c.blist, c.blist.chunks
    {
      c.blist.Bytes() != [] ==> c.writeEvent
    }

    ghost predicate Valid()
      reads this, client, server, client.blist, server.blist, client.blist.chunks, server.blist.chunks
    {
      && Apart() && !server.closeAfterSent
      && client.blist.Valid() && server.blist.Valid()
      && Faithful(client, server) && Faithful(server, client)
      && (why == Open ==> Pending(client) && Pending(server))
      && (why == ServerDone ==> client.blist.Bytes() == [])
    }

    ghost function SideOf(c: Connection): Side
      requires c.blist.Valid()
      reads c, c.blist, c.blist.chunks
    {
      Side(c.blist.State(), c.blist.Bytes(), c.received, c.sent, c.writeEvent)
    }

    ghost function Now(): Proxy
      requires client.blist.Valid() && server.blist.Valid()
      reads this, client, server, client.blist, server.blist, client.blist.chunks, server.blist.chunks
    {
      Proxy(SideOf(client), SideOf(server), client.closeAfterSent, why)
    }

    lemma NowOk()
      requires Valid()
      ensures Now().client.Ok() && Now().server.Ok()
    {
      client.blist.StateTells();
      server.blist.StateTells();
    }

    constructor ()
      ensures Valid() && why == Open && fresh(Footprint()) && !client.closeAfterSent
      ensures client.received == [] == client.sent && server.received == [] == server.sent
      ensures client.blist.State() == server.blist.State() == Stock(0, CHUNKS - 1, 0, 0)
    {
      hide BufferList.Valid, BufferList.Bytes, BufferList.Room, BufferList.Full, BufferList.Stuck, BufferList.State;
      client := new Connection(true);
      server := new Connection(false);
      why := Open;
    }

    function Peer(c: Connection): Connection {
      if c == client then server else client
    }

    // FreeClient: both connections are closed and their events deleted.
    method FreeClient(cause: Why)
      requires Valid() && why == Open && cause != Open
      requires cause == ServerDone ==> client.blist.Bytes() == []
      modifies this`why, client`writeEvent, server`writeEvent
      ensures Valid() && why == cause && !client.writeEvent && !server.writeEvent
      ensures Now() == old(Now()).Freed(cause)
    {
      hide BufferList.Valid, BufferList.Bytes, BufferList.Room, BufferList.Full, BufferList.Stuck;
      client.writeEvent := false;
      server.writeEvent := false;
      why := cause;
    }

    // RemoteDown, CloseAfterSent: the client is freed only when nothing is queued for it.
    method RemoteDown()
      requires Valid() && why == Open
      modifies this`why, client`writeEvent, server`writeEvent, client`closeAfterSent
      ensures Valid() && (why == ServerDone <==> client.blist.Bytes() == []) && why != ClientFailed
      ensures why == Open ==> client.closeAfterSent
      ensures Now() == old(Now()).Fails(false)
    {
      hide BufferList.Valid, BufferList.Bytes, BufferList.Room, BufferList.Full, BufferList.Stuck;
      var found, _ := client.blist.GetData();
      if !found {
        FreeClient(ServerDone);
      } else {
        client.closeAfterSent := true;
      }
    }

    // The error callback of c.
    method OnError(c: Connection)
      requires Valid() && why == Open && c in {client, server}
      modifies this`why, client`writeEvent, server`writeEvent, client`closeAfterSent
      ensures Valid() && (c == client ==> why == ClientFailed)
      ensures c == server ==>
        if client.blist.Bytes() == [] then why == ServerDone else why == Open && client.closeAfterSent
      ensures Now() == old(Now()).Fails(c == client)
    {
      if c.isClient {
        FreeClient(ClientFailed);
      } else {
        RemoteDown();
      }
    }

    // Received bytes go into the peer's buffer list, and the peer waits for a write event.
    method Deliver(c: Connection, bytes: seq<byte>)
      requires Valid() && why == Open && c in {client, server}
      requires 1 <= |bytes| <= BUFFER_CHUNK_SIZE - Peer(c).blist.writeNode.size
      modifies c`received, Peer(c)`writeEvent, Peer(c).blist, Peer(c).blist.chunks
      ensures Valid() && c.received == old(c.received) + bytes && Peer(c).writeEvent
      ensures Peer(c).blist.State() == old(Peer(c).blist.State()).Pushed(|bytes|)
    {
      hide BufferList.Valid, BufferList.Bytes, BufferList.Room, BufferList.Full, BufferList.Stuck, BufferList.State;
      var r := Peer(c);
      r.blist.Ends();
      r.blist.Receive(bytes);
      c.received := c.received + bytes;
      r.writeEvent := true;
    }

    // The loop of ReadIncome: until nothing is left to read or no room is left.
    method ReadLoop(c: Connection, answers: seq<Recv>) returns (end: ReadEnd)
      requires Valid() && why == Open && c in {client, server} && Peer(c).blist.State().size <= BUFFER_CHUNK_SIZE
      modifies c`received, Peer(c)`writeEvent, Peer(c).blist, Peer(c).blist.chunks
      ensures Valid() && Peer(c).writeEvent == (old(Peer(c).writeEvent) || c.received != old(c.received))
      ensures var start := Arrival(answers, old(Peer(c).blist.State()), old(c.received));
        TookAs(start, end, Peer(c).blist.State(), c.received)
    {
      hide BufferList.Valid, BufferList.Bytes, BufferList.Room, BufferList.Full, BufferList.Stuck, BufferList.State,
           Taken, Reading, TookAs, Stock.PushedAll;
      var r, k: nat := Peer(c), 0;
      ghost var start := Arrival(answers, r.blist.State(), c.received);
      ReadingStarts(start);
      while true
        invariant Valid() && k <= |answers| && Reading(start, k, r.blist.State(), c.received)
        invariant |c.received| >= |start.received|
        invariant r.writeEvent == (old(r.writeEvent) || c.received != start.received)
        decreases |answers| - k
      {
        r.blist.StateTells();
        var found, len := r.blist.GetSpace();
        ghost var state, received := r.blist.State(), c.received;
        ReadingEnds(start, k, state, received);
        if !found {
          return NoRoom;
        }
        var result := RecvAt(answers, k, len);
        if !result.RecvBytes? {
          return if result.RecvAgain? then NoMore else Down;
        }
        Deliver(c, result.bytes);
        ReadingStep(start, k, state, received);
        k := k + 1;
      }
    }

    // Reads, and handles the end of the stream or an error. A stuck list hands recv no room at all, and the
    // zero that comes back when bytes are waiting is taken for the end of the stream.
    method ReadIncome(c: Connection, answers: seq<Recv>)
      requires Valid() && why == Open && c in {client, server}
      modifies this`why, client`writeEvent, server`writeEvent, client`closeAfterSent
      modifies c`received, Peer(c).blist, Peer(c).blist.chunks
      ensures Valid() && old(Now()).client.Ok() && old(Now()).server.Ok()
      ensures Now() == old(Now()).Reads(c == client, answers)
    {
      hide BufferList.Valid, BufferList.Bytes, BufferList.Room, BufferList.Full, BufferList.Stuck, BufferList.State,
           Taken, Stock.PushedAll, TookAs;
      NowOk();
      ghost var was := Now();
      var end := ReadLoop(c, answers);
      ReadsTo(was, c == client, answers, end, Now());
      if end == Down {
        OnError(c);
      }
    }

    // Sent bytes leave the queue.
    method Sent(c: Connection, count: nat)
      requires Valid() && why == Open && c in {client, server}
      requires 1 <= count <= c.blist.head.size - c.blist.readPos
      modifies c`sent, c.blist, c.blist.chunks
      ensures Valid() && count <= old(|c.blist.Bytes()|) && c.blist.Bytes() == old(c.blist.Bytes())[count..]
      ensures c.sent == old(c.sent) + old(c.blist.Bytes())[..count]
      ensures c.blist.State() == old(c.blist.State()).Popped(count)
      ensures c.blist.Bytes() != [] ==> c.blist.State().pos == After(old(c.blist.State()).pos, count)
    {
      hide BufferList.Valid, BufferList.Bytes, BufferList.Room, BufferList.Full, BufferList.Stuck, BufferList.State;
      c.Take(count);
    }

    // The loop of SendOutcome: until the queue is empty, the socket takes no more, or enough was sent.
    method SendLoop(c: Connection, answers: seq<Send>) returns (end: SendEnd)
      requires Valid() && why == Open && c in {client, server}
      modifies c`sent, c.blist, c.blist.chunks
      ensures Valid() && Start(answers, old(c.blist.State()), old(c.blist.Bytes()), old(c.sent)).Ok()
      ensures var start := Start(answers, old(c.blist.State()), old(c.blist.Bytes()), old(c.sent));
        SentAs(start, end, c.blist.State(), c.sent, c.blist.Bytes())
    {
      hide BufferList.Valid, BufferList.Bytes, BufferList.Room, BufferList.Full, BufferList.Stuck, BufferList.State,
           Pair.Faithful, Pair.Pending, Given, Sending, SentAs;
      var sofar: nat, k: nat := 0, 0;
      c.blist.StateTells();
      ghost var start := Start(answers, c.blist.State(), c.blist.Bytes(), c.sent);
      SendingStarts(start);
      while true
        invariant Valid() && k <= |answers| && Sending(start, k, sofar, c.blist.State(), c.blist.Bytes(), c.sent)
        decreases |answers| - k
      {
        var found, chunk := c.blist.GetData();
        ghost var state, rest, sent := c.blist.State(), c.blist.Bytes(), c.sent;
        c.blist.StateTells();
        SendingEnds(start, k, sofar, state, rest, sent);
        if !found {
          return Drained;
        }
        var result := SendAt(answers, k, |chunk|);
        if !result.SendBytes? {
          return if result.SendError? then Failed else Refused;
        }
        Sent(c, result.count);
        SendingStep(start, k, sofar, state, rest, sent);
        sofar, k := sofar + result.count, k + 1;
        if sofar > MAX_WRITE_PER_EVENT {
          return Enough;
        }
      }
    }

    // Sends; a client marked to close after sending is freed when its queue is empty.
    method SendOutcome(c: Connection, answers: seq<Send>)
      requires Valid() && why == Open && c in {client, server}
      modifies this`why, client`writeEvent, server`writeEvent, client`closeAfterSent
      modifies c`sent, c.blist, c.blist.chunks
      ensures Valid() && old(Now()).client.Ok() && old(Now()).server.Ok()
      ensures Now() == old(Now()).Writes(c == client, answers)
    {
      hide BufferList.Valid, BufferList.Bytes, BufferList.Room, BufferList.Full, BufferList.Stuck, BufferList.State,
           Given, Stock.PoppedAll, SentAs;
      NowOk();
      ghost var was := Now();
      var found, _ := c.blist.GetData();
      if !found {
        c.writeEvent := false;
      }
      var end := SendLoop(c, answers);
      WritesTo(was, c == client, answers, end, Now());
      SentEnd(Start(answers, (if c == client then was.client else was.server).stock, old(c.blist.Bytes()), old(c.sent)),
              end, c.blist.State(), c.sent, c.blist.Bytes());
      EndSending(c, end);
    }

    method EndSending(c: Connection, end: SendEnd)
      requires Valid() && why == Open && c in {client, server} && (end == Drained ==> c.blist.Bytes() == [])
      modifies this`why, client`writeEvent, server`writeEvent, client`closeAfterSent
      ensures Valid() && Now() == old(Now()).Ends(c == client, end)
    {
      hide BufferList.Valid, BufferList.Bytes;
      if end == Drained && c.closeAfterSent {
        FreeClient(ServerDone);
      } else if end == Failed {
        OnError(c);
      }
    }

    // The event loop over any interleaving of ready sockets; a freed pair has no events left.
    method Serve(events: seq<Event>) returns (ghost states: seq<Proxy>)
      requires Valid()
      modifies Footprint()
      ensures Valid() && |states| == |events| + 1 && states[0] == old(Now()) && states[|events|] == Now()
      ensures forall i | 0 <= i < |events| :: states[i].Leads(events[i], states[i + 1])
      ensures why == ServerDone ==> client.sent == server.received
    {
      hide BufferList.Valid, BufferList.Bytes, BufferList.Room, BufferList.Full, BufferList.Stuck, BufferList.State,
           Proxy.Reads, Proxy.Writes;
      states := [Now()];
      for i := 0 to |events|
        invariant Valid() && |states| == i + 1 && states[0] == old(Now()) && states[i] == Now()
        invariant forall j | 0 <= j < i :: states[j].Leads(events[j], states[j + 1])
      {
        NowOk();
        var c := if events[i].ofClient then client else server;
        if why == Open {
          match events[i]
          case Readable(_, answers) => ReadIncome(c, answers);
          case Writable(_, answers) =>
            if c.writeEvent {
              SendOutcome(c, answers);
            }
        }
        assert states[i].Leads(events[i], Now());
        states := states + [Now()];
      }
    }
  }

  // ---- A pair that loses its stream ----

  const CHUNK: seq<byte> := seq(BUFFER_CHUNK_SIZE, _ => 0)

  lemma ThreeChunks()
    ensures var t := Taken([RecvBytes(CHUNK), RecvBytes(CHUNK), RecvBytes(CHUNK)], 0, CHUNKS - 1);
      t.1 == NoRoom && |t.0| == 48
  {
    hide Taken;
    var a := [RecvBytes(CHUNK), RecvBytes(CHUNK), RecvBytes(CHUNK)];
    assert a[0..] == a && a[3..] == [];
    TakenStep(a, 0, Stock(0, 2, 0, 0));
    TakenStep(a, 1, Stock(0, 1, 1, 0));
    TakenStep(a, 2, Stock(0, 0, 2, 0));
    TakenStep(a, 3, Stock(16, 0, 2, 0));
  }

  lemma ChainFills()
    ensures Stock(0, CHUNKS - 1, 0, 0).PushedAll(48) == Stock(16, 0, 2, 0)
  {
    assert Stock(0, 2, 0, 0).PushedAll(48) == Stock(0, 1, 1, 0).PushedAll(32) == Stock(0, 0, 2, 0).PushedAll(16);
  }

  lemma ChunkLeaves()
    ensures Given([SendBytes(16)], 0, 48, 0) == (16, Refused)
    ensures Stock(16, 0, 2, 0).PoppedAll(16) == Stock(16, 1, 1, 0)
  {
    GivenStep([SendBytes(16)], 0, 0, 48, 0);
  }

  // The server fills all three chunks, the client takes the first of them, and the chain is stuck.
  method GetStuck() returns (p: Pair)
    ensures fresh(p) && fresh(p.Footprint()) && p.Valid() && p.why == Open && p.client.blist.State().Stuck()
    ensures |p.client.blist.Bytes()| == 32 && !p.client.closeAfterSent && |p.server.received| == 48
  {
    hide BufferList.Valid, BufferList.Bytes, BufferList.State, BufferList.Full, BufferList.Stuck,
         Taken, Given, Stock.PushedAll, Stock.PoppedAll;
    p := new Pair();
    ThreeChunks();
    ChainFills();
    ChunkLeaves();
    assert p.client.blist.Bytes() == [];
    p.ReadIncome(p.server, [RecvBytes(CHUNK), RecvBytes(CHUNK), RecvBytes(CHUNK)]);
    assert p.client.blist.State() == Stock(16, 0, 2, 0) && |p.client.blist.Bytes()| == 48;
    p.SendOutcome(p.client, [SendBytes(16)]);
  }

  // The server goes on sending; nothing of it arrives, and the client is marked to be closed.
  method LoseStream() returns (p: Pair)
    ensures p.Valid() && p.why == Open && p.client.closeAfterSent && |p.server.received| == 48
  {
    hide BufferList.Valid, BufferList.Bytes, BufferList.State, BufferList.Full, BufferList.Stuck,
         Taken, Stock.PushedAll;
    p := GetStuck();
    StuckTakesNothing([RecvBytes(CHUNK)], p.client.blist.State().spare);
    p.ReadIncome(p.server, [RecvBytes(CHUNK)]);
  }
}
