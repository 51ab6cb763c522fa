/** The chain of recycled chunks of redis_ae/tcpproxy/util.c: a bounded queue of bytes. */
module BufferChain {
  import opened Bytes

  const BUFFER_CHUNK_SIZE := 16

  class BufferListNode {
    var data: seq<byte>  // always BUFFER_CHUNK_SIZE bytes
    var size: nat
    var next: BufferListNode?

    constructor ()
      ensures size == 0 && next == null && |data| == BUFFER_CHUNK_SIZE
    {
      data, size, next := seq(BUFFER_CHUNK_SIZE, _ => 0), 0, null;
    }
  }

  function Least(a: nat, b: nat): nat {
    if a < b then a else b
  }

  ghost function At(s: seq<BufferListNode>, i: nat): BufferListNode? {
    if i < |s| then s[i] else null
  }

  function Concat(chunks: seq<seq<byte>>): seq<byte> {
    if chunks == [] then [] else chunks[0] + Concat(chunks[1..])
  }

  lemma {:induction false} ConcatEmpty(chunks: seq<seq<byte>>)
    requires forall i | 0 <= i < |chunks| :: chunks[i] == []
    ensures Concat(chunks) == []
  {
    if chunks != [] {
      ConcatEmpty(chunks[1..]);
    }
  }

  // Bytes added to the last chunk in use come after all the others.
  lemma {:induction false} ConcatAppend(chunks: seq<seq<byte>>, w: nat, bytes: seq<byte>)
    requires w < |chunks| && forall i | w < i < |chunks| :: chunks[i] == []
    ensures Concat(chunks[w := chunks[w] + bytes]) == Concat(chunks) + bytes
  {
    var t := chunks[w := chunks[w] + bytes];
    if w == 0 {
      ConcatEmpty(chunks[1..]);
      assert t[1..] == chunks[1..];
    } else {
      ConcatAppend(chunks[1..], w - 1, bytes);
      assert t[1..] == chunks[1..][w - 1 := chunks[1..][w - 1] + bytes];
    }
  }

  lemma {:induction false} ConcatTrailing(chunks: seq<seq<byte>>)
    ensures Concat(chunks + [[]]) == Concat(chunks)
  {
    if chunks != [] {
      assert (chunks + [[]])[1..] == chunks[1..] + [[]];
      ConcatTrailing(chunks[1..]);
    }
  }

  lemma {:induction false} ConcatBound(chunks: seq<seq<byte>>, size: nat)
    requires forall i | 0 <= i < |chunks| :: |chunks[i]| <= size
    ensures |Concat(chunks)| <= size * |chunks|
  {
    if chunks != [] {
      ConcatBound(chunks[1..], size);
      assert size * |chunks| == size * |chunks[1..]| + size;
    }
  }

  // The read position moves within the first chunk, or past its end.
  lemma DropBytes(chunks: seq<seq<byte>>, pos: nat, len: nat)
    requires chunks != [] && pos + len <= |chunks[0]|
    ensures pos + len <= |Concat(chunks)| && Concat(chunks)[pos..][len..] == Concat(chunks)[pos + len..]
    ensures pos + len == |chunks[0]| ==> Concat(chunks)[pos..][len..] == Concat(chunks[1..] + [[]])
  {
    ConcatTrailing(chunks[1..]);
  }

  // How full the chain is: bytes in the write node, chunks behind it and before it, and the place read next.
  datatype Stock = Stock(size: nat, spare: nat, used: nat, pos: nat) {
    predicate Full() { size == BUFFER_CHUNK_SIZE && spare == 0 }

    predicate Stuck() { size == BUFFER_CHUNK_SIZE && spare > 0 }

    function Pushed(n: nat): Stock {
      if size + n == BUFFER_CHUNK_SIZE && spare > 0 then Stock(0, spare - 1, used + 1, pos) else this.(size := size + n)
    }

    function Popped(n: nat): Stock {
      if used > 0 && pos + n == BUFFER_CHUNK_SIZE then Stock(size, spare + 1, used - 1, 0) else this.(pos := pos + n)
    }

    // The same for any number of bytes, a chunk at a time.
    function PushedAll(n: nat): Stock
      decreases spare
    {
      if n > 0 && spare > 0 && size < BUFFER_CHUNK_SIZE && size + n >= BUFFER_CHUNK_SIZE then
        Stock(0, spare - 1, used + 1, pos).PushedAll(size + n - BUFFER_CHUNK_SIZE)
      else this.(size := size + n)
    }

    function PoppedAll(n: nat): Stock
      decreases used
    {
      if used > 0 && pos + n >= BUFFER_CHUNK_SIZE then
        Stock(size, spare + 1, used - 1, 0).PoppedAll(pos + n - BUFFER_CHUNK_SIZE)
      else this.(pos := pos + n)
    }

    lemma {:induction false} PushLast(n: nat, m: nat)
      requires m > 0 && PushedAll(n).size + m <= BUFFER_CHUNK_SIZE
      ensures PushedAll(n).Pushed(m) == PushedAll(n + m)
      decreases spare
    {
      if n > 0 && spare > 0 && size < BUFFER_CHUNK_SIZE && size + n >= BUFFER_CHUNK_SIZE {
        Stock(0, spare - 1, used + 1, pos).PushLast(size + n - BUFFER_CHUNK_SIZE, m);
      }
    }

    lemma {:induction false} PopLast(n: nat, m: nat)
      requires m > 0 && (PoppedAll(n).used > 0 ==> PoppedAll(n).pos + m <= BUFFER_CHUNK_SIZE)
      ensures PoppedAll(n).Popped(m) == PoppedAll(n + m)
      decreases used
    {
      if used > 0 && pos + n >= BUFFER_CHUNK_SIZE {
        Stock(size, spare + 1, used - 1, 0).PopLast(pos + n - BUFFER_CHUNK_SIZE, m);
      }
    }

    // A stuck chain stays stuck, whatever is read from it.
    lemma {:induction false} StaysStuck(n: nat)
      requires Stuck()
      ensures PoppedAll(n).Stuck()
      decreases used
    {
      if used > 0 && pos + n >= BUFFER_CHUNK_SIZE {
        Stock(size, spare + 1, used - 1, 0).StaysStuck(pos + n - BUFFER_CHUNK_SIZE);
      }
    }

    // Reading gets a chain stuck exactly when it was full and its first chunk of several is read to the end.
    lemma {:induction false} GetsStuck(n: nat)
      requires size <= BUFFER_CHUNK_SIZE && !Stuck()
      ensures PoppedAll(n).Stuck() <==> Full() && used > 0 && pos + n >= BUFFER_CHUNK_SIZE
      decreases used
    {
      if used > 0 && pos + n >= BUFFER_CHUNK_SIZE {
        var t := Stock(size, spare + 1, used - 1, 0);
        if Full() {
          t.StaysStuck(pos + n - BUFFER_CHUNK_SIZE);
        } else {
          t.GetsStuck(pos + n - BUFFER_CHUNK_SIZE);
        }
      }
    }
  }

  class BufferList {
    var head: BufferListNode
    var tail: BufferListNode
    var readPos: nat
    var writeNode: BufferListNode
    ghost const chunks: set<BufferListNode>  // the chunks of the chain, in any order
    ghost var nodes: seq<BufferListNode>
    ghost var w: nat  // where in nodes writeNode is

    ghost predicate Linked()
      requires Owned()
      reads `head, `tail, `writeNode, `nodes, `w, chunks`next
    {
      && w < |nodes| && head == nodes[0] && tail == nodes[|nodes| - 1] && writeNode == nodes[w]
      && (forall i, j | 0 <= i < j < |nodes| :: nodes[i] != nodes[j])
      && (forall i {:trigger nodes[i].next} | 0 <= i < |nodes| :: nodes[i].next == At(nodes, i + 1))
    }

    ghost predicate Owned()
      reads `nodes
    {
      forall x <- nodes :: x in chunks
    }

    // Chunks before the write node are full, chunks after it are empty.
    ghost predicate Filled()
      requires Owned()
      reads `nodes, `w, chunks`data, chunks`size
    {
      && (forall i | 0 <= i < |nodes| :: |nodes[i].data| == BUFFER_CHUNK_SIZE && nodes[i].size <= BUFFER_CHUNK_SIZE)
      && (forall i | 0 <= i < w && i < |nodes| :: nodes[i].size == BUFFER_CHUNK_SIZE)
      && (forall i | w < i < |nodes| :: nodes[i].size == 0)
    }

    // A chunk that has been read to the end is recycled at once unless it is being written.
    ghost predicate Valid()
      reads this, chunks
    {
      && Owned() && Linked() && Filled()
      && readPos <= head.size && (w > 0 ==> readPos < BUFFER_CHUNK_SIZE)
    }

    ghost function Chunks(): (c: seq<seq<byte>>)
      requires Owned() && Filled()
      reads this, chunks
      ensures |c| == |nodes|
      ensures forall i | 0 <= i < |c| :: c[i] == nodes[i].data[..nodes[i].size]
    {
      seq(|nodes|, i requires 0 <= i < |nodes| && nodes[i] in chunks && nodes[i].size <= |nodes[i].data|
                     reads this, chunks => nodes[i].data[..nodes[i].size])
    }

    // The queue: what is stored and not yet read.
    ghost function Bytes(): seq<byte>
      requires Valid()
      reads this, chunks
    {
      Concat(Chunks())[readPos..]
    }

    // No chunk is left to write to.
    ghost predicate Full()
      requires Valid()
      reads this, chunks
    {
      writeNode == tail && writeNode.size == BUFFER_CHUNK_SIZE
    }

    // Free chunks follow a full write node, but it will never move on to them.
    ghost predicate Stuck()
      requires Valid()
      reads this, chunks
    {
      writeNode != tail && writeNode.size == BUFFER_CHUNK_SIZE
    }

    // How many bytes can still be pushed before one is popped.
    ghost function Room(): nat
      requires Valid()
      reads this, chunks
    {
      if writeNode.size == BUFFER_CHUNK_SIZE then 0
      else BUFFER_CHUNK_SIZE * (|nodes| - w) - writeNode.size
    }

    ghost function State(): Stock
      requires Valid()
      reads this, chunks
    {
      Stock(writeNode.size, |nodes| - 1 - w, w, readPos)
    }

    lemma StateTells()
      requires Valid()
      ensures Full() <==> State().Full()
      ensures Stuck() <==> State().Stuck()
      ensures State().size == writeNode.size <= BUFFER_CHUNK_SIZE && State().pos == readPos
      ensures Bytes() != [] || w > 0 ==> readPos < BUFFER_CHUNK_SIZE
      ensures State().used == w && (w > 0 ==> head.size == BUFFER_CHUNK_SIZE)
    {
      Ends();
      if w == 0 {
        OnlyChunk();
      }
    }

    lemma Bounded()
      requires Valid()
      ensures |Bytes()| <= BUFFER_CHUNK_SIZE * |nodes|
    {
      assert readPos <= |Concat(Chunks())| by {
        assert Chunks()[0] == head.data[..head.size];
      }
      ConcatBound(Chunks(), BUFFER_CHUNK_SIZE);
    }

    // AllocBufferList
    constructor (n: int)
      ensures Valid() && Bytes() == [] && |nodes| == (if n < 1 then 1 else n) && Room() == BUFFER_CHUNK_SIZE * |nodes|
      ensures State() == Stock(0, |nodes| - 1, 0, 0)
      ensures fresh(chunks)
    {
      hide Concat;
      var first, last; ghost var s;
      first, last, s := AllocChain(n);
      head, tail, writeNode, readPos := first, last, first, 0;
      nodes, w, chunks := s, 0, set x | x in s;
      new;
      assert Owned() && Linked() && Filled();
      ConcatEmpty(Chunks());
    }

    static method AllocChain(n: int) returns (first: BufferListNode, last: BufferListNode, ghost s: seq<BufferListNode>)
      ensures |s| == (if n < 1 then 1 else n) && first == s[0] && last == s[|s| - 1]
      ensures forall j, k | 0 <= j < k < |s| :: s[j] != s[k]
      ensures forall j | 0 <= j < |s| :: fresh(s[j]) && s[j].size == 0 && |s[j].data| == BUFFER_CHUNK_SIZE
      ensures forall j {:trigger s[j].next} | 0 <= j < |s| :: s[j].next == At(s, j + 1)
    {
      first := new BufferListNode();
      last, s := first, [first];
      var i := 1;
      while i < n
        invariant i == |s| && (i <= n || i == 1) && last == s[i - 1] && first == s[0]
        invariant forall j, k | 0 <= j < k < |s| :: s[j] != s[k]
        invariant forall j | 0 <= j < |s| :: fresh(s[j]) && s[j].size == 0 && |s[j].data| == BUFFER_CHUNK_SIZE
        invariant forall j {:trigger s[j].next} | 0 <= j < |s| :: s[j].next == At(s, j + 1)
      {
        var buf := new BufferListNode();
        last.next := buf;
        last := buf;
        s := s + [buf];
        i := i + 1;
      }
    }

    // Where recv may write: NULL exactly when full; a stuck list hands out a buffer of length 0.
    method GetSpace() returns (found: bool, len: nat)
      requires Valid()
      ensures found == !Full() && len <= BUFFER_CHUNK_SIZE - writeNode.size
      ensures found <==> !State().Full()
      ensures len == 0 <==> Full() || Stuck()
      ensures found ==> len == BUFFER_CHUNK_SIZE - writeNode.size
    {
      if writeNode == tail && writeNode.size == BUFFER_CHUNK_SIZE {
        return false, 0;
      }
      return true, BUFFER_CHUNK_SIZE - writeNode.size;
    }

    // recv storing into the buffer that GetSpace returned: not yet part of the queue.
    method Fill(bytes: seq<byte>)
      requires Valid() && |bytes| <= BUFFER_CHUNK_SIZE - writeNode.size
      modifies writeNode`data
      ensures Valid() && Bytes() == old(Bytes()) && Room() == old(Room()) && State() == old(State())
      ensures writeNode.data[writeNode.size..writeNode.size + |bytes|] == bytes
    {
      hide Concat;
      var size := writeNode.size;
      writeNode.data := writeNode.data[..size] + bytes + writeNode.data[size + |bytes|..];
      assert writeNode.data[..size] == old(writeNode.data[..size]);
      assert forall i | 0 <= i < |nodes| :: old(nodes[i].data[..nodes[i].size]) == nodes[i].data[..nodes[i].size];
      assert Chunks() == old(Chunks());
    }

    // Makes the next len bytes of the write node part of the queue.
    method Push(len: nat)
      requires Valid() && 1 <= len <= BUFFER_CHUNK_SIZE - writeNode.size
      modifies this`writeNode, this`w, writeNode`size
      ensures Valid() && nodes == old(nodes)
      ensures Bytes() == old(Bytes()) + old(writeNode.data[writeNode.size..writeNode.size + len])
      ensures !Stuck() && Room() == old(Room()) - len
      ensures State() == old(State()).Pushed(len)
    {
      hide Concat, BufferList.Linked, BufferList.Filled;
      Ends();
      ghost var added := Grow(len);
      ConcatAppend(old(Chunks()), w, added);
      DropBytes(old(Chunks()), readPos, 0);
      assert Valid() && Bytes() == old(Bytes()) + added;
      if writeNode.size == BUFFER_CHUNK_SIZE && writeNode != tail {
        Advance();
      }
    }

    // recv into the space handed out, and the push of what came.
    method Receive(bytes: seq<byte>)
      requires Valid() && 1 <= |bytes| <= BUFFER_CHUNK_SIZE - writeNode.size
      modifies this`writeNode, this`w, writeNode`size, writeNode`data
      ensures Valid() && Bytes() == old(Bytes()) + bytes
      ensures State() == old(State()).Pushed(|bytes|)
    {
      hide BufferList.Valid, BufferList.Bytes, BufferList.Room, BufferList.Full, BufferList.Stuck, BufferList.State;
      Ends();
      Fill(bytes);
      Push(|bytes|);
    }

    // The write node counts the new bytes as its own.
    method Grow(len: nat) returns (ghost added: seq<byte>)
      requires Owned() && Linked() && Filled() && len <= BUFFER_CHUNK_SIZE - writeNode.size
      modifies writeNode`size
      ensures Owned() && Filled() && writeNode.size == old(writeNode.size) + len
      ensures added == old(writeNode.data[writeNode.size..writeNode.size + len])
      ensures w < |nodes| && Chunks() == old(Chunks())[w := old(Chunks())[w] + added]
      ensures forall i | w < i < |nodes| :: old(Chunks())[i] == []
      ensures head.size >= old(head.size) && (w > 0 ==> head.size == old(head.size))
    {
      added := writeNode.data[writeNode.size..writeNode.size + len];
      writeNode.size := writeNode.size + len;
      assert writeNode.data[..writeNode.size] == old(writeNode.data[..writeNode.size]) + added;
      assert forall i | 0 <= i < |nodes| && i != w ::
          old(nodes[i].data[..nodes[i].size]) == nodes[i].data[..nodes[i].size];
    }

    method Advance()
      requires Valid() && writeNode.size == BUFFER_CHUNK_SIZE && writeNode != tail && readPos < BUFFER_CHUNK_SIZE
      modifies this`writeNode, this`w
      ensures Valid() && Bytes() == old(Bytes()) && w == old(w) + 1 < |nodes| && writeNode.size == 0
    {
      hide Concat;
      assert writeNode.next == At(nodes, w + 1);
      writeNode := writeNode.next;
      w := w + 1;
      assert Chunks() == old(Chunks());
    }

    lemma OnlyChunk()
      requires Valid() && w == 0
      ensures |Bytes()| == head.size - readPos
    {
      ConcatEmpty(Chunks()[1..]);
      assert Chunks()[0] == head.data[..head.size];
    }

    // NULL exactly when the queue is empty; otherwise the oldest bytes, at least one of them.
    method GetData() returns (found: bool, chunk: seq<byte>)
      requires Valid()
      ensures found <==> Bytes() != []
      ensures found ==> chunk != [] && |chunk| == head.size - readPos
      ensures found ==> chunk == head.data[readPos..head.size] && chunk <= Bytes()
      ensures found ==> |chunk| == Least(BUFFER_CHUNK_SIZE - readPos, |Bytes()|)
    {
      ghost var c := Chunks();
      assert c[0] == head.data[..head.size] && Concat(c) == c[0] + Concat(c[1..]);
      if w == 0 {
        ConcatEmpty(c[1..]);
      }
      if head == writeNode && readPos == head.size {
        assert w == 0;
        return false, [];
      }
      return true, head.data[readPos..head.size];
    }

    // What the shape says about the two ends of the chain.
    lemma Ends()
      requires Valid()
      ensures w < |nodes| && writeNode.size <= BUFFER_CHUNK_SIZE && writeNode in chunks
      ensures forall x <- nodes :: x in chunks
      ensures head.size <= BUFFER_CHUNK_SIZE
      ensures (head == writeNode <==> w == 0) && (writeNode == tail <==> w == |nodes| - 1)
      ensures w > 0 ==> head.size == BUFFER_CHUNK_SIZE
      ensures |nodes| >= 1 && Chunks()[0] == head.data[..head.size] && |Chunks()[0]| == head.size
    {
    }

    // Drops len bytes; a chunk read to the end goes back to the end of the chain.
    method Pop(len: nat)
      requires Valid() && 1 <= len <= head.size - readPos
      modifies this, nodes`size, nodes`next
      ensures Valid() && multiset(nodes) == old(multiset(nodes))
      ensures len <= old(|Bytes()|) && Bytes() == old(Bytes())[len..]
      ensures State() == old(State()).Popped(len)
      ensures Bytes() != [] ==> readPos == if old(readPos) + len == BUFFER_CHUNK_SIZE then 0 else old(readPos) + len
      ensures Stuck() <==> old(Stuck()) || (old(Full()) && old(readPos + len == head.size && head != writeNode))
    {
      hide Concat, BufferList.Linked, BufferList.Filled;
      Ends();
      ghost var c := Chunks();
      ghost var bytes := Bytes();
      DropBytes(c, readPos, len);
      readPos := readPos + len;
      assert Chunks() == c;
      if readPos == head.size && head != writeNode {
        Recycle();
        assert bytes[len..] == Concat(c[1..] + [[]]) == Bytes();
      } else {
        assert bytes[len..] == Concat(c)[readPos..] == Bytes();
        if w == 0 {
          OnlyChunk();
        }
      }
    }

    method Recycle()
      requires Owned() && Linked() && Filled() && w > 0
      modifies this, nodes`size, nodes`next
      ensures Owned() && Linked() && Filled()
      ensures nodes == old(nodes)[1..] + [old(nodes)[0]] && multiset(nodes) == old(multiset(nodes))
      ensures Chunks() == old(Chunks())[1..] + [[]] && readPos == 0
      ensures writeNode == old(writeNode) && writeNode.size == old(writeNode.size) && w == old(w) - 1
      ensures writeNode != tail
    {
      hide BufferList.Linked;
      ghost var was, c := nodes, Chunks();
      var cur := MoveHeadToTail();
      forall i | 0 <= i < |nodes| - 1 ensures nodes[i] == was[i + 1] && nodes[i] != cur {
      }
      EmptyChunk(cur, c);
    }

    // The chunk moved to the end of the chain is empty again.
    method EmptyChunk(cur: BufferListNode, ghost c: seq<seq<byte>>)
      requires |nodes| == |c| && Owned() && w < |nodes| - 1 && cur == nodes[|nodes| - 1]
      requires forall i | 0 <= i < |nodes| :: |nodes[i].data| == BUFFER_CHUNK_SIZE
      requires forall i | 0 <= i < |nodes| - 1 :: nodes[i] != cur && nodes[i].size <= BUFFER_CHUNK_SIZE
      requires forall i | 0 <= i < |nodes| - 1 :: c[i + 1] == nodes[i].data[..nodes[i].size]
      requires forall i | 0 <= i < w :: nodes[i].size == BUFFER_CHUNK_SIZE
      requires forall i | w < i < |nodes| - 1 :: nodes[i].size == 0
      modifies `readPos, cur`size
      ensures Filled() && Chunks() == c[1..] + [[]] && readPos == 0
      ensures forall i | 0 <= i < |nodes| - 1 :: nodes[i].size == old(nodes[i].size)
    {
      cur.size := 0;
      readPos := 0;
    }

    method MoveHeadToTail() returns (cur: BufferListNode)
      requires Owned() && Linked() && w > 0
      modifies `head, `tail, `nodes, `w, nodes`next
      ensures Owned() && Linked() && old(nodes) != []
      ensures nodes == old(nodes)[1..] + [old(nodes)[0]] && cur == old(nodes)[0]
      ensures multiset(nodes) == old(multiset(nodes))
      ensures w == old(w) - 1 && w < |nodes| - 1 && writeNode == nodes[w]
      ensures cur == nodes[|nodes| - 1] == tail && forall i | 0 <= i < |nodes| - 1 :: nodes[i] != cur
    {
      cur := head;
      assert head.next == At(nodes, 1);
      head := head.next;  // never NULL: the "head null" exit is dead code
      tail.next := cur;
      tail := cur;
      cur.next := null;
      assert nodes == [cur] + nodes[1..];
      nodes, w := nodes[1..] + [cur], w - 1;
    }
  }
}
