/** The skip list of skiplist/skiplist_full_complete.c: lists layered over one sorted list. */
module SkipList {
  const SKIPLEVEL: nat := 100

  datatype Entry = Entry(key: int, value: int)

  class Node {
    const key: int
    const value: int
    const height: nat
    var forward: seq<Node?>

    // slcreatenode; the caller sets the pointers.
    constructor (height: nat, key: int, value: int)
      ensures this.height == height && this.key == key && this.value == value && |forward| == height
    {
      this.height, this.key, this.value := height, key, value;
      forward := seq(height, _ => null);
    }
  }

  // ---- The lanes over a chain of nodes; the head is node 0 ----

  // The first node from a on that takes part in lane i, or the end.
  function NextAt(c: seq<Node>, a: nat, i: nat): (r: nat)
    requires a <= |c|
    ensures a <= r <= |c| && (r < |c| ==> c[r].height > i)
    ensures forall b {:trigger c[b]} | a <= b < r :: c[b].height <= i
    decreases |c| - a
  {
    if a == |c| || c[a].height > i then a else NextAt(c, a + 1, i)
  }

  function At(c: seq<Node>, a: nat): Node? {
    if a < |c| then c[a] else null
  }

  function NextNode(c: seq<Node>, a: nat, i: nat): Node?
    requires a <= |c|
  {
    At(c, NextAt(c, a, i))
  }

  // Every pointer of lane i leads to the next node of that lane.
  ghost predicate Linked(c: seq<Node>, i: nat)
    reads c
  {
    forall a {:trigger c[a].forward} | 0 <= a < |c| && i < |c[a].forward| ::
      c[a].forward[i] == NextNode(c, a + 1, i)
  }

  ghost predicate Sized(c: seq<Node>)
    reads c
  {
    forall a {:trigger c[a].forward} | 0 <= a < |c| :: |c[a].forward| == c[a].height
  }

  ghost predicate Formed(c: seq<Node>) {
    && (forall a {:trigger c[a].height} | 0 <= a < |c| :: 1 <= c[a].height <= SKIPLEVEL)
    && (forall a, b | 0 <= a < b < |c| :: c[a] != c[b])
  }

  ghost predicate Sorted(c: seq<Node>) {
    forall a, b | 1 <= a < b < |c| :: c[a].value <= c[b].value
  }

  // Lane i holds something.
  predicate Used(c: seq<Node>, i: nat)
    requires |c| > 0
  {
    NextAt(c, 1, i) < |c|
  }

  function With(c: seq<Node>, cut: nat, x: Node): (r: seq<Node>)
    requires cut <= |c|
    ensures |r| == |c| + 1
  {
    c[..cut] + [x] + c[cut..]
  }

  function Without(c: seq<Node>, cut: nat): (r: seq<Node>)
    requires cut < |c|
    ensures |r| == |c| - 1 && With(r, cut, c[cut]) == c
  {
    c[..cut] + c[cut + 1..]
  }

  lemma NextIs(c: seq<Node>, a: nat, i: nat, r: nat)
    requires a <= r <= |c| && (r < |c| ==> c[r].height > i)
    requires forall b {:trigger c[b]} | a <= b < r :: c[b].height <= i
    ensures NextAt(c, a, i) == r
  {
  }

  // How one node in the middle changes who comes next.
  lemma NextWith(c: seq<Node>, cut: nat, x: Node, a: nat, i: nat)
    requires a <= cut <= |c|
    ensures NextAt(With(c, cut, x), a, i) ==
      var n := NextAt(c, a, i); if n < cut then n else if i < x.height then cut else n + 1
  {
    var n, d := NextAt(c, a, i), With(c, cut, x);
    NextIs(d, a, i, if n < cut then n else if i < x.height then cut else n + 1);
  }

  lemma NextAfter(c: seq<Node>, cut: nat, x: Node, a: nat, i: nat)
    requires cut <= a <= |c|
    ensures NextAt(With(c, cut, x), a + 1, i) == NextAt(c, a, i) + 1
  {
    var n, d := NextAt(c, a, i), With(c, cut, x);
    forall b {:trigger d[b]} | a + 1 <= b < n + 1 ensures d[b].height <= i {
      assert d[b] == c[b - 1];
    }
    NextIs(d, a + 1, i, n + 1);
  }

  // The node at a of c, seen in the longer chain: where it is, and who follows it in lane i.
  lemma NodeWith(c: seq<Node>, cut: nat, x: Node, a: nat, i: nat)
    requires cut <= |c| && a < |c|
    ensures var d, b := With(c, cut, x), if a < cut then a else a + 1;
      && d[b] == c[a] && d[cut] == x
      && NextNode(d, b + 1, i) ==
           if a < cut <= NextAt(c, a + 1, i) && i < x.height then x else NextNode(c, a + 1, i)
  {
    hide NextAt;
    if a < cut {
      NextWith(c, cut, x, a + 1, i);
    } else {
      NextAfter(c, cut, x, a + 1, i);
    }
  }

  lemma WithLinked(c: seq<Node>, cut: nat, x: Node, i: nat)
    requires cut <= |c| && Linked(c, i) && |x.forward| <= i && x.height <= i
    ensures Linked(With(c, cut, x), i)
  {
    hide NextAt, NextNode, With;
    var d := With(c, cut, x);
    forall b {:trigger d[b].forward} | 0 <= b < |d| && i < |d[b].forward|
      ensures d[b].forward[i] == NextNode(d, b + 1, i)
    {
      var a := if b <= cut then b else b - 1;
      if b == cut {
        AtCut(c, cut, x);
      } else {
        NodeWith(c, cut, x, a, i);
      }
    }
  }

  lemma AtCut(c: seq<Node>, cut: nat, x: Node)
    requires cut <= |c|
    ensures With(c, cut, x)[cut] == x
  {
  }

  lemma WithoutLinked(c: seq<Node>, cut: nat, x: Node, i: nat)
    requires cut <= |c| && Linked(With(c, cut, x), i) && x.height <= i
    ensures Linked(c, i)
  {
    hide NextAt, NextNode, With;
    forall a {:trigger c[a].forward} | 0 <= a < |c| && i < |c[a].forward|
      ensures c[a].forward[i] == NextNode(c, a + 1, i)
    {
      NodeWith(c, cut, x, a, i);
    }
  }

  // The last node before the cut that takes part in lane i.
  ghost predicate Last(c: seq<Node>, cut: nat, k: nat, i: nat) {
    k < cut <= |c| && c[k].height > i && forall b {:trigger c[b]} | k < b < cut :: c[b].height <= i
  }

  // Of the nodes that take part in lane i, exactly those before number k have their next one before the cut.
  lemma LastNext(c: seq<Node>, cut: nat, k: nat, i: nat, a: nat)
    requires Last(c, cut, k, i) && a < |c|
    ensures a < k ==> NextAt(c, a + 1, i) < cut
    ensures a == k ==> NextAt(c, a + 1, i) >= cut
    ensures k < a < cut ==> c[a].height <= i
  {
    hide NextAt;
  }

  lemma NextOfNew(c: seq<Node>, cut: nat, k: nat, i: nat, x: Node)
    requires Last(c, cut, k, i)
    ensures NextNode(With(c, cut, x), cut + 1, i) == NextNode(c, k + 1, i)
  {
    hide NextAt;
    NextIs(c, k + 1, i, NextAt(c, cut, i));
    NextAfter(c, cut, x, cut, i);
  }

  ghost predicate Alone(c: seq<Node>, k: nat, u: Node) {
    k < |c| && c[k] == u && forall a {:trigger c[a]} | 0 <= a < |c| && a != k :: c[a] != u
  }

  // The new node takes over the pointer of the one before it, which then leads to the new node.
  method Splice(x: Node, u: Node, i: nat, ghost c: seq<Node>, ghost cut: nat, ghost k: nat)
    requires Last(c, cut, k, i) && Alone(c, k, u) && Linked(c, i)
    requires x !in c && |x.forward| == x.height > i && Sized(c)
    modifies x`forward, u`forward
    ensures |x.forward| == x.height && x.forward == old(x.forward)[i := x.forward[i]]
    ensures i < |old(u.forward)| && u.forward == old(u.forward)[i := x]
    ensures Linked(With(c, cut, x), i)
  {
    hide NextAt, NextNode, With;
    assert u.forward[i] == NextNode(c, k + 1, i);
    x.forward := x.forward[i := u.forward[i]];
    u.forward := u.forward[i := x];
    ghost var d := With(c, cut, x);
    forall b {:trigger d[b].forward} | 0 <= b < |d| && i < |d[b].forward|
      ensures d[b].forward[i] == NextNode(d, b + 1, i)
    {
      if b == cut {
        AtCut(c, cut, x);
        NextOfNew(c, cut, k, i, x);
      } else {
        var a := if b < cut then b else b - 1;
        NodeWith(c, cut, x, a, i);
        LastNext(c, cut, k, i, a);
      }
    }
  }

  // Without x, only the pointer at k needs to change, and x holds its new value.
  lemma LinkedBut(c: seq<Node>, cut: nat, x: Node, i: nat, k: nat)
    requires Last(c, cut, k, i) && Linked(With(c, cut, x), i) && i < x.height == |x.forward| && Sized(c)
    ensures forall a {:trigger c[a].forward} | 0 <= a < |c| && i < |c[a].forward| && a != k ::
      c[a].forward[i] == NextNode(c, a + 1, i)
    ensures x.forward[i] == NextNode(c, k + 1, i)
  {
    hide NextAt, NextNode, With;
    AtCut(c, cut, x);
    NextOfNew(c, cut, k, i, x);
    forall a {:trigger c[a].forward} | 0 <= a < |c| && i < |c[a].forward| && a != k
      ensures c[a].forward[i] == NextNode(c, a + 1, i)
    {
      NodeWith(c, cut, x, a, i);
      LastNext(c, cut, k, i, a);
    }
  }

  // Whether the node before leads to x tells whether x takes part in the lane.
  lemma LeadsToNew(c: seq<Node>, cut: nat, x: Node, i: nat, k: nat)
    requires Last(c, cut, k, i) && Linked(With(c, cut, x), i) && x !in c && i < |c[k].forward|
    ensures c[k].forward[i] == x <==> i < x.height
  {
    hide NextAt, With;
    NodeWith(c, cut, x, k, i);
    LastNext(c, cut, k, i, k);
  }

  // If the node before leads to the one deleted, it takes over that one's pointer.
  method Unlink(x: Node, u: Node, i: nat, ghost c: seq<Node>, ghost cut: nat, ghost k: nat)
    requires Last(c, cut, k, i) && Alone(c, k, u) && Linked(With(c, cut, x), i)
    requires x !in c && |x.forward| == x.height && Sized(c)
    modifies u`forward
    ensures |u.forward| == |old(u.forward)| > i && u.forward == old(u.forward)[i := u.forward[i]]
    ensures Linked(c, i)
  {
    hide NextAt, NextNode, With;
    LeadsToNew(c, cut, x, i, k);
    if u.forward[i] == x {
      LinkedBut(c, cut, x, i, k);
      u.forward := u.forward[i := x.forward[i]];
    } else {
      WithoutLinked(c, cut, x, i);
    }
  }

  // ---- How many lanes are in use ----

  function Tallest(c: seq<Node>, a: nat): (r: nat)
    requires a <= |c|
    ensures forall b {:trigger c[b]} | a <= b < |c| :: c[b].height <= r
    ensures r > 0 ==> exists b :: a <= b < |c| && c[b].height == r
    decreases |c| - a
  {
    if a == |c| then 0
    else
      var r := Tallest(c, a + 1);
      if c[a].height > r then c[a].height else r
  }

  lemma UsedBelow(c: seq<Node>, i: nat)
    requires |c| > 0
    ensures Used(c, i) <==> i < Tallest(c, 1)
  {
  }

  lemma TallestIs(c: seq<Node>, r: nat)
    requires |c| > 0
    requires forall i: nat :: Used(c, i) <==> i < r
    ensures Tallest(c, 1) == r
  {
    UsedBelow(c, r);
    UsedBelow(c, Tallest(c, 1));
  }

  lemma TallestBounded(c: seq<Node>)
    requires |c| > 0 && Formed(c)
    ensures Tallest(c, 1) <= SKIPLEVEL
  {
  }

  lemma TallestWith(c: seq<Node>, cut: nat, x: Node)
    requires 1 <= cut <= |c|
    ensures Tallest(With(c, cut, x), 1) == if x.height > Tallest(c, 1) then x.height else Tallest(c, 1)
  {
    hide NextAt, Tallest;
    var d, r := With(c, cut, x), if x.height > Tallest(c, 1) then x.height else Tallest(c, 1);
    forall i: nat ensures Used(d, i) <==> i < r {
      UsedBelow(c, i);
      NextWith(c, cut, x, 1, i);
    }
    TallestIs(d, r);
  }

  // ---- Where a value belongs ----

  // The first entry from a on whose value is at least v, or the end.
  function Cut(c: seq<Node>, a: nat, v: int): (r: nat)
    requires a <= |c|
    ensures a <= r <= |c| && (r < |c| ==> c[r].value >= v)
    ensures forall b {:trigger c[b]} | a <= b < r :: c[b].value < v
    decreases |c| - a
  {
    if a == |c| || c[a].value >= v then a else Cut(c, a + 1, v)
  }

  lemma FormedWith(c: seq<Node>, cut: nat, x: Node)
    requires 1 <= cut <= |c| && Formed(c) && x !in c && 1 <= x.height <= SKIPLEVEL
    ensures Formed(With(c, cut, x)) && With(c, cut, x)[0] == c[0]
    ensures forall i | 0 <= i < |With(c, cut, x)| :: With(c, cut, x)[i] in c || With(c, cut, x)[i] == x
  {
  }

  lemma SortedWith(c: seq<Node>, cut: nat, x: Node)
    requires |c| > 0 && Sorted(c) && cut == Cut(c, 1, x.value)
    ensures Sorted(With(c, cut, x))
  {
    hide Cut;
  }

  // What update[] holds: in each lane below k, the last node before the cut.
  ghost predicate Updates(c: seq<Node>, cut: nat, update: seq<Node?>, last: seq<nat>, k: nat) {
    && k <= |last| && k <= |update|
    && forall i | 0 <= i < k :: Last(c, cut, last[i], i) && Alone(c, last[i], c[last[i]]) && update[i] == c[last[i]]
  }

  lemma UpdatesFewer(c: seq<Node>, cut: nat, update: seq<Node?>, last: seq<nat>, k: nat, n: nat)
    requires Updates(c, cut, update, last, k) && n <= k
    ensures Updates(c, cut, update, last, n)
  {
  }

  lemma UpdatesWithout(c: seq<Node>, cut: nat, x: Node, update: seq<Node?>, last: seq<nat>, k: nat)
    requires cut <= |c| && Formed(With(c, cut, x)) && Updates(With(c, cut, x), cut, update, last, k)
    ensures Updates(c, cut, update, last, k)
  {
    var d := With(c, cut, x);
    forall a | 0 <= a < |c| ensures c[a] == d[if a < cut then a else a + 1] {
    }
  }

  // The lanes below i run through d, the others through c.
  ghost predicate Between(d: seq<Node>, c: seq<Node>, i: nat)
    reads d, c
  {
    && (forall j | 0 <= j < i :: Linked(d, j))
    && (forall j | i <= j < SKIPLEVEL :: Linked(c, j))
  }

  method SpliceLane(x: Node, u: Node, i: nat, ghost c: seq<Node>, ghost cut: nat, ghost k: nat)
    requires Last(c, cut, k, i) && Alone(c, k, u) && i < SKIPLEVEL && Between(With(c, cut, x), c, i)
    requires x !in c && |x.forward| == x.height > i && Sized(c)
    modifies x`forward, u`forward
    ensures |x.forward| == x.height && Sized(c) && Between(With(c, cut, x), c, i + 1)
  {
    hide NextAt, NextNode, With;
    ghost var d := With(c, cut, x);
    assert Linked(c, i);
    Splice(x, u, i, c, cut, k);
    forall j | 0 <= j < i ensures Linked(d, j) {
      assert old(Linked(d, j));
    }
    forall j | i < j < SKIPLEVEL ensures Linked(c, j) {
      assert old(Linked(c, j));
    }
  }

  method UnlinkLane(x: Node, u: Node, i: nat, ghost c: seq<Node>, ghost cut: nat, ghost k: nat)
    requires Last(c, cut, k, i) && Alone(c, k, u) && i < SKIPLEVEL && Between(c, With(c, cut, x), i)
    requires x !in c && |x.forward| == x.height && Sized(c)
    modifies u`forward
    ensures |x.forward| == x.height && Sized(c) && Between(c, With(c, cut, x), i + 1)
  {
    hide NextAt, NextNode, With;
    ghost var d := With(c, cut, x);
    assert Linked(d, i);
    Unlink(x, u, i, c, cut, k);
    forall j | 0 <= j < i ensures Linked(c, j) {
      assert old(Linked(c, j));
    }
    forall j | i < j < SKIPLEVEL ensures Linked(d, j) {
      assert old(Linked(d, j));
    }
  }

  // The lanes that were empty so far start at the head.
  method FillUp(update: array<Node?>, head: Node, level: nat, height: nat,
                ghost c: seq<Node>, ghost cut: nat, ghost last: seq<nat>)
    returns (ghost last': seq<nat>)
    requires Updates(c, cut, update[..], last, level) && |last| == level < height <= SKIPLEVEL <= update.Length
    requires Formed(c) && 0 < cut <= |c| && c[0] == head && head.height == SKIPLEVEL && Tallest(c, 1) <= level
    modifies update
    ensures Updates(c, cut, update[..], last', height)
  {
    hide Tallest;
    last' := last + seq(height - level, _ => 0);
    for i := level to height
      invariant Updates(c, cut, update[..], last', i)
    {
      update[i] := head;
      assert last'[i] == 0 && Last(c, cut, 0, i) && Alone(c, 0, head);
    }
  }

  // The lanes of x, one after the other.
  method Link(x: Node, update: array<Node?>, ghost c: seq<Node>, ghost cut: nat, ghost last: seq<nat>)
    requires Updates(c, cut, update[..], last, x.height) && 1 <= x.height <= SKIPLEVEL
    requires cut <= |c| && Between(With(c, cut, x), c, 0) && x !in c && |x.forward| == x.height && Sized(c)
    modifies x, c
    ensures forall i | 0 <= i < SKIPLEVEL :: Linked(With(c, cut, x), i)
    ensures Sized(With(c, cut, x))
  {
    hide NextAt, Linked;
    for i := 0 to x.height
      invariant update[..] == old(update[..]) && |x.forward| == x.height && Sized(c)
      invariant Between(With(c, cut, x), c, i)
    {
      assert update[..][i] == c[last[i]];
      SpliceLane(x, update[i], i, c, cut, last[i]);
    }
    forall i | x.height <= i < SKIPLEVEL ensures Linked(With(c, cut, x), i) {
      WithLinked(c, cut, x, i);
    }
  }

  // Takes x out of its lanes, one after the other; k is the number of lanes in use.
  method Unlace(x: Node, update: array<Node?>, k: nat, ghost c: seq<Node>, ghost cut: nat, ghost last: seq<nat>)
    requires Updates(c, cut, update[..], last, k) && x.height <= k <= SKIPLEVEL
    requires cut <= |c| && Between(c, With(c, cut, x), 0) && x !in c && |x.forward| == x.height && Sized(c)
    modifies c
    ensures forall i | 0 <= i < SKIPLEVEL :: Linked(c, i)
    ensures Sized(c)
  {
    hide NextAt, Linked;
    for i := 0 to k
      invariant update[..] == old(update[..]) && |x.forward| == x.height && Sized(c)
      invariant Between(c, With(c, cut, x), i)
    {
      assert update[..][i] == c[last[i]];
      UnlinkLane(x, update[i], i, c, cut, last[i]);
    }
    forall i | k <= i < SKIPLEVEL ensures Linked(c, i) {
      WithoutLinked(c, cut, x, i);
    }
  }

  // Counts the level down past the lanes that are now empty.
  method Lower(head: Node, k: nat, ghost c: seq<Node>) returns (level: nat)
    requires |c| > 0 && c[0] == head && head.height == SKIPLEVEL && Sized(c) && Tallest(c, 1) <= k <= SKIPLEVEL
    requires forall i | 0 <= i < SKIPLEVEL :: Linked(c, i)
    ensures level == Tallest(c, 1)
  {
    hide NextAt, Tallest;
    level := k;
    for i := k downto 0
      invariant level == if i > Tallest(c, 1) then i else Tallest(c, 1)
    {
      assert Linked(c, i) && c[0].forward[i] == At(c, NextAt(c, 1, i));
      UsedBelow(c, i);
      if head.forward[i] == null {
        level := level - 1;
      }
    }
  }

  lemma FormedWithout(c: seq<Node>, cut: nat, x: Node)
    requires 1 <= cut <= |c| && Formed(With(c, cut, x)) && Sorted(With(c, cut, x)) && Sized(With(c, cut, x))
    ensures Formed(c) && Sorted(c) && Sized(c) && x !in c && |x.forward| == x.height
    ensures With(c, cut, x)[0] == c[0] && forall i | 0 <= i < |c| :: c[i] in With(c, cut, x)
  {
    var d := With(c, cut, x);
    forall a | 0 <= a < |c| ensures c[a] == d[if a < cut then a else a + 1] {
    }
    assert d[cut] == x;
  }

  lemma SmallerBeforeCut(c: seq<Node>, value: int, n: nat)
    requires Sorted(c) && 1 <= n < |c|
    ensures c[n].value < value <==> n < Cut(c, 1, value)
  {
    hide Cut;
  }

  lemma LastIs(c: seq<Node>, cut: nat, at: nat, i: nat)
    requires at < cut <= |c| && c[at].height > i && cut <= NextAt(c, at + 1, i)
    ensures Last(c, cut, at, i) && NextNode(c, at + 1, i) == NextNode(c, cut, i)
  {
    hide NextAt;
    NextIs(c, cut, i, NextAt(c, at + 1, i));
  }

  // One lane of a search: forward from p while values are smaller.
  method Along(start: Node, i: nat, value: int, inserting: bool, ghost c: seq<Node>, ghost from: nat, ghost cut: nat)
    returns (p: Node, q: Node?, ghost at: nat)
    requires |c| > 0 && Sized(c) && Linked(c, i) && Sorted(c) && cut == Cut(c, 1, value)
    requires from < cut && c[from] == start && start.height > i
    ensures Last(c, cut, at, i) && c[at] == p && q == NextNode(c, cut, i)
  {
    hide NextAt, Cut, Sorted, Last;
    p, at := start, from;
    q := p.forward[i];
    if q != null {
      SmallerBeforeCut(c, value, NextAt(c, at + 1, i));
    }
    if !(q == null || if inserting then q.value >= value else q.value > value) {
      while q != null && q.value < value
        invariant at < cut && c[at] == p && p.height > i
        invariant q == NextNode(c, at + 1, i)
        invariant q != null ==> (q.value < value <==> NextAt(c, at + 1, i) < cut)
        decreases |c| - at
      {
        at := NextAt(c, at + 1, i);
        p := q;
        q := q.forward[i];
        if q != null {
          SmallerBeforeCut(c, value, NextAt(c, at + 1, i));
        }
      }
    }
    LastIs(c, cut, at, i);
  }

  // Nothing at or after n in the list has the value or a smaller one.
  ghost predicate Passed(c: seq<Node>, n: nat, value: int) {
    n < |c| ==> c[n].value > value
  }

  // One lane of slsearch.
  method SearchLane(start: Node, i: nat, value: int, ghost c: seq<Node>, ghost from: nat)
    returns (r: Node?, p: Node, ghost at: nat)
    requires |c| > 0 && Sized(c) && Linked(c, i) && from < |c| && c[from] == start && start.height > i
    requires forall a | 1 <= a <= from :: c[a].value < value
    requires Sorted(c)
    ensures r != null ==> r in c[1..] && r.value == value
    ensures r == null ==> at < |c| && c[at] == p && p.height > i && Passed(c, NextAt(c, at + 1, i), value)
    ensures r == null ==> forall a | 1 <= a <= at :: c[a].value < value
  {
    hide NextAt;
    p, at, r := start, from, null;
    var q := p.forward[i];
    if q == null || q.value > value {
      return;
    }
    while q != null && q.value <= value
      invariant at < |c| && c[at] == p && p.height > i
      invariant q == At(c, NextAt(c, at + 1, i))
      invariant forall a | 1 <= a <= at :: c[a].value < value
      decreases |c| - at
    {
      at := NextAt(c, at + 1, i);
      if q.value == value {
        assert q == c[1..][at - 1];
        return q, p, at;
      }
      p := q;
      q := q.forward[i];
    }
  }

  lemma NoneLeft(c: seq<Node>, at: nat, value: int)
    requires at < |c| && Formed(c) && Sorted(c)
    requires forall a | 1 <= a <= at :: c[a].value < value
    requires Tallest(c, 1) > 0 ==> Passed(c, NextAt(c, at + 1, 0), value)
    ensures forall a | 1 <= a < |c| :: c[a].value != value
  {
  }

  // ---- The lanes as lists ----

  // The nodes that take part in lane i, in order.
  function Lane(c: seq<Node>, i: nat): seq<Node> {
    if c == [] then [] else if c[0].height > i then [c[0]] + Lane(c[1..], i) else Lane(c[1..], i)
  }

  ghost predicate Subsequence(s: seq<Node>, t: seq<Node>) {
    s == [] || (t != [] && (Subsequence(s, t[1..]) || (s[0] == t[0] && Subsequence(s[1..], t[1..]))))
  }

  // n leads through lane i over exactly the nodes of s.
  ghost predicate Follows(n: Node?, s: seq<Node>, i: nat)
    reads s
  {
    if s == [] then n == null else n == s[0] && i < |s[0].forward| && Follows(s[0].forward[i], s[1..], i)
  }

  lemma {:induction false} LaneThins(c: seq<Node>, i: nat)
    ensures Subsequence(Lane(c, i + 1), Lane(c, i))
  {
    if c != [] {
      LaneThins(c[1..], i);
    }
  }

  lemma {:induction false} LaneFollows(c: seq<Node>, a: nat, i: nat)
    requires a <= |c| && Sized(c) && Linked(c, i)
    ensures Follows(At(c, NextAt(c, a, i)), Lane(c[a..], i), i)
    ensures Lane(c[a..], i) != [] <==> NextAt(c, a, i) < |c|
    decreases |c| - a
  {
    if a < |c| {
      assert c[a..][1..] == c[a + 1..];
      LaneFollows(c, a + 1, i);
    }
  }

  lemma {:induction false} BottomLane(c: seq<Node>)
    requires forall a {:trigger c[a]} | 0 <= a < |c| :: c[a].height > 0
    ensures Lane(c, 0) == c
  {
    if c != [] {
      BottomLane(c[1..]);
    }
  }

  // ---- The list as a bag of values ----

  function Entries(c: seq<Node>): (r: seq<Entry>)
    requires |c| > 0
    ensures |r| == |c| - 1
  {
    seq(|c| - 1, i requires 0 <= i < |c| - 1 => Entry(c[i + 1].key, c[i + 1].value))
  }

  predicate Ascending(s: seq<Entry>) {
    forall a, b | 0 <= a < b < |s| :: s[a].value <= s[b].value
  }

  // How many entries stand before the place of v.
  function Before(s: seq<Entry>, v: int): (r: nat)
    ensures r <= |s| && (r < |s| ==> s[r].value >= v)
    ensures forall b | 0 <= b < r :: s[b].value < v
  {
    if s == [] || s[0].value >= v then 0 else 1 + Before(s[1..], v)
  }

  datatype Op = Insert(height: nat, key: int, value: int) | Delete(value: int) | Search(value: int)
  datatype Answer = Inserted | Deleted | NotFound | NullDereference | Found(yes: bool)

  ghost function Step(s: seq<Entry>, op: Op): (seq<Entry>, Answer) {
    var b := Before(s, op.value);
    match op
    case Insert(_, key, v) => (s[..b] + [Entry(key, v)] + s[b..], Inserted)
    case Delete(v) =>
      if b == |s| then (s, NullDereference)
      else if s[b].value == v then (s[..b] + s[b + 1..], Deleted)
      else (s, NotFound)
    case Search(v) => (s, Found(exists e <- s :: e.value == v))
  }

  // t is s with e put in at b, after all smaller values.
  ghost predicate PutIn(s: seq<Entry>, e: Entry, b: nat, t: seq<Entry>) {
    && b <= |s| && t == s[..b] + [e] + s[b..]
    && (forall i | 0 <= i < b :: s[i].value < e.value) && (forall i | b <= i < |s| :: s[i].value >= e.value)
  }

  // t is s without its entry b, the first with value v.
  ghost predicate TakenOut(s: seq<Entry>, v: int, b: nat, t: seq<Entry>) {
    && b < |s| && s[b].value == v && (forall i | 0 <= i < b :: s[i].value < v)
    && t == s[..b] + s[b + 1..]
  }

  // Keys stay with their values, and the other entries keep their order.
  lemma StepOnEntries(s: seq<Entry>, op: Op)
    requires Ascending(s)
    ensures var (t, answer) := Step(s, op);
      match op
      case Insert(_, key, v) => answer == Inserted && exists b: nat :: PutIn(s, Entry(key, v), b, t)
      case Delete(v) =>
        if answer == Deleted then exists b: nat :: TakenOut(s, v, b, t) else t == s && forall e <- s :: e.value != v
      case Search(v) => t == s
  {
    hide Before;
    var b := Before(s, op.value);
    match op
    case Insert(_, key, v) =>
      assert PutIn(s, Entry(key, v), b, Step(s, op).0);
    case Delete(v) =>
      if b < |s| && s[b].value == v {
        assert TakenOut(s, v, b, Step(s, op).0);
      }
    case Search(v) =>
  }

  // A run ends with the operation that crashes.
  ghost function Run(s: seq<Entry>, ops: seq<Op>): (seq<Entry>, seq<Answer>)
    decreases |ops|
  {
    if ops == [] then (s, [])
    else
      var (t, answer) := Step(s, ops[0]);
      if answer == NullDereference then (t, [answer])
      else
        var (u, answers) := Run(t, ops[1..]);
        (u, [answer] + answers)
  }

  lemma RunNone(s: seq<Entry>)
    ensures Run(s, []) == (s, [])
  {
  }

  // A run from its i-th operation on, after the answers so far.
  lemma RunFrom(s: seq<Entry>, ops: seq<Op>, i: nat, answers: seq<Answer>)
    requires i < |ops|
    ensures var (t, a) := Step(s, ops[i]);
      && Run(s, ops[i..]).0 == (if a == NullDereference then t else Run(t, ops[i + 1..]).0)
      && answers + Run(s, ops[i..]).1
         == if a == NullDereference then answers + [a] else answers + [a] + Run(t, ops[i + 1..]).1
  {
    hide Step;
    assert ops[i..][1..] == ops[i + 1..];
    var (t, a) := Step(s, ops[i]);
    assert answers + ([a] + Run(t, ops[i + 1..]).1) == answers + [a] + Run(t, ops[i + 1..]).1;
  }

  function Bag(s: seq<Entry>): multiset<int> {
    if s == [] then multiset{} else multiset{s[0].value} + Bag(s[1..])
  }

  // What the operations mean to somebody who sees only a bag of values.
  ghost function BagStep(m: multiset<int>, op: Op): (multiset<int>, Answer) {
    match op
    case Insert(_, _, v) => (m + multiset{v}, Inserted)
    case Delete(v) =>
      if v in m then (m - multiset{v}, Deleted)
      else if exists w :: w in m && w > v then (m, NotFound)
      else (m, NullDereference)
    case Search(v) => (m, Found(v in m))
  }

  ghost function BagRun(m: multiset<int>, ops: seq<Op>): (multiset<int>, seq<Answer>)
    decreases |ops|
  {
    if ops == [] then (m, [])
    else
      var (n, answer) := BagStep(m, ops[0]);
      if answer == NullDereference then (n, [answer])
      else
        var (o, answers) := BagRun(n, ops[1..]);
        (o, [answer] + answers)
  }

  lemma {:induction false} BagOfBoth(s: seq<Entry>, t: seq<Entry>)
    ensures Bag(s + t) == Bag(s) + Bag(t)
  {
    if s == [] {
      assert s + t == t;
    } else {
      assert (s + t)[1..] == s[1..] + t;
      BagOfBoth(s[1..], t);
    }
  }

  lemma BagOfOne(e: Entry)
    ensures Bag([e]) == multiset{e.value}
  {
  }

  lemma {:induction false} BagHas(s: seq<Entry>, v: int)
    ensures v in Bag(s) <==> exists e <- s :: e.value == v
  {
    if s != [] {
      assert s == [s[0]] + s[1..];
      BagHas(s[1..], v);
    }
  }

  lemma InsertOnBag(s: seq<Entry>, key: int, v: int)
    requires Ascending(s)
    ensures var (t, b) := (s[..Before(s, v)] + [Entry(key, v)] + s[Before(s, v)..], Bag(s));
      Ascending(t) && Bag(t) == b + multiset{v}
  {
    hide Bag, Before;
    var b, e := Before(s, v), Entry(key, v);
    assert s == s[..b] + s[b..];
    BagOfBoth(s[..b], s[b..]);
    BagOfBoth(s[..b] + [e], s[b..]);
    BagOfBoth(s[..b], [e]);
    BagOfOne(e);
  }

  lemma DeleteOnBag(s: seq<Entry>, v: int)
    requires Ascending(s) && Before(s, v) < |s| && s[Before(s, v)].value == v
    ensures var (t, b) := (s[..Before(s, v)] + s[Before(s, v) + 1..], Bag(s));
      Ascending(t) && v in b && Bag(t) == b - multiset{v}
  {
    hide Bag, Before;
    var b := Before(s, v);
    assert s == s[..b] + ([s[b]] + s[b + 1..]);
    BagOfBoth(s[..b], [s[b]] + s[b + 1..]);
    BagOfBoth([s[b]], s[b + 1..]);
    BagOfBoth(s[..b], s[b + 1..]);
    BagOfOne(s[b]);
  }

  // Where a value is not found, what stands at its place tells the other two outcomes apart.
  lemma MissOnBag(s: seq<Entry>, v: int)
    requires Ascending(s)
    ensures v in Bag(s) <==> Before(s, v) < |s| && s[Before(s, v)].value == v
    ensures (exists w :: w in Bag(s) && w >= v) <==> Before(s, v) < |s|
  {
    hide Bag, Before;
    forall w ensures w in Bag(s) <==> exists e <- s :: e.value == w {
      BagHas(s, w);
    }
    var b := Before(s, v);
    if b < |s| {
      assert s[b] in s && s[b].value in Bag(s);
    }
  }

  // A sorted list behaves as its bag, and stays sorted.
  lemma StepOnBag(s: seq<Entry>, op: Op)
    requires Ascending(s)
    ensures Ascending(Step(s, op).0)
    ensures BagStep(Bag(s), op) == (Bag(Step(s, op).0), Step(s, op).1)
  {
    hide Bag, Before, Ascending;
    MissOnBag(s, op.value);
    match op
    case Insert(_, key, v) => InsertOnBag(s, key, v);
    case Delete(v) =>
      if v in Bag(s) {
        DeleteOnBag(s, v);
      }
    case Search(v) => BagHas(s, v);
  }

  lemma {:induction false} RunOnBag(s: seq<Entry>, ops: seq<Op>)
    requires Ascending(s)
    ensures Ascending(Run(s, ops).0)
    ensures BagRun(Bag(s), ops) == (Bag(Run(s, ops).0), Run(s, ops).1)
    decreases |ops|
  {
    hide Step, BagStep, Bag;
    if ops != [] {
      StepOnBag(s, ops[0]);
      RunOnBag(Step(s, ops[0]).0, ops[1..]);
    }
  }

  lemma CutBefore(c: seq<Node>, v: int)
    requires |c| > 0
    ensures Cut(c, 1, v) == 1 + Before(Entries(c), v)
    ensures Cut(c, 1, v) < |c| ==> c[Cut(c, 1, v)].value == Entries(c)[Before(Entries(c), v)].value
  {
    hide Cut, Before;
    var s, b := Entries(c), Before(Entries(c), v);
    assert forall a | 1 <= a < |c| :: c[a].value == s[a - 1].value;
  }

  lemma EntriesHave(c: seq<Node>, v: int)
    requires |c| > 0
    ensures (exists e <- Entries(c) :: e.value == v) <==> exists a :: 1 <= a < |c| && c[a].value == v
  {
    var s := Entries(c);
    assert forall a | 1 <= a < |c| :: c[a].value == s[a - 1].value && s[a - 1] in s;
  }

  lemma EntriesWith(c: seq<Node>, cut: nat, x: Node)
    requires 1 <= cut <= |c|
    ensures Entries(With(c, cut, x)) == Entries(c)[..cut - 1] + [Entry(x.key, x.value)] + Entries(c)[cut - 1..]
  {
  }

  class List {
    const head: Node
    var level: nat
    ghost var chain: seq<Node>

    ghost predicate Valid()
      reads this, chain
    {
      && |chain| > 0 && chain[0] == head && head.height == SKIPLEVEL
      && Formed(chain) && Sorted(chain) && Sized(chain)
      && level == Tallest(chain, 1)
      && forall i: nat | i < SKIPLEVEL :: Linked(chain, i)
    }

    // slcreate
    constructor ()
      ensures Valid() && chain == [head] && level == 0 && fresh(head)
    {
      var h := new Node(SKIPLEVEL, 0, 0);
      for i := 0 to SKIPLEVEL
        invariant |h.forward| == SKIPLEVEL && forall j | 0 <= j < i :: h.forward[j] == null
      {
        h.forward := h.forward[i := null];
      }
      head, level, chain := h, 0, [h];
    }

    // The search both sldelete and slinsert start with; they differ only in how they test an equal value.
    method Descend(value: int, inserting: bool)
      returns (update: array<Node?>, q: Node?, ghost cut: nat, ghost last: seq<nat>)
      requires Valid()
      ensures fresh(update) && update.Length == SKIPLEVEL && |last| == level
      ensures cut == Cut(chain, 1, value) && q == At(chain, cut)
      ensures Updates(chain, cut, update[..], last, level)
    {
      hide NextAt, Cut, Tallest, Linked, Sorted, Sized;
      update := new Node?[SKIPLEVEL](_ => null);
      cut := Cut(chain, 1, value);
      q := null;
      var p, i := head, level;
      ghost var at: nat := 0;
      last := seq(level, _ => 0);
      while i > 0
        invariant 0 <= i <= level <= SKIPLEVEL && |last| == level
        invariant at < cut && chain[at] == p && p.height >= i
        invariant q == if i == level then null else NextNode(chain, cut, i)
        invariant forall j | i <= j < level :: Last(chain, cut, last[j], j) && update[j] == chain[last[j]]
        invariant forall j | i <= j < level :: Alone(chain, last[j], chain[last[j]])
      {
        i := i - 1;
        p, q, at := Along(p, i, value, inserting, chain, at, cut);
        update[i] := p;
        last := last[i := at];
      }
      if level > 0 {
        NextIs(chain, cut, 0, cut);
      }
    }

    // slinsert, with the random level as a parameter
    method Insert(height: nat, key: int, value: int) returns (ghost x: Node)
      requires Valid() && 1 <= height <= SKIPLEVEL
      modifies this, chain
      ensures Valid() && fresh(x) && x.key == key && x.value == value && x.height == height
      ensures chain == With(old(chain), Cut(old(chain), 1, value), x)
      ensures forall i | 0 <= i < |chain| :: chain[i] in old(chain) || chain[i] == x
    {
      hide NextAt, Cut, Tallest, Linked, Sorted, Sized, Formed, Updates, Last, With;
      var update, q; ghost var cut, last;
      update, q, cut, last := Descend(value, true);
      if height > level {
        last := FillUp(update, head, level, height, chain, cut, last);
        level := height;
      }
      var n := new Node(height, key, value);
      x := n;
      ghost var d := With(chain, cut, n);
      UpdatesFewer(chain, cut, update[..], last, level, height);
      Link(n, update, chain, cut, last);
      FormedWith(chain, cut, n);
      TallestWith(chain, cut, n);
      SortedWith(chain, cut, n);
      chain := d;
    }

    // The part of sldelete that changes the list.
    method Remove(x: Node, update: array<Node?>, ghost cut: nat, ghost last: seq<nat>)
      requires Valid() && 1 <= cut < |chain| && chain[cut] == x && Updates(chain, cut, update[..], last, level)
      modifies this, chain
      ensures Valid() && cut <= |chain| && old(chain) == With(chain, cut, x)
      ensures forall i | 0 <= i < |chain| :: chain[i] in old(chain)
    {
      hide NextAt, Tallest, Linked, Sorted, Sized, Formed, Updates, Last, With, Without;
      ghost var c := Without(chain, cut);
      TallestBounded(chain);
      FormedWithout(c, cut, x);
      TallestWith(c, cut, x);
      UpdatesWithout(c, cut, x, update[..], last, level);
      Unlace(x, update, level, c, cut, last);
      level := Lower(head, level, c);
      chain := c;
    }

    // sldelete: the error paths as outcomes, the first of them a read through a null pointer.
    method Delete(value: int) returns (outcome: Answer, ghost x: Node?)
      requires Valid()
      modifies this, chain
      ensures Valid()
      ensures outcome == NullDereference <==> Cut(old(chain), 1, value) == |old(chain)|
      ensures outcome == Deleted <==> x != null
      ensures outcome == NotFound <==> outcome != NullDereference && x == null
      ensures x != null ==> x.value == value && Cut(old(chain), 1, value) <= |chain|
      ensures x != null ==> old(chain) == With(chain, Cut(old(chain), 1, value), x)
      ensures outcome == NotFound ==> old(chain)[Cut(old(chain), 1, value)].value != value
      ensures outcome != Deleted ==> chain == old(chain)
      ensures forall i | 0 <= i < |chain| :: chain[i] in old(chain)
    {
      hide NextAt, Cut, Tallest, Linked, Sorted, Sized, Formed, Updates, Last;
      var update, q; ghost var cut, last;
      update, q, cut, last := Descend(value, false);
      x := null;
      if q == null {
        return NullDereference, null;
      }
      if q.value != value {
        return NotFound, null;
      }
      x := q;
      Remove(q, update, cut, last);
      outcome := Deleted;
    }

    // slsearch
    method Search(value: int) returns (r: Node?)
      requires Valid()
      ensures r != null <==> exists a :: 1 <= a < |chain| && chain[a].value == value
      ensures r != null ==> r in chain[1..] && r.value == value
    {
      hide NextAt, Tallest, Sorted;
      var p, i := head, level;
      ghost var at: nat := 0;
      UsedBelow(chain, level);
      TallestBounded(chain);
      while i > 0
        invariant 0 <= i <= level && at < |chain| && chain[at] == p && p.height >= i
        invariant forall a | 1 <= a <= at :: chain[a].value < value
        invariant i < level ==> Passed(chain, NextAt(chain, at + 1, i), value)
      {
        i := i - 1;
        r, p, at := SearchLane(p, i, value, chain, at);
        if r != null {
          return;
        }
      }
      NoneLeft(chain, at, value);
      r := null;
    }

    // Every lane is the list of the taller nodes, in order, and the lanes in use are the lowest ones.
    lemma Lanes(i: nat)
      requires Valid() && i < SKIPLEVEL
      ensures i < |head.forward| && Follows(head.forward[i], Lane(chain[1..], i), i)
      ensures Lane(chain[1..], i) != [] <==> i < level
      ensures Subsequence(Lane(chain[1..], i + 1), Lane(chain[1..], i))
      ensures Lane(chain[1..], 0) == chain[1..]
    {
      assert Linked(chain, i) && chain[0].forward[i] == At(chain, NextAt(chain, 1, i));
      LaneFollows(chain, 1, i);
      UsedBelow(chain, i);
      LaneThins(chain[1..], i);
      BottomLane(chain[1..]);
    }

    method Perform(op: Op) returns (answer: Answer)
      requires Valid() && (op.Insert? ==> 1 <= op.height <= SKIPLEVEL)
      modifies this, chain
      ensures Valid() && forall i | 0 <= i < |chain| :: chain[i] in old(chain) || fresh(chain[i])
      ensures (Entries(chain), answer) == Step(old(Entries(chain)), op)
    {
      hide Entries, With, Formed, Sorted, Sized, Linked, Tallest, Cut, Before;
      CutBefore(chain, op.value);
      ghost var s, b := Entries(chain), Before(Entries(chain), op.value);
      match op
      case Insert(height, key, value) =>
        ghost var x := Insert(height, key, value);
        EntriesWith(old(chain), b + 1, x);
        answer := Inserted;
      case Delete(value) =>
        ghost var x;
        answer, x := Delete(value);
        if x != null {
          EntriesWith(chain, b + 1, x);
          assert s[b] == Entry(x.key, x.value) && Entries(chain) == s[..b] + s[b + 1..];
        }
      case Search(value) =>
        EntriesHave(chain, value);
        var r := Search(value);
        answer := Found(r != null);
    }

    // Over every run the list gives the answers of a sorted list, until it crashes.
    method PerformAll(ops: seq<Op>) returns (answers: seq<Answer>)
      requires Valid() && forall op <- ops | op.Insert? :: 1 <= op.height <= SKIPLEVEL
      modifies this, chain
      ensures Valid() && (Entries(chain), answers) == Run(old(Entries(chain)), ops)
    {
      hide Step, Run, Entries, Formed, Linked, Sized, Sorted, Tallest;
      answers := [];
      ghost var s := Entries(chain);
      assert ops[0..] == ops && [] + Run(s, ops).1 == Run(s, ops).1;
      for i := 0 to |ops|
        invariant Valid() && forall i | 0 <= i < |chain| :: chain[i] in old(chain) || fresh(chain[i])
        invariant Run(s, ops).0 == Run(Entries(chain), ops[i..]).0
        invariant Run(s, ops).1 == answers + Run(Entries(chain), ops[i..]).1
      {
        RunFrom(Entries(chain), ops, i, answers);
        var answer := Perform(ops[i]);
        answers := answers + [answer];
        if answer == NullDereference {
          return;
        }
      }
      assert ops[|ops|..] == [] && answers + [] == answers;
      RunNone(Entries(chain));
    }
  }
}
