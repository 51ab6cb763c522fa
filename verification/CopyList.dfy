/** Copying a list whose nodes also point at random nodes of it, linklist/copyrandomlist.c. */
module CopyList {
  class Node {
    var val: int
    var next: Node?
    var random: Node?

    constructor (val: int, next: Node?)
      ensures this.val == val && this.next == next && this.random == null
    {
      this.val, this.next, this.random := val, next, null;
    }
  }

  ghost predicate Distinct(s: seq<Node>) {
    forall i, j | 0 <= i < j < |s| :: s[i] != s[j]
  }

  ghost function At(s: seq<Node>, i: nat): Node? {
    if i < |s| then s[i] else null
  }

  // The nodes of s, linked in order and ended by null.
  ghost predicate IsList(head: Node?, s: seq<Node>)
    reads s`next
  {
    && head == At(s, 0)
    && forall i {:trigger s[i].next} | 0 <= i < |s| :: s[i].next == At(s, i + 1)
  }

  // Every random pointer is null or leads to a node of the list.
  ghost predicate RandomsInside(s: seq<Node>)
    reads s`random
  {
    forall i | 0 <= i < |s| :: s[i].random == null || s[i].random in s
  }

  // The random pointer of s[i] leads to s[target[i]], or is null where target[i] is |s|.
  ghost predicate RandomsLead(s: seq<Node>, target: seq<nat>)
    reads s`random
  {
    |target| == |s| && forall i {:trigger s[i].random} | 0 <= i < |s| :: s[i].random == At(s, target[i])
  }

  lemma FindTargets(s: seq<Node>) returns (target: seq<nat>)
    requires RandomsInside(s)
    ensures RandomsLead(s, target)
  {
    target := [];
    while |target| < |s|
      invariant |target| <= |s|
      invariant forall i {:trigger s[i].random} | 0 <= i < |target| :: s[i].random == At(s, target[i])
    {
      var x := s[|target|].random;
      if x == null {
        target := target + [|s|];
      } else {
        var j: nat :| j < |s| && s[j] == x;
        target := target + [j];
      }
    }
  }

  // The copies of the first n nodes, each linked in after its original.
  ghost predicate Interleaved(s: seq<Node>, c: seq<Node>, n: nat)
    reads s`next, c`next
  {
    && n <= |c| <= |s|
    && (forall i {:trigger s[i].next} | 0 <= i < n :: s[i].next == c[i])
    && (forall i {:trigger c[i].next} | 0 <= i < n :: c[i].next == At(s, i + 1))
  }

  ghost predicate Apart(s: seq<Node>, c: seq<Node>) {
    forall i, j | 0 <= i < |s| && 0 <= j < |c| :: s[i] != c[j]
  }

  // The list c repeats s: values, order, and each random pointer to the copy of its target.
  ghost predicate Isomorphic(s: seq<Node>, c: seq<Node>)
    reads s`val, s`random, c`val, c`random
  {
    && |c| == |s|
    && (forall i | 0 <= i < |s| :: c[i].val == s[i].val)
    && (forall i | 0 <= i < |s| :: s[i].random == null <==> c[i].random == null)
    && (forall i, j | 0 <= i < |s| && 0 <= j < |s| :: s[i].random == s[j] <==> c[i].random == c[j])
  }

  method CopyRandomList(head: Node?, ghost s: seq<Node>) returns (r: Node?, ghost c: seq<Node>)
    requires Distinct(s) && IsList(head, s) && RandomsInside(s)
    modifies s`next
    ensures IsList(head, s)
    ensures IsList(r, c) && Distinct(c) && Isomorphic(s, c)
    ensures forall i | 0 <= i < |c| :: fresh(c[i])
  {
    hide Distinct, Apart, Isomorphic, RandomsInside, RandomsLead, Interleaved;
    ghost var target := FindTargets(s);
    c := InsertCopies(head, s);
    CopyRandoms(head, s, c, target);
    TargetsMatch(s, c, target);
    r := Separate(head, s, c);
  }

  lemma TargetsMatch(s: seq<Node>, c: seq<Node>, target: seq<nat>)
    requires |c| == |s| && Distinct(s) && Distinct(c) && RandomsLead(s, target) && RandomsLead(c, target)
    requires forall i | 0 <= i < |s| :: c[i].val == s[i].val
    ensures Isomorphic(s, c)
  {
    forall i, j | 0 <= i < |s| && 0 <= j < |s| ensures s[i].random == s[j] <==> c[i].random == c[j] {
      LeadsTo(s, target, i, j);
      LeadsTo(c, target, i, j);
    }
  }

  lemma LeadsTo(s: seq<Node>, target: seq<nat>, i: nat, j: nat)
    requires Distinct(s) && RandomsLead(s, target) && i < |s| && j < |s|
    ensures s[i].random == s[j] <==> target[i] == j
  {
  }

  lemma NoCopies(s: seq<Node>)
    ensures Distinct([]) && Apart(s, [])
  {
  }

  lemma CopyLast(s: seq<Node>, c: seq<Node>, copy: Node)
    requires Distinct(c) && Apart(s, c) && copy !in s && copy !in c
    ensures Distinct(c + [copy]) && Apart(s, c + [copy])
  {
  }

  lemma DummyFirst(s: seq<Node>, c: seq<Node>, dummy: Node)
    requires Distinct(c) && Apart(s, c) && dummy !in s && dummy !in c
    ensures Distinct([dummy] + c) && Apart(s, [dummy] + c) && Apart([dummy] + c, s)
  {
  }

  // No other node of a list is the one at i.
  lemma Others(s: seq<Node>, i: nat)
    requires Distinct(s) && i < |s|
    ensures forall j | 0 <= j < |s| && j != i :: s[j] != s[i]
  {
  }

  lemma Strangers(s: seq<Node>, c: seq<Node>, i: nat)
    requires Apart(s, c) && i < |s|
    ensures forall j | 0 <= j < |c| :: c[j] != s[i]
  {
  }

  method InsertAfter(p: Node) returns (copy: Node)
    modifies p`next
    ensures fresh(copy) && p.next == copy && copy.next == old(p.next)
    ensures copy.val == p.val && copy.random == null
  {
    copy := new Node(p.val, p.next);
    p.next := copy;
  }

  // First loop: a copy goes in after every node.
  method InsertCopies(head: Node?, ghost s: seq<Node>) returns (ghost c: seq<Node>)
    requires Distinct(s) && IsList(head, s)
    modifies s`next
    ensures Distinct(c) && Apart(s, c) && |c| == |s| && Interleaved(s, c, |s|)
    ensures forall i | 0 <= i < |c| :: fresh(c[i]) && c[i].random == null && c[i].val == s[i].val
  {
    hide Distinct, Apart;
    var p := head;
    c := [];
    NoCopies(s);
    ghost var i := 0;
    while p != null
      invariant 0 <= i == |c| <= |s| && p == At(s, i)
      invariant Distinct(c) && Apart(s, c)
      invariant forall j | 0 <= j < |c| :: fresh(c[j]) && c[j].random == null && c[j].val == s[j].val
      invariant Interleaved(s, c, i)
      invariant forall j {:trigger s[j].next} | i <= j < |s| :: s[j].next == At(s, j + 1)
      decreases |s| - i
    {
      Others(s, i);
      Strangers(s, c, i);
      var next := p.next;
      var copy := InsertAfter(p);
      CopyLast(s, c, copy);
      c := c + [copy];
      p := next;
      i := i + 1;
    }
  }

  // Second loop: the copy's random pointer is one step after the original's.
  method CopyRandoms(head: Node?, ghost s: seq<Node>, ghost c: seq<Node>, ghost target: seq<nat>)
    requires Distinct(c) && Apart(s, c) && |c| == |s| && Interleaved(s, c, |s|) && head == At(s, 0)
    requires RandomsLead(s, target) && forall i {:trigger c[i].random} | 0 <= i < |c| :: c[i].random == null
    modifies c`random
    ensures RandomsLead(s, target) && RandomsLead(c, target)
  {
    var p := head;
    ghost var i := 0;
    while p != null
      invariant 0 <= i <= |s| && p == At(s, i)
      invariant RandomsLead(s, target)
      invariant forall j {:trigger c[j].random} | 0 <= j < i :: c[j].random == At(c, target[j])
      invariant forall j {:trigger c[j].random} | i <= j < |c| :: c[j].random == null
      decreases |s| - i
    {
      assert p.random == At(s, target[i]);
      if p.random != null {
        p.next.random := p.random.next;
      }
      p := p.next.next;
      i := i + 1;
    }
  }

  // Third loop: the copies come out, the original links come back.
  method Separate(head: Node?, ghost s: seq<Node>, ghost c: seq<Node>) returns (r: Node?)
    requires Distinct(s) && Distinct(c) && Apart(s, c) && |c| == |s| && Interleaved(s, c, |s|) && head == At(s, 0)
    modifies s`next, c`next
    ensures IsList(head, s) && IsList(r, c)
  {
    hide Distinct, Apart;
    var dummy := new Node(0, null);
    var tail := dummy;
    var p := head;
    ghost var d := [dummy] + c;
    DummyFirst(s, c, dummy);
    ghost var i := 0;
    while p != null
      invariant 0 <= i <= |s| && p == At(s, i) && tail == d[i] && d[i].next == (if i == 0 then null else At(s, i))
      invariant forall j {:trigger d[j].next} | 0 <= j < i :: d[j].next == At(d, j + 1)
      invariant forall j {:trigger s[j].next} | 0 <= j < i :: s[j].next == At(s, j + 1)
      invariant forall j {:trigger s[j].next} | i <= j < |s| :: s[j].next == At(d, j + 1)
      invariant forall j {:trigger d[j].next} | i < j < |d| :: d[j].next == At(s, j)
      decreases |s| - i
    {
      Others(s, i);
      Others(d, i);
      Strangers(s, d, i);
      Strangers(d, s, i);
      var copy := p.next;
      tail.next := copy;
      tail := copy;
      p.next := copy.next;
      p := p.next;
      i := i + 1;
    }
    DropDummy(d, c);
    r := dummy.next;
  }

  lemma DropDummy(d: seq<Node>, c: seq<Node>)
    requires |d| == |c| + 1 && d[1..] == c
    requires forall j {:trigger d[j].next} | 0 <= j < |d| :: d[j].next == At(d, j + 1)
    ensures IsList(d[0].next, c)
  {
  }
}
