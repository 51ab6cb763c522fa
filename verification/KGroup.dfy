/** Reversing a linked list k nodes at a time, linklist/reverslinklist_K_group.c. */
module KGroup {
  class Node {
    var val: int
    var next: Node?
    constructor (val: int, next: Node?)
      ensures this.val == val && this.next == next
    {
      this.val, this.next := val, next;
    }
  }

  // ---- What the result is ----

  function Reversed<T>(s: seq<T>): (r: seq<T>)
    ensures |r| == |s| && forall i | 0 <= i < |s| :: r[i] == s[|s| - 1 - i]
  {
    seq(|s|, i requires 0 <= i < |s| => s[|s| - 1 - i])
  }

  // Every full group of k reversed, a shorter tail as it was; nothing happens for k < 1.
  function ReverseGroups<T>(s: seq<T>, k: int): (r: seq<T>)
    ensures |r| == |s|
    decreases |s|
  {
    if k < 1 || |s| < k then s else Reversed(s[..k]) + ReverseGroups(s[k..], k)
  }

  function GroupStart(i: nat, k: nat): (r: int)
    requires k >= 1
  {
    i / k * k
  }

  // The mirror place of i in its group of k.
  function Mirror(i: nat, k: nat): (r: int)
    requires k >= 1
  {
    GroupStart(i, k) + k - 1 - i % k
  }

  // Position by position: i moves to the mirror place in its group, if the group is full.
  lemma {:induction false} GroupsAt<T>(s: seq<T>, k: int, i: nat)
    requires i < |s|
    ensures k < 1 ==> ReverseGroups(s, k) == s
    ensures k >= 1 ==>
      if GroupStart(i, k) + k <= |s| then 0 <= Mirror(i, k) < |s| && ReverseGroups(s, k)[i] == s[Mirror(i, k)]
      else ReverseGroups(s, k)[i] == s[i]
    decreases |s|
  {
    hide GroupStart, Mirror;
    if k >= 1 && i < k {
      FirstGroup(i, k);
    } else if k >= 1 && |s| >= k {
      NextGroup(i, k);
      GroupsAt(s[k..], k, i - k);
      assert ReverseGroups(s, k)[i] == ReverseGroups(s[k..], k)[i - k];
    }
  }

  // The same in terms of groups: entry r of full group g is entry k - 1 - r of that group before.
  lemma MirroredInGroup<T>(s: seq<T>, k: nat, g: nat, r: nat)
    requires r < k && g * k + k <= |s|
    ensures 0 <= g * k + k - 1 - r < |s| && ReverseGroups(s, k)[g * k + r] == s[g * k + k - 1 - r]
  {
    DivUnique(g * k + r, k, g, r);
    assert g * k >= 0;
    GroupsAt(s, k, g * k + r);
  }

  lemma FirstGroup(i: nat, k: nat)
    requires i < k
    ensures GroupStart(i, k) == 0 && Mirror(i, k) == k - 1 - i
  {
  }

  lemma NextGroup(i: nat, k: nat)
    requires 1 <= k <= i
    ensures GroupStart(i - k, k) == GroupStart(i, k) - k && Mirror(i - k, k) == Mirror(i, k) - k
    ensures 0 <= GroupStart(i - k, k)
  {
    var q, r := i / k, i % k;
    assert i - k == (q - 1) * k + r;
    DivUnique(i - k, k, q - 1, r);
  }

  lemma DivUnique(n: int, k: int, q: int, r: int)
    requires k > 0 && n == q * k + r && 0 <= r < k
    ensures n / k == q && n % k == r
  {
    var d := n / k - q;
    assert d * k == r - n % k by {
      assert n == (n / k) * k + n % k;
      assert d * k == (n / k) * k - q * k;
    }
    assert (d >= 1 ==> d * k >= k) && (d <= -1 ==> d * k <= -k);
  }

  // Doing it twice gives the list back.
  lemma {:induction false} Involution<T>(s: seq<T>, k: int)
    ensures ReverseGroups(ReverseGroups(s, k), k) == s
    decreases |s|
  {
    hide ReverseGroups, Reversed;
    if k >= 1 && |s| >= k {
      var g, rest := Reversed(s[..k]), ReverseGroups(s[k..], k);
      FirstAndRest(s, k);
      Parts(g, rest);
      FirstAndRest(g + rest, k);
      ReversedTwice(s[..k]);
      Involution(s[k..], k);
      assert s[..k] + s[k..] == s;
    } else {
      FirstAndRest(s, k);
    }
  }

  lemma FirstAndRest<T>(s: seq<T>, k: int)
    ensures ReverseGroups(s, k) == if k < 1 || |s| < k then s else Reversed(s[..k]) + ReverseGroups(s[k..], k)
  {
  }

  lemma Parts<T>(a: seq<T>, b: seq<T>)
    ensures (a + b)[..|a|] == a && (a + b)[|a|..] == b
  {
  }

  lemma ReversedTwice<T>(s: seq<T>)
    ensures Reversed(Reversed(s)) == s
  {
  }

  lemma {:induction false} ReversedKeeps<T>(s: seq<T>)
    ensures multiset(Reversed(s)) == multiset(s)
  {
    if s != [] {
      var last := |s| - 1;
      ReversedKeeps(s[..last]);
      assert s == s[..last] + [s[last]];
      assert Reversed(s) == [s[last]] + Reversed(s[..last]);
    }
  }

  // No node is lost or duplicated.
  lemma {:induction false} GroupsKeep<T>(s: seq<T>, k: int)
    ensures multiset(ReverseGroups(s, k)) == multiset(s)
    decreases |s|
  {
    if k >= 1 && |s| >= k {
      ReversedKeeps(s[..k]);
      GroupsKeep(s[k..], k);
      assert s[..k] + s[k..] == s;
    }
  }

  // ---- Chains of nodes ----

  ghost predicate Distinct(s: seq<Node>) {
    forall i, j | 0 <= i < j < |s| :: s[i] != s[j]
  }

  // The nodes of s are linked in order, the last one to end.
  ghost predicate Chain(s: seq<Node>, end: Node?)
    reads s`next
  {
    && (forall i {:trigger s[i].next} | 0 <= i < |s| - 1 :: s[i].next == s[i + 1])
    && (s != [] ==> s[|s| - 1].next == end)
  }

  function First(s: seq<Node>, end: Node?): Node? {
    if s == [] then end else s[0]
  }

  lemma Split(a: seq<Node>, b: seq<Node>, end: Node?)
    requires Chain(a + b, end)
    ensures Chain(a, First(b, end)) && Chain(b, end)
  {
    var s := a + b;
    forall i {:trigger a[i].next} | 0 <= i < |a| - 1 ensures a[i].next == a[i + 1] {
      assert s[i].next == s[i + 1];
    }
    forall i {:trigger b[i].next} | 0 <= i < |b| - 1 ensures b[i].next == b[i + 1] {
      assert s[|a| + i].next == s[|a| + i + 1];
    }
    if a != [] && b != [] {
      assert s[|a| - 1].next == s[|a|];
    }
    assert a != [] ==> s[|a| - 1] == a[|a| - 1];
    assert b != [] ==> s[|s| - 1] == b[|b| - 1];
  }

  lemma Join(a: seq<Node>, b: seq<Node>, end: Node?)
    requires Chain(a, First(b, end)) && Chain(b, end)
    ensures Chain(a + b, end)
  {
  }

  method Reverse(head: Node?, ghost s: seq<Node>) returns (r: Node?)
    requires Distinct(s) && Chain(s, null) && head == First(s, null)
    modifies s`next
    ensures Chain(Reversed(s), null) && r == First(Reversed(s), null)
  {
    var h := head;
    r := null;
    ghost var i := 0;
    while h != null
      invariant 0 <= i <= |s|
      invariant h == First(s[i..], null)
      invariant forall j {:trigger s[j].next} | i <= j < |s| :: s[j].next == First(s[j + 1..], null)
      invariant r == if i == 0 then null else s[i - 1]
      invariant i > 0 ==> s[0].next == null
      invariant forall j {:trigger s[j].next} | 0 < j < i :: s[j].next == s[j - 1]
      decreases |s| - i
    {
      assert h == s[i];
      var next := h.next;
      h.next := r;
      r := h;
      h := next;
      i := i + 1;
    }
  }

  // The inner counting loop: the last node of a full group at the head of rest, or null.
  method GroupEnd(head: Node?, k: int, ghost rest: seq<Node>) returns (q: Node?)
    requires Chain(rest, null) && head == First(rest, null)
    ensures q == if 1 <= k <= |rest| then rest[k - 1] else null
  {
    var n := k;
    q := head;
    ghost var t := 0;
    while q != null
      invariant 0 <= t <= |rest| && n == k - t && (k >= 1 ==> t < k)
      invariant q == First(rest[t..], null)
      decreases |rest| - t
    {
      n := n - 1;
      if n == 0 {
        break;
      }
      q := q.next;
      t := t + 1;
    }
  }

  // Cuts the first k nodes of rest out, reverses them and links them back in after p.
  method FlipGroup(p: Node, q: Node, k: int, ghost done: seq<Node>, ghost rest: seq<Node>) returns (last: Node)
    requires Distinct(done + rest) && Chain(done, First(rest, null)) && Chain(rest, null)
    requires done != [] && p == done[|done| - 1] && 1 <= k <= |rest| && q == rest[k - 1]
    modifies p`next, rest`next
    ensures Chain(done + Reversed(rest[..k]) + rest[k..], null)
    ensures last == rest[0]
  {
    hide Reversed;
    ghost var group, tail := rest[..k], rest[k..];
    assert group + tail == rest;
    Split(group, tail, null);
    DistinctParts(done, group, tail);
    ghost var whole := done + rest;
    assert p == whole[|done| - 1] && q == whole[|done| + k - 1];
    assert forall i | 0 <= i < |group| :: group[i] == whole[|done| + i];
    last := p.next;
    assert last == group[0];
    var next := q.next;
    q.next := null;
    assert Chain(group, null) && Chain(tail, null);
    var first := Reverse(p.next, group);
    LinkBack(p, last, first, next, done, Reversed(group), tail, group[0]);
  }

  method LinkBack(p: Node, last: Node, first: Node, next: Node?,
                  ghost done: seq<Node>, ghost flipped: seq<Node>, ghost tail: seq<Node>, ghost end: Node)
    requires done != [] && p == done[|done| - 1] && Chain(done, end) && Chain(tail, null) && next == First(tail, null)
    requires flipped != [] && first == flipped[0] && last == flipped[|flipped| - 1] && Chain(flipped, null)
    requires Distinct(done) && Distinct(flipped) && p !in flipped && p !in tail && last !in done && last !in tail
    modifies p`next, last`next
    ensures Chain(done + flipped + tail, null)
  {
    p.next := first;
    last.next := next;
    Join(done, flipped, First(tail, null));
    Join(done + flipped, tail, null);
  }

  // The three parts share no node.
  lemma DistinctParts(done: seq<Node>, group: seq<Node>, tail: seq<Node>)
    requires Distinct(done + (group + tail))
    ensures Distinct(done) && Distinct(group) && Distinct(tail) && Distinct(Reversed(group))
    ensures forall i, j | 0 <= i < |done| && 0 <= j < |group| :: done[i] != group[j]
    ensures forall i, j | 0 <= i < |done| && 0 <= j < |tail| :: done[i] != tail[j]
    ensures forall i, j | 0 <= i < |group| && 0 <= j < |tail| :: group[i] != tail[j]
  {
    var s := done + (group + tail);
    assert forall i | 0 <= i < |group| :: s[|done| + i] == group[i];
    assert forall i | 0 <= i < |tail| :: s[|done| + |group| + i] == tail[i];
    assert forall i | 0 <= i < |done| :: s[i] == done[i];
  }

  lemma ShortTail(s: seq<Node>, k: int)
    requires k < 1 || |s| < k || |s| == 1
    ensures ReverseGroups(s, k) == s
  {
  }

  lemma Finish(done: seq<Node>, rest: seq<Node>, result: seq<Node>)
    requires done != [] && Chain(done + rest, null) && done[1..] + rest == result
    ensures Chain(result, null) && done[0].next == First(result, null)
  {
    assert [done[0]] + result == done + rest;
    Split([done[0]], result, null);
  }

  method ReverseKGroup(head: Node?, k: int, ghost s: seq<Node>) returns (r: Node?)
    requires Distinct(s) && Chain(s, null) && head == First(s, null)
    modifies s`next
    ensures Chain(ReverseGroups(s, k), null) && r == First(ReverseGroups(s, k), null)
  {
    hide ReverseGroups;
    assert |s| >= 2 ==> s[0].next == s[1];
    if head == null || head.next == null {
      ShortTail(s, if s == [] then 0 else k);
      return head;
    }
    var dummy := new Node(0, head);
    var p := dummy;
    ghost var done, rest := [dummy], s;
    Join(done, rest, null);
    while p.next != null
      invariant done != [] && done[0] == dummy && p == done[|done| - 1]
      invariant Distinct(done + rest) && Chain(done + rest, null)
      invariant (p == dummy || p in s) && forall x <- rest :: x in s
      invariant done[1..] + ReverseGroups(rest, k) == ReverseGroups(s, k)
      decreases |rest|
    {
      Split(done, rest, null);
      var q := GroupEnd(p.next, k, rest);
      if q == null {
        break;
      }
      assert forall i | 0 <= i < |rest| :: rest[i] in s;
      p := FlipGroup(p, q, k, done, rest);
      FlipKeeps(done, rest, k);
      done, rest := done + Reversed(rest[..k]), rest[k..];
    }
    Split(done, rest, null);
    ShortTail(rest, k);
    Finish(done, rest, ReverseGroups(s, k));
    r := dummy.next;
  }

  lemma FlipKeeps(done: seq<Node>, rest: seq<Node>, k: int)
    requires done != [] && 1 <= k <= |rest| && Distinct(done + rest)
    ensures var done', rest' := done + Reversed(rest[..k]), rest[k..];
      && done'[1..] + ReverseGroups(rest', k) == done[1..] + ReverseGroups(rest, k)
      && Distinct(done' + rest') && (forall x <- rest' :: x in rest)
      && done'[|done'| - 1] == rest[0]
  {
    var s, t := done + rest, done + Reversed(rest[..k]) + rest[k..];
    forall i | 0 <= i < |t| ensures t[i] == s[if |done| <= i < |done| + k then 2 * |done| + k - 1 - i else i] {
    }
  }
}
