/** The descriptor ring of unp/tcpflow/flow.c on values: what closing, sorting, contracting and
    placing a flow do to the slots, the flow variables and the operating system. */
module FdRing {
  import opened Bytes
  import opened Streams
  import opened FlowSpec

  datatype Vars = Vars(isn: u32, fp: Option<nat>, pos: nat, finished: bool, fileExists: bool, lastAccess: nat)

  type Slots = seq<Option<FlowId>>

  // max_fds is |slots|.
  datatype View = View(vars: map<FlowId, Vars>, slots: Slots, nextSlot: int, now: nat, os: Os)

  // ---- What must hold ----

  ghost predicate Distinct(slots: Slots) {
    forall i, j | 0 <= i < j < |slots| && slots[i].Some? :: slots[i] != slots[j]
  }

  // Slots in use come first; after a contraction every slot is in use.
  ghost predicate SlotsOk(v: View) {
    && -1 <= v.nextSlot < |v.slots|
    && Distinct(v.slots)
    && (forall i | 0 <= i < |v.slots| && v.slots[i].Some? :: v.slots[i].value in v.vars)
    && (forall i | 0 <= i <= v.nextSlot :: v.slots[i].Some?)
    && ((forall i | 0 <= i < |v.slots| :: v.slots[i].Some?)
        || (forall i | v.nextSlot < i < |v.slots| :: v.slots[i].None?))
  }

  // The cached position of an open file is the real one.
  ghost predicate FlowOk(v: View, f: FlowId)
    requires f in v.vars
  {
    var s := v.vars[f];
    && s.lastAccess < v.now
    && (s.fileExists ==> f in v.os.disk)
    && (s.fp == None ==> s.pos == 0)
    && (s.fp.Some? ==> f in v.os.disk && s.fp.value in v.os.table && v.os.table[s.fp.value] == Stream(f, s.pos))
  }

  ghost predicate FlowsOk(v: View) {
    && v.os.Valid()
    && (forall f <- v.vars :: FlowOk(v, f))
    && AgesDistinct(v.vars)
    && TableOk(v.vars, v.os.table)
  }

  ghost predicate AgesDistinct(vars: map<FlowId, Vars>) {
    forall f, g | f in vars && g in vars && f != g :: vars[f].lastAccess != vars[g].lastAccess
  }

  ghost predicate TableOk(vars: map<FlowId, Vars>, table: map<nat, Stream>) {
    forall id <- table :: table[id].file in vars && vars[table[id].file].fp == Some(id)
  }

  // Open files are in the ring; a closed one there will never be opened again.
  // The flow exempt is in the middle of being opened.
  ghost predicate OpenOk(v: View, exempt: Option<FlowId>) {
    && (forall f <- v.vars :: v.vars[f].fp.Some? && Some(f) != exempt ==> v.vars[f].fileExists && Some(f) in v.slots)
    && (forall f <- v.vars :: Some(f) in v.slots && Some(f) != exempt ==> v.vars[f].fp.Some? || v.vars[f].finished)
  }

  ghost predicate Inv(v: View) {
    && SlotsOk(v) && FlowsOk(v) && OpenOk(v, None)
    && 1 <= |v.slots| && 2 <= v.os.limit && |v.os.table| <= v.os.limit
  }

  // What the reader of the output sees: the record of each flow.
  ghost function Records(v: View): Flows {
    map f | f in v.vars :: FlowRecord(v.vars[f].isn, v.vars[f].finished, File(v.vars[f], v.os.disk, f))
  }

  function File(s: Vars, disk: map<FlowId, seq<byte>>, f: FlowId): Option<seq<byte>> {
    if s.fileExists && f in disk then Some(disk[f]) else None
  }

  // ---- flow_state_compare and qsort ----

  // Least recently used first, empty slots last.
  predicate Before(x: Option<FlowId>, y: Option<FlowId>, vars: map<FlowId, Vars>)
    requires x.Some? ==> x.value in vars
    requires y.Some? ==> y.value in vars
  {
    y.None? || (x.Some? && vars[x.value].lastAccess <= vars[y.value].lastAccess)
  }

  predicate Known(s: Slots, vars: map<FlowId, Vars>) {
    forall x <- s :: x.Some? ==> x.value in vars
  }

  ghost predicate SortedByAge(s: Slots, vars: map<FlowId, Vars>)
    requires Known(s, vars)
  {
    forall i, j | 0 <= i < j < |s| :: Before(s[i], s[j], vars)
  }

  function Insert(x: Option<FlowId>, s: Slots, vars: map<FlowId, Vars>): (r: Slots)
    requires Known([x] + s, vars)
    ensures Known(r, vars) && |r| == |s| + 1
  {
    if s == [] || Before(x, s[0], vars) then [x] + s
    else [s[0]] + Insert(x, s[1..], vars)
  }

  function Sorted(s: Slots, vars: map<FlowId, Vars>): (r: Slots)
    requires Known(s, vars)
    ensures Known(r, vars) && |r| == |s|
  {
    if s == [] then [] else Insert(s[0], Sorted(s[1..], vars), vars)
  }

  lemma {:induction false} InsertPermutes(x: Option<FlowId>, s: Slots, vars: map<FlowId, Vars>)
    requires Known([x] + s, vars)
    ensures multiset(Insert(x, s, vars)) == multiset(s) + multiset{x}
  {
    if s != [] && !Before(x, s[0], vars) {
      assert s == [s[0]] + s[1..];
      InsertPermutes(x, s[1..], vars);
    }
  }

  lemma {:induction false} SortedPermutes(s: Slots, vars: map<FlowId, Vars>)
    requires Known(s, vars)
    ensures multiset(Sorted(s, vars)) == multiset(s)
  {
    if s != [] {
      assert s == [s[0]] + s[1..];
      SortedPermutes(s[1..], vars);
      InsertPermutes(s[0], Sorted(s[1..], vars), vars);
    }
  }

  lemma {:induction false} InsertSorted(x: Option<FlowId>, s: Slots, vars: map<FlowId, Vars>)
    requires Known([x] + s, vars) && SortedByAge(s, vars)
    ensures SortedByAge(Insert(x, s, vars), vars)
  {
    if s != [] && !Before(x, s[0], vars) {
      SortedTail(s, vars, |s|);
      assert s[1..|s|] == s[1..];
      InsertSorted(x, s[1..], vars);
      InsertPermutes(x, s[1..], vars);
      var rest := Insert(x, s[1..], vars);
      forall k | 0 <= k < |rest| ensures Before(s[0], rest[k], vars) {
        assert rest[k] in multiset(rest);
        assert rest[k] == x || rest[k] in s[1..];
      }
    }
  }

  lemma {:induction false} SortedIsSorted(s: Slots, vars: map<FlowId, Vars>)
    requires Known(s, vars)
    ensures SortedByAge(Sorted(s, vars), vars)
  {
    if s != [] {
      SortedIsSorted(s[1..], vars);
      InsertSorted(s[0], Sorted(s[1..], vars), vars);
    }
  }

  lemma HeadTail(s: Slots, t: Slots)
    requires s != [] && multiset(s) == multiset(t)
    ensures s[0] in t && |t| == |s| && multiset(s[1..]) == multiset(s) - multiset{s[0]}
  {
    assert s == [s[0]] + s[1..];
    assert s[0] in multiset(t);
    assert |multiset(s)| == |multiset(t)|;
  }

  lemma SameHead(r: Slots, s: Slots, vars: map<FlowId, Vars>)
    requires r != [] && s != [] && r[0] in s && s[0] in r && AgesDistinct(vars)
    requires Known(r, vars) && Known(s, vars) && SortedByAge(r, vars) && SortedByAge(s, vars)
    ensures r[0] == s[0]
  {
    assert Before(r[0], s[0], vars) && Before(s[0], r[0], vars);
  }

  lemma SortedTail(s: Slots, vars: map<FlowId, Vars>, n: nat)
    requires Known(s, vars) && SortedByAge(s, vars) && 1 <= n <= |s|
    ensures Known(s[1..n], vars) && SortedByAge(s[1..n], vars)
  {
    hide Before;
    forall x <- s[1..n] ensures x in s {
    }
  }

  // Sorting by age has one outcome, because no two flows were accessed at the same time.
  lemma {:induction false} SortIsUnique(r: Slots, s: Slots, vars: map<FlowId, Vars>)
    requires Known(r, vars) && Known(s, vars) && SortedByAge(r, vars) && SortedByAge(s, vars)
    requires AgesDistinct(vars) && multiset(r) == multiset(s)
    ensures r == s
  {
    hide Before, SortedByAge, AgesDistinct, Known;
    if r == [] {
      assert |multiset(r)| == |multiset(s)|;
    } else {
      HeadTail(r, s);
      HeadTail(s, r);
      SameHead(r, s, vars);
      SortedTail(r, vars, |r|);
      SortedTail(s, vars, |s|);
      assert r[1..|r|] == r[1..] && s[1..|s|] == s[1..];
      SortIsUnique(r[1..], s[1..], vars);
    }
  }

  // So any sort by age gives the sorted slots, whatever its method.
  lemma AnySort(r: Slots, slots: Slots, vars: map<FlowId, Vars>)
    requires Known(slots, vars) && AgesDistinct(vars)
    requires Known(r, vars) && SortedByAge(r, vars) && multiset(r) == multiset(slots)
    ensures r == Sorted(slots, vars)
  {
    SortedPermutes(slots, vars);
    SortedIsSorted(slots, vars);
    SortIsUnique(r, Sorted(slots, vars), vars);
  }

  // In particular sorted slots stay as they are.
  lemma StaysSorted(s: Slots, vars: map<FlowId, Vars>)
    requires Known(s, vars) && SortedByAge(s, vars) && AgesDistinct(vars)
    ensures Sorted(s, vars) == s
  {
    AnySort(s, s, vars);
  }

  // A sequence of distinct slots stays so when rearranged.
  lemma {:induction false} DistinctIsMultiset(s: Slots)
    ensures Distinct(s) <==> forall f: FlowId :: multiset(s)[Some(f)] <= 1
  {
    if s != [] {
      DistinctIsMultiset(s[1..]);
      assert s == [s[0]] + s[1..];
      if Distinct(s) {
        assert Distinct(s[1..]) by {
          forall i, j | 0 <= i < j < |s[1..]| && s[1..][i].Some? ensures s[1..][i] != s[1..][j] {
            assert s[1..][i] == s[i + 1] && s[1..][j] == s[j + 1];
          }
        }
        assert s[0].Some? ==> s[0] !in s[1..];
      }
      if forall f: FlowId :: multiset(s)[Some(f)] <= 1 {
        assert forall f: FlowId :: multiset(s[1..])[Some(f)] <= multiset(s)[Some(f)];
        assert Distinct(s[1..]);
        forall i, j | 0 <= i < j < |s| && s[i].Some? ensures s[i] != s[j] {
          if i == 0 {
            assert s[j] in multiset(s[1..]) by { assert s[j] == s[1..][j - 1]; }
          } else {
            assert s[i] == s[1..][i - 1] && s[j] == s[1..][j - 1];
          }
        }
      }
    }
  }

  lemma SortedDistinct(s: Slots, vars: map<FlowId, Vars>)
    requires Known(s, vars) && Distinct(s)
    ensures Distinct(Sorted(s, vars))
    ensures forall x :: x in Sorted(s, vars) <==> x in s
  {
    var r := Sorted(s, vars);
    DistinctIsMultiset(s);
    DistinctIsMultiset(r);
    SortedPermutes(s, vars);
    assert forall x :: x in r <==> x in multiset(r);
    assert forall x :: x in s <==> x in multiset(s);
  }

  // ---- Closing a file ----

  // close_file: does nothing to a flow whose file is already closed.
  function Close(v: View, f: FlowId): View
    requires f in v.vars && v.os.Valid()
    requires v.vars[f].fp.Some? ==> v.vars[f].fp.value in v.os.table
  {
    match v.vars[f].fp
    case None => v
    case Some(id) => v.(os := v.os.Fclose(id), vars := v.vars[f := v.vars[f].(fp := None, pos := 0)])
  }

  lemma CloseKeeps(v: View, f: FlowId)
    requires FlowsOk(v) && f in v.vars
    requires v.vars[f].fp.Some? ==> v.vars[f].fp.value in v.os.table
    ensures FlowsOk(Close(v, f)) && Close(v, f).vars[f].fp == None
  {
  }

  lemma CloseRecords(v: View, f: FlowId)
    requires f in v.vars && v.os.Valid()
    requires v.vars[f].fp.Some? ==> v.vars[f].fp.value in v.os.table
    ensures Records(Close(v, f)) == Records(v)
  {
  }

  // ---- Counting open files ----

  // A set that maps one-to-one into 0..n has at most n members.
  lemma {:induction false} Pigeonhole(ids: set<nat>, slot: map<nat, int>, n: nat)
    requires slot.Keys == ids
    requires forall id <- ids :: 0 <= slot[id] < n
    requires forall i, j | i in ids && j in ids && slot[i] == slot[j] :: i == j
    ensures |ids| <= n
  {
    if n > 0 && exists id :: id in ids && slot[id] == n - 1 {
      var id :| id in ids && slot[id] == n - 1;
      Pigeonhole(ids - {id}, slot - {id}, n - 1);
    } else if n > 0 {
      Pigeonhole(ids, slot, n - 1);
    } else {
      assert forall id :: id !in ids;
    }
  }

  lemma OpenAtMost(v: View, s: Slots, n: nat)
    requires FlowsOk(v) && n <= |s|
    requires forall f <- v.vars :: v.vars[f].fp.Some? ==> exists i :: 0 <= i < n && s[i] == Some(f)
    ensures |v.os.table| <= n
  {
    forall id <- v.os.table ensures exists i :: 0 <= i < n && s[i] == Some(v.os.table[id].file) {
      assert v.vars[v.os.table[id].file].fp.Some?;
    }
    var slot := map id | id in v.os.table ::
      var i :| 0 <= i < n && s[i] == Some(v.os.table[id].file); i;
    Pigeonhole(v.os.table.Keys, slot, n);
    assert |v.os.table| == |v.os.table.Keys|;
  }

  // At most max_fds files are open.
  lemma OpenBound(v: View)
    requires Inv(v)
    ensures |v.os.table| <= |v.slots| && |v.os.table| <= v.os.limit
  {
    OpenAtMost(v, v.slots, |v.slots|);
  }

  // ---- Contracting the ring ----

  function Used(s: Slots): (n: nat)
    ensures n <= |s| && (forall i | 0 <= i < n :: s[i].Some?) && (n < |s| ==> s[n].None?)
  {
    if s == [] || s[0].None? then 0 else 1 + Used(s[1..])
  }

  ghost predicate CanContract(v: View) {
    && Known(v.slots, v.vars) && v.os.Valid()
    && Used(Sorted(v.slots, v.vars)) >= 2
    && forall f <- v.vars :: v.vars[f].fp.Some? ==> v.vars[f].fp.value in v.os.table
  }

  // contract_fd_ring: the least recently used flow leaves and the ring shrinks to those left.
  ghost function Contract(v: View): View
    requires CanContract(v)
  {
    var s := Sorted(v.slots, v.vars);
    assert s[0] in s;
    Close(v, s[0].value).(slots := s[1..Used(s)], nextSlot := -1)
  }

  lemma SortedUsed(slots: Slots, vars: map<FlowId, Vars>)
    requires Known(slots, vars)
    ensures forall i | Used(Sorted(slots, vars)) <= i < |Sorted(slots, vars)| :: Sorted(slots, vars)[i].None?
  {
    var s := Sorted(slots, vars);
    var n := Used(s);
    SortedIsSorted(slots, vars);
    forall i | n <= i < |s| ensures s[i].None? {
      assert n < i ==> Before(s[n], s[i], vars);
    }
  }

  // Sorting brings every flow of the ring to the front.
  lemma UsedMember(slots: Slots, vars: map<FlowId, Vars>, f: FlowId) returns (i: nat)
    requires Known(slots, vars) && Distinct(slots) && Some(f) in slots
    ensures var s := Sorted(slots, vars); i < Used(s) && s[i] == Some(f)
  {
    var s := Sorted(slots, vars);
    SortedUsed(slots, vars);
    SortedDistinct(slots, vars);
    i :| 0 <= i < |s| && s[i] == Some(f);
  }

  // With two files open the ring cannot run dry.
  lemma RingNotDry(v: View)
    requires SlotsOk(v) && FlowsOk(v) && OpenOk(v, None) && |v.os.table| >= 2
    ensures CanContract(v)
  {
    var s := Sorted(v.slots, v.vars);
    forall f <- v.vars | v.vars[f].fp.Some?
      ensures v.vars[f].fp.value in v.os.table && exists i :: 0 <= i < Used(s) && s[i] == Some(f)
    {
      assert FlowOk(v, f);
      var i := UsedMember(v.slots, v.vars, f);
    }
    OpenAtMost(v, s, Used(s));
  }

  lemma ContractMembers(v: View)
    requires SlotsOk(v) && CanContract(v)
    ensures forall f :: Some(f) in Contract(v).slots ==> Some(f) in v.slots && Some(f) != Sorted(v.slots, v.vars)[0]
    ensures forall f :: Some(f) in v.slots && Some(f) != Sorted(v.slots, v.vars)[0] ==> Some(f) in Contract(v).slots
  {
    var s := Sorted(v.slots, v.vars);
    SortedDistinct(v.slots, v.vars);
    SortedUsed(v.slots, v.vars);
    TailMembers(s, Used(s));
  }

  lemma TailMembers(s: Slots, n: nat)
    requires 1 <= n <= |s| && Distinct(s) && forall i | n <= i < |s| :: s[i].None?
    ensures forall f :: Some(f) in s[1..n] <==> Some(f) in s && Some(f) != s[0]
  {
    forall f | Some(f) in s[1..n] ensures Some(f) in s && Some(f) != s[0] {
      var i :| 0 <= i < n - 1 && s[1..n][i] == Some(f);
      assert s[i + 1] == Some(f);
    }
    forall f | Some(f) in s && Some(f) != s[0] ensures Some(f) in s[1..n] {
      var i :| 0 <= i < |s| && s[i] == Some(f);
      assert s[1..n][i - 1] == Some(f);
    }
  }

  lemma ContractSlots(v: View)
    requires SlotsOk(v) && CanContract(v)
    ensures var w := Contract(v);
      SlotsOk(w) && 1 <= |w.slots| < |v.slots| && (forall i | 0 <= i < |w.slots| :: w.slots[i].Some?)
  {
    var s := Sorted(v.slots, v.vars);
    var t := Contract(v).slots;
    SortedDistinct(v.slots, v.vars);
    forall i | 0 <= i < |t| ensures t[i].Some? && t[i].value in v.vars {
      assert t[i] == s[i + 1] && s[i + 1] in s;
    }
  }

  lemma ContractKeeps(v: View)
    requires Inv(v) && CanContract(v)
    ensures var w := Contract(v);
      SlotsOk(w) && FlowsOk(w) && OpenOk(w, None) && Records(w) == Records(v)
  {
    var s := Sorted(v.slots, v.vars);
    assert s[0] in s;
    ContractSlots(v);
    ContractMembers(v);
    CloseKeeps(v, s[0].value);
    CloseRecords(v, s[0].value);
    SameFlows(Close(v, s[0].value), Contract(v));
  }

  // Only the slots differ.
  lemma SameFlows(v: View, w: View)
    requires FlowsOk(v) && w.vars == v.vars && w.os == v.os && w.now == v.now
    ensures FlowsOk(w) && Records(w) == Records(v)
  {
  }

  lemma CloseCount(v: View, f: FlowId)
    requires f in v.vars && v.os.Valid()
    requires v.vars[f].fp.Some? ==> v.vars[f].fp.value in v.os.table
    ensures |Close(v, f).os.table| == if v.vars[f].fp.Some? then |v.os.table| - 1 else |v.os.table|
  {
  }

  // ---- Opening a file ----

  // The state right after a successful fopen, before the flow has a slot.
  function Reopen(v: View, f: FlowId, os: Os, id: nat): View
    requires f in v.vars
  {
    v.(os := os, vars := v.vars[f := v.vars[f].(fp := Some(id))])
  }

  function OpenMode(s: Vars): Mode {
    if s.fileExists then ReadUpdate else Truncate
  }

  lemma FopenFlows(v: View, f: FlowId)
    requires FlowsOk(v) && f in v.vars && v.vars[f].fp == None
    ensures v.os.Valid()
    ensures var r := v.os.Fopen(f, OpenMode(v.vars[f]));
      !r.NoSuchFile? && (r.Opened? ==> FlowsOk(Reopen(v, f, r.os, r.id)))
  {
    assert FlowOk(v, f);
    var r := v.os.Fopen(f, OpenMode(v.vars[f]));
    if r.Opened? {
      var w := Reopen(v, f, r.os, r.id);
      forall g <- w.vars ensures FlowOk(w, g) {
        assert FlowOk(v, g);
      }
    }
  }

  lemma FopenKeeps(v: View, f: FlowId)
    requires Inv(v) && f in v.vars && v.vars[f].fp == None && !v.vars[f].finished
    ensures v.os.Valid() && Some(f) !in v.slots
    ensures var r := v.os.Fopen(f, OpenMode(v.vars[f])); r.Opened? ==>
      var w := Reopen(v, f, r.os, r.id);
      SlotsOk(w) && FlowsOk(w) && OpenOk(w, Some(f))
  {
    hide FlowsOk;
    FopenFlows(v, f);
    var r := v.os.Fopen(f, OpenMode(v.vars[f]));
    if r.Opened? {
      var w := Reopen(v, f, r.os, r.id);
      assert w.vars.Keys == v.vars.Keys;
      assert SlotsOk(w);
    }
  }

  lemma FopenRecords(v: View, f: FlowId)
    requires f in v.vars && v.os.Valid()
    ensures var r := v.os.Fopen(f, OpenMode(v.vars[f]));
      r.Opened? ==> Records(Reopen(v, f, r.os, r.id)) == Records(v)
  {
  }

  // The slot the opened flow goes to: the next one, or after a wrap the first of the sorted ring.
  function NextSlots(v: View): Slots
    requires Known(v.slots, v.vars)
  {
    if v.nextSlot + 1 < |v.slots| then v.slots else Sorted(v.slots, v.vars)
  }

  function NextIndex(v: View): int {
    if v.nextSlot + 1 < |v.slots| then v.nextSlot + 1 else 0
  }

  ghost predicate SlotChoice(v: View, slots: Slots, k: int) {
    && 0 <= k < |slots|
    && Known(v.slots, v.vars) && slots == NextSlots(v) && k == NextIndex(v)
  }

  // open_file from the choice of slot on: whatever held the slot is closed.
  function Place(v: View, f: FlowId, slots: Slots, k: int): View
    requires FlowsOk(v) && f in v.vars && v.vars[f].fp.Some? && 0 <= k < |slots|
    requires slots[k].Some? ==> slots[k].value in v.vars && slots[k].value != f
  {
    var w := match slots[k]
      case None => v
      case Some(g) => assert FlowOk(v, g); Close(v, g);
    w.(slots := slots[k := Some(f)], nextSlot := k, vars := w.vars[f := w.vars[f].(fileExists := true)])
  }

  lemma PlaceFlows(v: View, f: FlowId, slots: Slots, k: int)
    requires FlowsOk(v) && f in v.vars && v.vars[f].fp.Some? && 0 <= k < |slots|
    requires slots[k].Some? ==> slots[k].value in v.vars && slots[k].value != f
    ensures FlowsOk(Place(v, f, slots, k))
  {
    if slots[k].Some? {
      assert FlowOk(v, slots[k].value);
      CloseKeeps(v, slots[k].value);
    }
    var u := match slots[k] case None => v case Some(g) => Close(v, g);
    var w := Place(v, f, slots, k);
    forall g <- w.vars ensures FlowOk(w, g) {
      assert FlowOk(u, g);
    }
    assert TableOk(u.vars, u.os.table);
    assert AgesDistinct(u.vars);
  }

  lemma PutSlot(s: Slots, k: int, f: FlowId)
    requires Distinct(s) && 0 <= k < |s| && Some(f) !in s
    ensures Distinct(s[k := Some(f)])
    ensures forall g :: Some(g) in s[k := Some(f)] ==> g == f || (Some(g) in s && Some(g) != s[k])
    ensures forall g | g == f || (Some(g) in s && Some(g) != s[k]) :: Some(g) in s[k := Some(f)]
  {
    var t := s[k := Some(f)];
    forall g | g == f || (Some(g) in s && Some(g) != s[k]) ensures Some(g) in t {
      if g == f {
        assert t[k] == Some(f);
      } else {
        var i :| 0 <= i < |s| && s[i] == Some(g);
        assert t[i] == Some(g);
      }
    }
    forall g | Some(g) in t && g != f ensures Some(g) in s && Some(g) != s[k] {
      var i :| 0 <= i < |t| && t[i] == Some(g);
      assert s[i] == Some(g);
    }
  }

  lemma ChoiceMembers(v: View, slots: Slots, k: int)
    requires SlotsOk(v) && SlotChoice(v, slots, k)
    ensures |slots| == |v.slots| && Distinct(slots) && forall g :: Some(g) in slots <==> Some(g) in v.slots
    ensures forall i | 0 <= i < |slots| && slots[i].Some? :: slots[i].value in v.vars
    ensures slots != v.slots ==> forall i | 0 <= i < |slots| :: slots[i].Some?
  {
    if slots != v.slots {
      SortedDistinct(v.slots, v.vars);
      forall i | 0 <= i < |slots| ensures slots[i] in v.slots && slots[i].Some? && slots[i].value in v.vars {
        assert slots[i] in slots;
        var j :| 0 <= j < |v.slots| && v.slots[j] == slots[i];
      }
    }
  }

  lemma PlaceSlots(v: View, f: FlowId, slots: Slots, k: int)
    requires SlotsOk(v) && SlotChoice(v, slots, k) && f in v.vars && Some(f) !in v.slots
    ensures SlotsOk(v.(slots := slots[k := Some(f)], nextSlot := k))
  {
    ChoiceMembers(v, slots, k);
    PutSlot(slots, k, f);
    var t := slots[k := Some(f)];
    assert forall i | 0 <= i < |t| && i != k :: t[i] == slots[i];
  }

  lemma PlaceOpen(v: View, f: FlowId, slots: Slots, k: int)
    requires SlotsOk(v) && FlowsOk(v) && OpenOk(v, Some(f))
    requires SlotChoice(v, slots, k) && f in v.vars && v.vars[f].fp.Some? && Some(f) !in v.slots
    requires slots[k].Some? ==> slots[k].value in v.vars && slots[k].value != f
    ensures OpenOk(Place(v, f, slots, k), None)
  {
    hide SlotsOk, FlowsOk, Sorted;
    ChoiceMembers(v, slots, k);
    PutSlot(slots, k, f);
  }

  lemma PlaceKeeps(v: View, f: FlowId, slots: Slots, k: int)
    requires SlotsOk(v) && FlowsOk(v) && OpenOk(v, Some(f))
    requires SlotChoice(v, slots, k) && f in v.vars && v.vars[f].fp.Some? && Some(f) !in v.slots
    ensures slots[k].Some? ==> slots[k].value in v.vars && slots[k].value != f
    ensures var w := Place(v, f, slots, k);
      SlotsOk(w) && FlowsOk(w) && OpenOk(w, None)
  {
    ChoiceMembers(v, slots, k);
    assert slots[k].Some? ==> slots[k] in slots;
    PlaceSlots(v, f, slots, k);
    PlaceFlows(v, f, slots, k);
    PlaceOpen(v, f, slots, k);
  }

  lemma PlaceRecords(v: View, f: FlowId, slots: Slots, k: int)
    requires FlowsOk(v) && f in v.vars && v.vars[f].fp.Some? && 0 <= k < |slots|
    requires slots[k].Some? ==> slots[k].value in v.vars && slots[k].value != f
    ensures f in v.os.disk
    ensures Records(Place(v, f, slots, k))
         == Records(v)[f := FlowRecord(v.vars[f].isn, v.vars[f].finished, Some(v.os.disk[f]))]
  {
  }

  // A step that changes one flow and no slot.
  lemma OneFlow(v: View, w: View, f: FlowId, s: Vars)
    requires SlotsOk(v) && OpenOk(v, None) && f in v.vars && w.vars == v.vars[f := s]
    requires w.slots == v.slots && w.nextSlot == v.nextSlot
    requires s.fp.Some? ==> v.vars[f].fp.Some? && s.fileExists == v.vars[f].fileExists
    requires v.vars[f].fp.Some? || v.vars[f].finished ==> s.fp.Some? || s.finished
    ensures SlotsOk(w) && OpenOk(w, None)
  {
  }

  // ---- Looking up, creating and writing a flow ----

  function Touch(v: View, f: FlowId): View
    requires f in v.vars
  {
    v.(now := v.now + 1, vars := v.vars[f := v.vars[f].(lastAccess := v.now)])
  }

  lemma TouchKeeps(v: View, f: FlowId)
    requires Inv(v) && f in v.vars
    ensures Inv(Touch(v, f))
  {
    hide FlowsOk, SlotsOk, OpenOk;
    var w := Touch(v, f);
    TouchFlows(v, f);
    OneFlow(v, w, f, w.vars[f]);
  }

  lemma TouchFlows(v: View, f: FlowId)
    requires FlowsOk(v) && f in v.vars
    ensures FlowsOk(Touch(v, f))
  {
    var w := Touch(v, f);
    forall g <- w.vars ensures FlowOk(w, g) {
      assert FlowOk(v, g);
    }
  }

  lemma TouchRecords(v: View, f: FlowId)
    requires f in v.vars
    ensures Records(Touch(v, f)) == Records(v)
  {
  }

  function Create(v: View, f: FlowId, isn: u32): View {
    v.(now := v.now + 1, vars := v.vars[f := Vars(isn, None, 0, false, false, v.now)])
  }

  lemma CreateKeeps(v: View, f: FlowId, isn: u32)
    requires Inv(v) && f !in v.vars
    ensures Inv(Create(v, f, isn))
  {
    hide FlowsOk;
    CreateFlows(v, f, isn);
  }

  lemma CreateFlows(v: View, f: FlowId, isn: u32)
    requires FlowsOk(v) && f !in v.vars
    ensures FlowsOk(Create(v, f, isn))
  {
    var w := Create(v, f, isn);
    forall g <- v.vars ensures FlowOk(w, g) {
      assert FlowOk(v, g);
    }
  }

  lemma CreateRecords(v: View, f: FlowId, isn: u32)
    requires f !in v.vars
    ensures Records(Create(v, f, isn)) == Records(v)[f := FlowRecord(isn, false, None)]
  {
  }

  // The end of store_packet: seek if the cached position is elsewhere, write, remember the position.
  function Write(v: View, f: FlowId, offset: nat, data: seq<byte>, finished: bool): View
    requires FlowsOk(v) && f in v.vars && v.vars[f].fp.Some?
  {
    assert FlowOk(v, f);
    var s := v.vars[f];
    var os1 := if offset != s.pos then v.os.Fseek(s.fp.value, offset) else v.os;
    var os2 := os1.Fwrite(s.fp.value, data);
    v.(os := os2, vars := v.vars[f := s.(pos := offset + |data|, finished := finished)])
  }

  lemma WriteFlows(v: View, f: FlowId, offset: nat, data: seq<byte>, finished: bool)
    requires FlowsOk(v) && f in v.vars && v.vars[f].fp.Some?
    ensures f in v.os.disk && FlowOk(v, f) && v.os.Valid()
    ensures FlowsOk(Write(v, f, offset, data, finished)) && FlowOk(Write(v, f, offset, data, finished), f)
    ensures var w := Write(v, f, offset, data, finished);
      w.os.disk == v.os.disk[f := WriteAt(v.os.disk[f], offset, data)]
  {
  }

  lemma WriteCount(v: View, f: FlowId, offset: nat, data: seq<byte>, finished: bool)
    requires FlowsOk(v) && f in v.vars && v.vars[f].fp.Some?
    ensures |Write(v, f, offset, data, finished).os.table| == |v.os.table|
  {
  }

  lemma WriteKeeps(v: View, f: FlowId, offset: nat, data: seq<byte>, finished: bool)
    requires Inv(v) && f in v.vars && v.vars[f].fp.Some?
    ensures f in v.os.disk && v.vars[f].fileExists
    ensures var w := Write(v, f, offset, data, finished);
      Inv(w)
  {
    WriteFlows(v, f, offset, data, finished);
    WriteCount(v, f, offset, data, finished);
    var w := Write(v, f, offset, data, finished);
    OneFlow(v, w, f, w.vars[f]);
  }

  lemma WriteRecords(v: View, f: FlowId, offset: nat, data: seq<byte>, finished: bool)
    requires FlowsOk(v) && f in v.vars && v.vars[f].fp.Some? && v.vars[f].fileExists && f in v.os.disk
    ensures Records(Write(v, f, offset, data, finished))
         == Records(v)[f := FlowRecord(v.vars[f].isn, finished, Some(WriteAt(v.os.disk[f], offset, data)))]
  {
  }

  lemma CloseFinished(v: View, f: FlowId)
    requires Inv(v) && f in v.vars && v.vars[f].finished
    requires v.vars[f].fp.Some? ==> v.vars[f].fp.value in v.os.table
    ensures Inv(Close(v, f))
  {
    CloseKeeps(v, f);
    CloseCount(v, f);
    if v.vars[f].fp.Some? {
      var w := Close(v, f);
      OneFlow(v, w, f, w.vars[f]);
    }
  }

  // ---- open_file as a whole ----

  ghost predicate CanOpen(v: View, f: FlowId) {
    Inv(v) && f in v.vars && v.vars[f].fp == None && !v.vars[f].finished
  }

  // While a file is being opened one more may be open, until the chosen slot is cleared.
  lemma OneMoreWhileOpening(v: View, f: FlowId)
    requires CanOpen(v, f) && v.os.Fopen(f, OpenMode(v.vars[f])).Opened?
    ensures |v.os.Fopen(f, OpenMode(v.vars[f])).os.table| <= |v.slots| + 1
  {
    OpenBound(v);
  }

  lemma Contracted(v: View, f: FlowId)
    requires CanOpen(v, f) && |v.os.table| >= v.os.limit
    ensures CanContract(v) && CanOpen(Contract(v), f) && |Contract(v).slots| < |v.slots|
    ensures Records(Contract(v)) == Records(v)
  {
    RingNotDry(v);
    ContractKeeps(v);
    ContractSlots(v);
    var g := Sorted(v.slots, v.vars)[0];
    assert g in Sorted(v.slots, v.vars);
    CloseCount(v, g.value);
  }

  lemma FopenFits(os: Os, f: FlowId, mode: Mode)
    requires os.Valid()
    ensures var r := os.Fopen(f, mode); r.Opened? ==> |r.os.table| <= r.os.limit == os.limit
  {
    var r := os.Fopen(f, mode);
    if r.Opened? {
      assert r.os.table.Keys == os.table.Keys + {r.id};
    }
  }

  lemma PlaceFits(w: View, f: FlowId, slots: Slots, k: int)
    requires FlowsOk(w) && f in w.vars && w.vars[f].fp.Some? && 0 <= k < |slots|
    requires slots[k].Some? ==> slots[k].value in w.vars && slots[k].value != f
    ensures var x := Place(w, f, slots, k); |x.os.table| <= |w.os.table| && x.os.limit == w.os.limit
  {
    if slots[k].Some? {
      assert FlowOk(w, slots[k].value);
      CloseCount(w, slots[k].value);
    }
  }

  lemma Placed(v: View, f: FlowId)
    requires CanOpen(v, f) && v.os.Fopen(f, OpenMode(v.vars[f])).Opened?
    ensures var r := v.os.Fopen(f, OpenMode(v.vars[f]));
      var w := Reopen(v, f, r.os, r.id);
      var k := NextIndex(w);
      && Known(w.slots, w.vars) && FlowsOk(w) && 0 <= k < |NextSlots(w)|
      && (NextSlots(w)[k].Some? ==> NextSlots(w)[k].value in w.vars && NextSlots(w)[k].value != f)
      && Inv(Place(w, f, NextSlots(w), k))
  {
    hide FlowsOk, OpenOk, Distinct;
    FopenKeeps(v, f);
    var r := v.os.Fopen(f, OpenMode(v.vars[f]));
    var w := Reopen(v, f, r.os, r.id);
    PlaceKeeps(w, f, NextSlots(w), NextIndex(w));
    FopenFits(v.os, f, OpenMode(v.vars[f]));
    PlaceFits(w, f, NextSlots(w), NextIndex(w));
  }

  // Contracts the ring until fopen succeeds, then takes a slot.
  ghost function Open(v: View, f: FlowId): View
    requires CanOpen(v, f)
    decreases |v.slots|
  {
    FopenFlows(v, f);
    match v.os.Fopen(f, OpenMode(v.vars[f]))
    case Opened(os, id) =>
      Placed(v, f);
      var w := Reopen(v, f, os, id);
      Place(w, f, NextSlots(w), NextIndex(w))
    case TooManyFiles =>
      Contracted(v, f);
      Open(Contract(v), f)
  }

  // Ready to be given a slot.
  ghost predicate Ready(w: View, f: FlowId) {
    && SlotsOk(w) && FlowsOk(w) && |w.slots| >= 1
    && f in w.vars && w.vars[f].fp.Some? && Some(f) !in w.slots
  }

  lemma ReadyChoice(w: View, f: FlowId)
    requires Ready(w, f)
    ensures Known(w.slots, w.vars) && SlotChoice(w, NextSlots(w), NextIndex(w))
    ensures var x := NextSlots(w)[NextIndex(w)]; x.Some? ==> x.value in w.vars && x.value != f
  {
    assert SlotChoice(w, NextSlots(w), NextIndex(w));
    ChoiceMembers(w, NextSlots(w), NextIndex(w));
    assert NextSlots(w)[NextIndex(w)] in NextSlots(w);
  }

  ghost function PlaceNext(w: View, f: FlowId): View
    requires Ready(w, f)
  {
    ReadyChoice(w, f);
    Place(w, f, NextSlots(w), NextIndex(w))
  }

  lemma OpenStep(v: View, f: FlowId)
    requires CanOpen(v, f)
    ensures v.os.Valid()
    ensures match v.os.Fopen(f, OpenMode(v.vars[f]))
      case Opened(os, id) => var w := Reopen(v, f, os, id); Ready(w, f) && Open(v, f) == PlaceNext(w, f)
      case TooManyFiles =>
        && CanContract(v) && CanOpen(Contract(v), f) && |Contract(v).slots| < |v.slots|
        && Open(v, f) == Open(Contract(v), f)
      case NoSuchFile => false
  {
    FopenFlows(v, f);
    FopenKeeps(v, f);
    match v.os.Fopen(f, OpenMode(v.vars[f]))
    case Opened(os, id) =>
      Placed(v, f);
    case TooManyFiles =>
      Contracted(v, f);
  }

  // What an open does to the flow itself: its variables and its file.
  ghost predicate OpenedFlow(v: View, w: View, f: FlowId)
    requires f in v.vars
  {
    && w.vars.Keys == v.vars.Keys && w.vars[f].fp.Some? && w.vars[f].fileExists
    && w.vars[f].isn == v.vars[f].isn && w.vars[f].finished == v.vars[f].finished && f in w.os.disk
    && w.os.disk[f] == (if v.vars[f].fileExists && f in v.os.disk then v.os.disk[f] else [])
    && Records(w) == Records(v)[f := FlowRecord(v.vars[f].isn, v.vars[f].finished, Some(w.os.disk[f]))]
  }

  lemma PlacedFlow(w: View, f: FlowId)
    requires Ready(w, f)
    ensures var x := PlaceNext(w, f);
      x.vars.Keys == w.vars.Keys && x.vars[f] == w.vars[f].(fileExists := true) && x.os.disk == w.os.disk
  {
    ReadyChoice(w, f);
  }

  lemma OpenedNow(v: View, f: FlowId)
    requires CanOpen(v, f) && v.os.Fopen(f, OpenMode(v.vars[f])).Opened?
    ensures var r := v.os.Fopen(f, OpenMode(v.vars[f])); var w := Reopen(v, f, r.os, r.id);
      Ready(w, f) && OpenedFlow(v, PlaceNext(w, f), f)
  {
    hide SlotsOk, FlowsOk, OpenOk, Place;
    OpenStep(v, f);
    FopenRecords(v, f);
    var r := v.os.Fopen(f, OpenMode(v.vars[f]));
    var w := Reopen(v, f, r.os, r.id);
    var x := PlaceNext(w, f);
    ReadyChoice(w, f);
    PlaceRecords(w, f, NextSlots(w), NextIndex(w));
    PlacedFlow(w, f);
    assert w.vars.Keys == v.vars.Keys;
    assert x.os.disk == r.os.disk;
  }

  lemma {:induction false} OpenKeeps(v: View, f: FlowId)
    requires CanOpen(v, f)
    ensures Inv(Open(v, f)) && OpenedFlow(v, Open(v, f), f)
    decreases |v.slots|
  {
    OpenStep(v, f);
    if v.os.Fopen(f, OpenMode(v.vars[f])).Opened? {
      OpenedNow(v, f);
      Placed(v, f);
    } else {
      Contracted(v, f);
      ContractFlow(v, f);
      OpenKeeps(Contract(v), f);
    }
  }

  lemma ContractFlow(v: View, f: FlowId)
    requires CanContract(v) && f in v.vars && v.vars[f].fp == None
    ensures Contract(v).vars.Keys == v.vars.Keys
    ensures Contract(v).vars[f] == v.vars[f] && Contract(v).os.disk == v.os.disk
  {
  }

  lemma FirstIsOldest(slots: Slots, vars: map<FlowId, Vars>)
    requires Known(slots, vars) && slots != [] && Distinct(slots)
    ensures Sorted(slots, vars)[0] in slots
    ensures forall g <- slots :: Before(Sorted(slots, vars)[0], g, vars)
  {
    var s := Sorted(slots, vars);
    SortedIsSorted(slots, vars);
    SortedPermutes(slots, vars);
    assert s[0] in multiset(slots);
    forall g <- slots ensures Before(s[0], g, vars) {
      assert g in multiset(s);
      var i :| 0 <= i < |s| && s[i] == g;
      assert i > 0 ==> Before(s[0], s[i], vars);
    }
  }

  // From v to w, apart from f exactly the flows listed are closed, and nothing else of them changes.
  ghost predicate ClosesJust(v: View, w: View, f: FlowId, closed: Slots) {
    forall g <- v.vars | g != f ::
      g in w.vars && w.vars[g] == if Some(g) in closed then v.vars[g].(fp := None, pos := 0) else v.vars[g]
  }

  lemma ReopenClosesNone(v: View, f: FlowId, os: Os, id: nat)
    requires f in v.vars
    ensures ClosesJust(v, Reopen(v, f, os, id), f, [])
  {
  }

  lemma ClosesBoth(v: View, w: View, x: View, f: FlowId, a: Slots, b: Slots)
    requires ClosesJust(v, w, f, a) && ClosesJust(w, x, f, b)
    ensures ClosesJust(v, x, f, a + b)
  {
  }

  lemma PlaceOthers(w: View, f: FlowId)
    requires Ready(w, f)
    ensures SlotChoice(w, NextSlots(w), NextIndex(w))
    ensures var x := PlaceNext(w, f);
      && ClosesJust(w, x, f, [NextSlots(w)[NextIndex(w)]])
      && x.slots == NextSlots(w)[NextIndex(w) := Some(f)] && x.nextSlot == NextIndex(w)
  {
    ReadyChoice(w, f);
    forall g <- w.vars ensures FlowOk(w, g) {
    }
  }

  // An open that finds a free descriptor closes exactly the flow in the chosen slot, and takes that slot.
  lemma OpenPlaces(v: View, f: FlowId)
    requires CanOpen(v, f) && |v.os.table| < v.os.limit
    ensures Known(v.slots, v.vars) && 0 <= NextIndex(v) < |NextSlots(v)|
    ensures var victim, x := NextSlots(v)[NextIndex(v)], Open(v, f);
      && ClosesJust(v, x, f, [victim])
      && x.slots == NextSlots(v)[NextIndex(v) := Some(f)] && x.nextSlot == NextIndex(v)
  {
    hide Inv, FlowsOk, SlotsOk, OpenOk, Open, Place, Ready, Sorted, ClosesJust, PlaceNext, NextSlots, Distinct;
    SlotsKnown(v);
    OpenStep(v, f);
    var r := v.os.Fopen(f, OpenMode(v.vars[f]));
    var w := Reopen(v, f, r.os, r.id);
    PlaceOthers(w, f);
    SameNext(v, w);
    var victim := [NextSlots(w)[NextIndex(w)]];
    ReopenClosesNone(v, f, r.os, r.id);
    ClosesBoth(v, w, PlaceNext(w, f), f, [], victim);
    assert [] + victim == victim;
  }

  lemma SameNext(v: View, w: View)
    requires Known(v.slots, v.vars) && w.slots == v.slots && w.nextSlot == v.nextSlot && w.vars.Keys == v.vars.Keys
    requires forall f <- v.vars :: w.vars[f].lastAccess == v.vars[f].lastAccess
    ensures Known(w.slots, w.vars) && NextSlots(w) == NextSlots(v) && NextIndex(w) == NextIndex(v)
  {
    SameOrder(v.slots, v.vars, w.vars);
  }

  // Contracting closes the oldest of the ring, and frees a descriptor if that one was open.
  lemma ContractCloses(v: View, f: FlowId)
    requires CanOpen(v, f) && CanContract(v)
    ensures var s, w := Sorted(v.slots, v.vars), Contract(v);
      && s[0].Some? && s[0].value in v.vars && s[0].value != f && ClosesJust(v, w, f, [s[0]])
      && (v.vars[s[0].value].fp == None ==> w.os == v.os && w.vars == v.vars)
      && (v.vars[s[0].value].fp.Some? ==> |w.os.table| < |v.os.table| && w.os.limit == v.os.limit)
  {
    var s := Sorted(v.slots, v.vars);
    assert s[0] in s;
    SortedDistinct(v.slots, v.vars);
    assert FlowOk(v, s[0].value);
    CloseCount(v, s[0].value);
    CloseClosesJust(v, s[0].value, f);
  }

  lemma CloseClosesJust(v: View, g: FlowId, f: FlowId)
    requires v.os.Valid() && g in v.vars && FlowOk(v, g)
    ensures ClosesJust(v, Close(v, g), f, [Some(g)])
  {
  }

  // The ring that is left is in order already.
  lemma ContractOrder(v: View)
    requires SlotsOk(v) && FlowsOk(v) && CanContract(v)
    ensures var s, w := Sorted(v.slots, v.vars), Contract(v);
      && w.slots == s[1..Used(s)] && w.nextSlot == -1
      && Known(w.slots, w.vars) && Sorted(w.slots, w.vars) == w.slots && Used(w.slots) == |w.slots|
  {
    hide SlotsOk, FlowsOk, Known, SortedByAge, AgesDistinct, Sorted;
    AgesOf(v);
    var s, w := Sorted(v.slots, v.vars), Contract(v);
    SortedIsSorted(v.slots, v.vars);
    SortedTail(s, v.vars, Used(s));
    StaysSorted(w.slots, v.vars);
    SameAges(v, w);
    SameOrder(w.slots, v.vars, w.vars);
  }

  lemma AgesOf(v: View)
    requires FlowsOk(v)
    ensures AgesDistinct(v.vars)
  {
  }

  lemma SameAges(v: View, w: View)
    requires CanContract(v) && w == Contract(v)
    ensures w.vars.Keys == v.vars.Keys && forall f <- v.vars :: w.vars[f].lastAccess == v.vars[f].lastAccess
  {
    assert Sorted(v.slots, v.vars)[0] in Sorted(v.slots, v.vars);
  }

  // From v to x the oldest of the ring are closed: its least recently used flows up to the first that is open,
  // number j, and the one after that, whose slot f takes.
  ghost predicate OldestClosed(v: View, x: View, f: FlowId, j: nat)
    requires Known(v.slots, v.vars)
  {
    var s := Sorted(v.slots, v.vars);
    && j + 1 < Used(s)
    && (forall i | 0 <= i <= j :: s[i].value in v.vars && (v.vars[s[i].value].fp.Some? <==> i == j))
    && ClosesJust(v, x, f, s[..j + 2])
    && x.slots == s[j + 1..Used(s)][0 := Some(f)] && x.nextSlot == 0
  }

  // w is v after one contraction.
  ghost predicate OneLess(v: View, w: View, f: FlowId) {
    && Known(v.slots, v.vars) && Known(w.slots, w.vars)
    && var s := Sorted(v.slots, v.vars);
      && 1 < Used(s) && Sorted(w.slots, w.vars) == w.slots == s[1..Used(s)] && Used(w.slots) == |w.slots|
      && s[0].value in v.vars && ClosesJust(v, w, f, [s[0]])
  }

  lemma OldestIsLast(v: View, w: View, x: View, f: FlowId)
    requires OneLess(v, w, f) && v.vars[Sorted(v.slots, v.vars)[0].value].fp.Some?
    requires ClosesJust(w, x, f, [w.slots[0]]) && x.slots == w.slots[0 := Some(f)] && x.nextSlot == 0
    ensures OldestClosed(v, x, f, 0)
  {
    hide Sorted, Used, ClosesJust;
    var s := Sorted(v.slots, v.vars);
    ClosesBoth(v, w, x, f, [s[0]], [w.slots[0]]);
    assert [s[0]] + [w.slots[0]] == s[..2];
  }

  lemma OldestIsNot(v: View, w: View, x: View, f: FlowId, j: nat)
    requires OneLess(v, w, f) && w.vars == v.vars && v.vars[Sorted(v.slots, v.vars)[0].value].fp == None
    requires OldestClosed(w, x, f, j)
    ensures OldestClosed(v, x, f, j + 1)
  {
    hide Sorted, Used, ClosesJust;
    var s := Sorted(v.slots, v.vars);
    DropTwice(s, Used(s), j + 2);
    forall i | 0 <= i <= j + 1 ensures s[i].value in v.vars && (v.vars[s[i].value].fp.Some? <==> i == j + 1) {
      assert i > 0 ==> s[i] == w.slots[i - 1];
    }
    ClosesBoth(v, w, x, f, [s[0]], w.slots[..j + 2]);
  }

  lemma DropTwice<T>(s: seq<T>, n: nat, k: nat)
    requires 1 <= k < n <= |s|
    ensures [s[0]] + s[1..n][..k] == s[..k + 1] && s[1..n][k - 1..n - 1] == s[k..n]
  {
  }

  // An open that finds the descriptor table full closes the oldest of the ring, and no other flow.
  lemma {:induction false} OpenContracting(v: View, f: FlowId) returns (j: nat)
    requires CanOpen(v, f) && |v.os.table| >= v.os.limit
    ensures Known(v.slots, v.vars) && OldestClosed(v, Open(v, f), f, j)
    decreases |v.slots|
  {
    hide Inv, FlowsOk, SlotsOk, OpenOk, Open, Place, Contract, Sorted, ClosesJust, CanContract, Used, OldestClosed;
    SlotsKnown(v);
    OpenStep(v, f);
    ContractCloses(v, f);
    ContractOrder(v);
    var s, w := Sorted(v.slots, v.vars), Contract(v);
    if v.vars[s[0].value].fp == None {
      j := OpenContracting(w, f);
      OldestIsNot(v, w, Open(v, f), f, j);
      j := j + 1;
    } else {
      OpenPlaces(w, f);
      OldestIsLast(v, w, Open(v, f), f);
      j := 0;
    }
  }

  // ---- Which flows an open closes ----

  ghost predicate Ascending(s: Slots, vars: map<FlowId, Vars>) {
    && (forall i | 0 <= i < |s| :: s[i].Some? && s[i].value in vars)
    && (forall i, j | 0 <= i < j < |s| :: vars[s[i].value].lastAccess < vars[s[j].value].lastAccess)
  }

  // The flows of the ring from the least to the most recently used, the first of them in closed.
  ghost predicate OldestFirst(v: View, closed: Slots, rest: Slots) {
    && Ascending(closed + rest, v.vars)
    && (forall x: FlowId :: Some(x) in v.slots <==> Some(x) in closed + rest)
  }

  lemma SortedAscends(v: View, n: nat)
    requires SlotsOk(v) && FlowsOk(v) && Known(v.slots, v.vars) && n <= Used(Sorted(v.slots, v.vars))
    ensures var s := Sorted(v.slots, v.vars); OldestFirst(v, s[..n], s[n..Used(s)])
  {
    hide Sorted, Used, FlowsOk, Before;
    var s := Sorted(v.slots, v.vars);
    var all := s[..Used(s)];
    SortedIsSorted(v.slots, v.vars);
    SortedDistinct(v.slots, v.vars);
    SortedUsed(v.slots, v.vars);
    AgesOf(v);
    UsedAscends(s, v.vars, Used(s));
    forall x: FlowId ensures Some(x) in v.slots <==> Some(x) in all {
      if Some(x) in s {
        var i :| 0 <= i < |s| && s[i] == Some(x);
        assert all[i] == Some(x);
      }
    }
    assert s[..n] + s[n..Used(s)] == all;
  }

  lemma UsedAscends(s: Slots, vars: map<FlowId, Vars>, n: nat)
    requires Known(s, vars) && SortedByAge(s, vars) && Distinct(s) && AgesDistinct(vars)
    requires n <= |s| && forall i | 0 <= i < n :: s[i].Some?
    ensures Ascending(s[..n], vars)
  {
    forall i, j | 0 <= i < j < n ensures vars[s[i].value].lastAccess < vars[s[j].value].lastAccess {
      assert s[i] in s && s[j] in s && Before(s[i], s[j], vars);
    }
    forall i | 0 <= i < n ensures s[i].value in vars {
      assert s[i] in s;
    }
  }

  // Before the ring wraps an open that finds a free descriptor takes the next slot and closes what was there.
  lemma OpenTakesNext(v: View, f: FlowId)
    requires CanOpen(v, f) && |v.os.table| < v.os.limit && v.nextSlot + 1 < |v.slots|
    ensures 0 <= v.nextSlot + 1 && ClosesJust(v, Open(v, f), f, [v.slots[v.nextSlot + 1]])
    ensures Open(v, f).slots == v.slots[v.nextSlot + 1 := Some(f)] && Open(v, f).nextSlot == v.nextSlot + 1
  {
    hide Inv, Open, ClosesJust;
    SlotsKnown(v);
    OpenPlaces(v, f);
  }

  // Otherwise it closes the least recently used flows of the ring and takes the place of the last of them. With a
  // free descriptor that is one flow; with none it is those up to the first that is open, and one more.
  lemma OpenEvictsOldest(v: View, f: FlowId) returns (closed: Slots, rest: Slots)
    requires CanOpen(v, f) && (|v.os.table| >= v.os.limit || v.nextSlot + 1 == |v.slots|)
    ensures OldestFirst(v, closed, rest) && ClosesJust(v, Open(v, f), f, closed)
    ensures Open(v, f).slots == [Some(f)] + rest && Open(v, f).nextSlot == 0
    ensures |v.os.table| < v.os.limit ==> |closed| == 1
    ensures |v.os.table| >= v.os.limit ==> |closed| >= 2 && forall i | 0 <= i < |closed| - 1 ::
      closed[i].Some? && closed[i].value in v.vars && (v.vars[closed[i].value].fp.Some? <==> i == |closed| - 2)
  {
    hide Inv, SlotsOk, FlowsOk, Open, ClosesJust, Sorted, Used, OldestFirst, CanOpen;
    OpenKnows(v, f);
    var s := Sorted(v.slots, v.vars);
    if |v.os.table| >= v.os.limit {
      var j := OpenContracting(v, f);
      closed, rest := s[..j + 2], s[j + 2..Used(s)];
      SortedAscends(v, j + 2);
    } else {
      OpenPlaces(v, f);
      AllUsed(v);
      closed, rest := s[..1], s[1..];
      SortedAscends(v, 1);
      assert s[1..Used(s)] == rest && s[..1] == [s[0]];
    }
  }

  lemma OpenKnows(v: View, f: FlowId)
    requires CanOpen(v, f)
    ensures Inv(v) && SlotsOk(v) && FlowsOk(v) && Known(v.slots, v.vars) && |v.slots| >= 1
    ensures f in v.vars && !v.vars[f].finished
  {
    SlotsKnown(v);
  }

  lemma AllUsed(v: View)
    requires SlotsOk(v) && Known(v.slots, v.vars) && v.nextSlot + 1 == |v.slots|
    ensures Used(Sorted(v.slots, v.vars)) == |v.slots|
  {
    var s := Sorted(v.slots, v.vars);
    SortedDistinct(v.slots, v.vars);
    forall i | 0 <= i < |s| ensures s[i].Some? {
      assert s[i] in s;
    }
  }

  // ---- Finished flows ----

  // A flow that reached its limit has its file closed.
  ghost predicate FinishedClosed(v: View) {
    forall f <- v.vars | v.vars[f].finished :: v.vars[f].fp == None
  }

  // Opening f finishes no flow and opens no other file.
  lemma OpenOthers(v: View, f: FlowId)
    requires CanOpen(v, f)
    ensures Open(v, f).vars.Keys == v.vars.Keys && !Open(v, f).vars[f].finished
    ensures forall g <- v.vars | g != f ::
      var s := Open(v, f).vars[g]; s.finished == v.vars[g].finished && (v.vars[g].fp == None ==> s.fp == None)
  {
    hide Inv, Open, CanOpen, OldestFirst, ClosesJust, SlotsOk, FlowsOk, Known;
    OpenKnows(v, f);
    OpenKeeps(v, f);
    if |v.os.table| < v.os.limit && v.nextSlot + 1 < |v.slots| {
      OpenTakesNext(v, f);
      OnlyCloses(v, Open(v, f), f, [v.slots[v.nextSlot + 1]]);
    } else {
      var closed, rest := OpenEvictsOldest(v, f);
      OnlyCloses(v, Open(v, f), f, closed);
    }
  }

  lemma OnlyCloses(v: View, w: View, f: FlowId, closed: Slots)
    requires ClosesJust(v, w, f, closed)
    ensures forall g <- v.vars | g != f ::
      g in w.vars && w.vars[g].finished == v.vars[g].finished && (v.vars[g].fp == None ==> w.vars[g].fp == None)
  {
  }

  lemma WriteCloses(v: View, f: FlowId, offset: u32, data: seq<byte>, bytesPerFlow: nat)
    requires FlowsOk(v) && f in v.vars && v.vars[f].fp.Some?
    requires offset + |data| < 0x1_0000_0000 && (bytesPerFlow != 0 ==> offset <= bytesPerFlow)
    ensures var w := WriteSegment(v, f, offset, data, bytesPerFlow);
      && w.vars.Keys == v.vars.Keys && (w.vars[f].finished ==> w.vars[f].fp == None)
      && forall g <- v.vars | g != f :: w.vars[g] == v.vars[g]
  {
    hide FlowsOk, WriteAt;
    if bytesPerFlow != 0 && offset + |data| > bytesPerFlow {
      WriteFlows(v, f, offset, data[..bytesPerFlow - offset], true);
    }
  }

  // After every segment the files of finished flows are closed.
  lemma StoreCloses(v: View, s: Segment, bytesPerFlow: nat)
    requires Inv(v) && FinishedClosed(v) && |s.data| < 0x1_0000
    ensures FinishedClosed(StoreView(v, s, bytesPerFlow))
  {
    hide Inv, FlowsOk, Open, WriteSegment, StoreFound;
    LookUpKeeps(v, s);
    var w := LookUp(v, s.flow, s.seqno);
    StoreFoundCases(w, s, bytesPerFlow);
    if !Dropped(w, s, bytesPerFlow) {
      if w.vars[s.flow].fp == None {
        OpenOthers(w, s.flow);
      }
      WriteCloses(EnsureOpen(w, s.flow), s.flow, Offset(s.seqno, w.vars[s.flow].isn), s.data, bytesPerFlow);
    }
  }

  // ---- Use over a run ----

  // Where the last segment of f is in the trace, or -1.
  function LastUse(segments: seq<Segment>, f: FlowId): (r: int)
    ensures -1 <= r < |segments| && (r >= 0 ==> segments[r].flow == f)
    ensures forall i | r < i < |segments| :: segments[i].flow != f
  {
    if segments == [] then -1
    else
      var last := |segments| - 1;
      if segments[last].flow == f then last else LastUse(segments[..last], f)
  }

  // The times of last access order the flows by their last segments.
  ghost predicate ByUse(vars: map<FlowId, Vars>, segments: seq<Segment>) {
    && (forall f: FlowId :: f in vars <==> LastUse(segments, f) >= 0)
    && (forall f, g | f in vars && g in vars ::
          vars[f].lastAccess < vars[g].lastAccess <==> LastUse(segments, f) < LastUse(segments, g))
  }

  // The same flows with the same times of last access.
  ghost predicate SameStamps(v: View, w: View) {
    w.vars.Keys == v.vars.Keys && forall f <- v.vars :: w.vars[f].lastAccess == v.vars[f].lastAccess
  }

  lemma StampsTwice(v: View, w: View, x: View)
    requires SameStamps(v, w) && SameStamps(w, x)
    ensures SameStamps(v, x)
  {
  }

  lemma PlaceStamps(w: View, f: FlowId)
    requires Ready(w, f)
    ensures SameStamps(w, PlaceNext(w, f))
  {
    ReadyChoice(w, f);
  }

  lemma {:induction false} OpenStamps(v: View, f: FlowId)
    requires CanOpen(v, f)
    ensures SameStamps(v, Open(v, f))
    decreases |v.slots|
  {
    hide Inv, Open, PlaceNext, CanContract, Contract, Ready, SameStamps;
    OpenStep(v, f);
    match v.os.Fopen(f, OpenMode(v.vars[f]))
    case Opened(os, id) =>
      var w := Reopen(v, f, os, id);
      ReopenStamps(v, f, os, id);
      PlaceStamps(w, f);
      StampsTwice(v, w, Open(v, f));
    case TooManyFiles =>
      ContractStamps(v);
      OpenStamps(Contract(v), f);
      StampsTwice(v, Contract(v), Open(v, f));
  }

  lemma ReopenStamps(v: View, f: FlowId, os: Os, id: nat)
    requires f in v.vars
    ensures SameStamps(v, Reopen(v, f, os, id))
  {
  }

  lemma ContractStamps(v: View)
    requires CanContract(v)
    ensures SameStamps(v, Contract(v))
  {
    SameAges(v, Contract(v));
  }

  lemma WriteStamps(v: View, f: FlowId, offset: u32, data: seq<byte>, bytesPerFlow: nat)
    requires FlowsOk(v) && f in v.vars && v.vars[f].fp.Some?
    requires offset + |data| < 0x1_0000_0000 && (bytesPerFlow != 0 ==> offset <= bytesPerFlow)
    ensures SameStamps(v, WriteSegment(v, f, offset, data, bytesPerFlow))
  {
    hide FlowsOk, WriteAt;
    if bytesPerFlow != 0 && offset + |data| > bytesPerFlow {
      WriteFlows(v, f, offset, data[..bytesPerFlow - offset], true);
    }
  }

  lemma StoreStamps(v: View, s: Segment, bytesPerFlow: nat)
    requires Inv(v) && s.flow in v.vars && |s.data| < 0x1_0000
    ensures SameStamps(v, StoreFound(v, s, bytesPerFlow))
  {
    hide Inv, FlowsOk, Open, WriteSegment, SameStamps, StoreFound;
    StoreFoundCases(v, s, bytesPerFlow);
    SelfStamps(v);
    if !Dropped(v, s, bytesPerFlow) {
      var x := EnsureOpen(v, s.flow);
      if v.vars[s.flow].fp.None? {
        OpenStamps(v, s.flow);
      }
      WriteStamps(x, s.flow, Offset(s.seqno, v.vars[s.flow].isn), s.data, bytesPerFlow);
      StampsTwice(v, x, StoreFound(v, s, bytesPerFlow));
    }
  }

  lemma SelfStamps(v: View)
    ensures SameStamps(v, v)
  {
  }

  // A look-up makes its flow the most recently used and leaves the others as they were.
  lemma LookUpIsLatest(v: View, f: FlowId, isn: u32)
    requires Inv(v)
    ensures var w := LookUp(v, f, isn);
      && w.vars.Keys == v.vars.Keys + {f}
      && (forall g <- v.vars | g != f :: w.vars[g] == v.vars[g] && w.vars[g].lastAccess < w.vars[f].lastAccess)
  {
    hide Inv;
    AllEarlier(v);
  }

  lemma AllEarlier(v: View)
    requires Inv(v)
    ensures forall g <- v.vars :: v.vars[g].lastAccess < v.now
  {
    forall g <- v.vars ensures v.vars[g].lastAccess < v.now {
      assert FlowOk(v, g);
    }
  }

  // Storing a segment is a use of its flow and of no other.
  lemma UseStep(v: View, segments: seq<Segment>, s: Segment, bytesPerFlow: nat)
    requires Inv(v) && |s.data| < 0x1_0000 && ByUse(v.vars, segments)
    ensures ByUse(StoreView(v, s, bytesPerFlow).vars, segments + [s])
  {
    hide Inv, StoreFound;
    LookUpKeeps(v, s);
    var w := LookUp(v, s.flow, s.seqno);
    LookUpIsLatest(v, s.flow, s.seqno);
    StoreStamps(w, s, bytesPerFlow);
    UseOne(v.vars, w.vars, segments, s);
    UseStamps(w, StoreView(v, s, bytesPerFlow), segments + [s]);
  }

  lemma UseSteps(v: View, s: Segment, bytesPerFlow: nat)
    requires Inv(v) && |s.data| < 0x1_0000
    ensures forall trace | ByUse(v.vars, trace) :: ByUse(StoreView(v, s, bytesPerFlow).vars, trace + [s])
  {
    hide Inv, StoreView, ByUse;
    forall trace | ByUse(v.vars, trace) ensures ByUse(StoreView(v, s, bytesPerFlow).vars, trace + [s]) {
      UseStep(v, trace, s, bytesPerFlow);
    }
  }

  lemma UseOne(vars: map<FlowId, Vars>, vars': map<FlowId, Vars>, segments: seq<Segment>, s: Segment)
    requires ByUse(vars, segments) && vars'.Keys == vars.Keys + {s.flow}
    requires forall g <- vars | g != s.flow ::
      vars'[g] == vars[g] && vars'[g].lastAccess < vars'[s.flow].lastAccess
    ensures ByUse(vars', segments + [s])
  {
    hide LastUse;
    var after := segments + [s];
    forall f: FlowId ensures f in vars' <==> LastUse(after, f) >= 0 {
      LastUseNow(segments, s, f);
    }
    forall f, g | f in vars' && g in vars'
      ensures vars'[f].lastAccess < vars'[g].lastAccess <==> LastUse(after, f) < LastUse(after, g)
    {
      LastUseNow(segments, s, f);
      LastUseNow(segments, s, g);
    }
  }

  lemma LastUseNow(segments: seq<Segment>, s: Segment, g: FlowId)
    ensures LastUse(segments + [s], g) == if g == s.flow then |segments| else LastUse(segments, g)
  {
    assert (segments + [s])[..|segments|] == segments;
  }

  lemma UseStamps(v: View, w: View, segments: seq<Segment>)
    requires ByUse(v.vars, segments) && SameStamps(v, w)
    ensures ByUse(w.vars, segments)
  {
  }

  // So over a run the flows closed are those whose last segments came first.
  lemma OpenEvictsByUse(v: View, f: FlowId, segments: seq<Segment>) returns (closed: Slots, rest: Slots)
    requires CanOpen(v, f) && (|v.os.table| >= v.os.limit || v.nextSlot + 1 == |v.slots|) && ByUse(v.vars, segments)
    ensures ClosesJust(v, Open(v, f), f, closed) && Open(v, f).slots == [Some(f)] + rest
    ensures forall x: FlowId :: Some(x) in v.slots <==> Some(x) in closed + rest
    ensures forall i | 0 <= i < |closed + rest| :: (closed + rest)[i].Some?
    ensures forall i, j | 0 <= i < j < |closed + rest| ::
      LastUse(segments, (closed + rest)[i].value) < LastUse(segments, (closed + rest)[j].value)
  {
    hide Inv, Open, ClosesJust, CanOpen;
    closed, rest := OpenEvictsOldest(v, f);
  }

  lemma SlotsKnown(v: View)
    requires Inv(v)
    ensures Known(v.slots, v.vars) && Distinct(v.slots) && -1 <= v.nextSlot < |v.slots|
    ensures SlotsOk(v) && FlowsOk(v) && |v.os.table| <= v.os.limit
  {
  }

  // Sorting looks at nothing but the times of last access.
  lemma {:induction false} SameOrder(s: Slots, vars: map<FlowId, Vars>, vars': map<FlowId, Vars>)
    requires Known(s, vars) && vars'.Keys == vars.Keys
    requires forall f <- vars :: vars'[f].lastAccess == vars[f].lastAccess
    ensures Known(s, vars') && Sorted(s, vars') == Sorted(s, vars)
  {
    if s != [] {
      SameOrder(s[1..], vars, vars');
      SameInsert(s[0], Sorted(s[1..], vars), vars, vars');
    }
  }

  lemma {:induction false} SameInsert(x: Option<FlowId>, s: Slots, vars: map<FlowId, Vars>, vars': map<FlowId, Vars>)
    requires Known([x] + s, vars) && vars'.Keys == vars.Keys
    requires forall f <- vars :: vars'[f].lastAccess == vars[f].lastAccess
    ensures Known([x] + s, vars') && Insert(x, s, vars') == Insert(x, s, vars)
  {
    assert x in [x] + s;
    if s != [] {
      assert s[0] in [x] + s;
      SameInsert(x, s[1..], vars, vars');
    }
  }

  // Where the opening of a flow stands, and the state it will end in.
  datatype Phase = Waiting | Unplaced | Astray

  ghost function PhaseOf(v: View, f: FlowId): Phase {
    if CanOpen(v, f) then Waiting else if Ready(v, f) then Unplaced else Astray
  }

  ghost function Outcome(v: View, f: FlowId): View {
    match PhaseOf(v, f)
    case Waiting => Open(v, f)
    case Unplaced => PlaceNext(v, f)
    case Astray => v
  }

  lemma PhaseStep(v: View, f: FlowId)
    requires PhaseOf(v, f) == Waiting
    ensures f in v.vars && v.vars[f].fp == None && v.os.Valid()
    ensures match v.os.Fopen(f, OpenMode(v.vars[f]))
      case Opened(os, id) =>
        var w := Reopen(v, f, os, id);
        PhaseOf(w, f) == Unplaced && Outcome(w, f) == Outcome(v, f)
      case TooManyFiles =>
        && CanContract(v) && |Contract(v).slots| < |v.slots|
        && PhaseOf(Contract(v), f) == Waiting && Outcome(Contract(v), f) == Outcome(v, f)
      case NoSuchFile => false
  {
    OpenStep(v, f);
  }

  // ---- store_packet as a whole ----

  ghost function LookUp(v: View, f: FlowId, isn: u32): View {
    if f in v.vars then Touch(v, f) else Create(v, f, isn)
  }

  lemma LookUpKeeps(v: View, s: Segment)
    requires Inv(v)
    ensures var w := LookUp(v, s.flow, s.seqno);
      Inv(w) && Records(w) == Records(v)[s.flow := RecordOf(Records(v), s)]
  {
    if s.flow in v.vars {
      TouchKeeps(v, s.flow);
      TouchRecords(v, s.flow);
    } else {
      CreateKeeps(v, s.flow, s.seqno);
      CreateRecords(v, s.flow, s.seqno);
    }
  }

  ghost function EnsureOpen(v: View, f: FlowId): View
    requires Inv(v) && f in v.vars && !v.vars[f].finished
  {
    if v.vars[f].fp.Some? then v else Open(v, f)
  }

  lemma EnsureOpenKeeps(v: View, f: FlowId)
    requires Inv(v) && f in v.vars && !v.vars[f].finished
    ensures Inv(EnsureOpen(v, f)) && OpenedFlow(v, EnsureOpen(v, f), f)
  {
    hide SlotsOk, Open;
    assert FlowOk(v, f);
    if v.vars[f].fp == None {
      OpenKeeps(v, f);
    }
  }

  // Cuts the data at the limit, writes it, and closes a flow that reached the limit.
  ghost function WriteSegment(v: View, f: FlowId, offset: u32, data: seq<byte>, bytesPerFlow: nat): View
    requires FlowsOk(v) && f in v.vars && v.vars[f].fp.Some?
    requires offset + |data| < 0x1_0000_0000 && (bytesPerFlow != 0 ==> offset <= bytesPerFlow)
  {
    if bytesPerFlow != 0 && offset + |data| > bytesPerFlow then
      WriteFlows(v, f, offset, data[..bytesPerFlow - offset], true);
      var w := Write(v, f, offset, data[..bytesPerFlow - offset], true);
      assert FlowOk(w, f);
      Close(w, f)
    else Write(v, f, offset, data, false)
  }

  lemma WriteSegmentKeeps(v: View, f: FlowId, offset: u32, data: seq<byte>, bytesPerFlow: nat)
    requires Inv(v) && f in v.vars && v.vars[f].fp.Some? && v.vars[f].fileExists && f in v.os.disk
    requires offset + |data| < 0x1_0000_0000 && (bytesPerFlow != 0 ==> offset <= bytesPerFlow)
    ensures Inv(WriteSegment(v, f, offset, data, bytesPerFlow))
    ensures var full := bytesPerFlow != 0 && offset + |data| > bytesPerFlow;
      var d := if full then data[..bytesPerFlow - offset] else data;
      Records(WriteSegment(v, f, offset, data, bytesPerFlow))
      == Records(v)[f := FlowRecord(v.vars[f].isn, full, Some(WriteAt(v.os.disk[f], offset, d)))]
  {
    var full := bytesPerFlow != 0 && offset + |data| > bytesPerFlow;
    var d := if full then data[..bytesPerFlow - offset] else data;
    WriteKeeps(v, f, offset, d, full);
    WriteRecords(v, f, offset, d, full);
    if full {
      var w := Write(v, f, offset, d, full);
      assert FlowOk(w, f);
      CloseFinished(w, f);
      CloseRecords(w, f);
    }
  }

  // store_packet once the flow is found: drop the segment, or open the file and write.
  ghost function StoreFound(v: View, s: Segment, bytesPerFlow: nat): View
    requires Inv(v) && s.flow in v.vars && |s.data| < 0x1_0000
  {
    if Dropped(v, s, bytesPerFlow) then v
    else
      EnsureOpenKeeps(v, s.flow);
      WriteSegment(EnsureOpen(v, s.flow), s.flow, Offset(s.seqno, v.vars[s.flow].isn), s.data, bytesPerFlow)
  }

  ghost predicate Dropped(v: View, s: Segment, bytesPerFlow: nat)
    requires s.flow in v.vars
  {
    var offset := Offset(s.seqno, v.vars[s.flow].isn);
    v.vars[s.flow].finished || offset >= 0xffff_0000 || (bytesPerFlow != 0 && offset > bytesPerFlow)
  }

  lemma StoreFoundCases(v: View, s: Segment, bytesPerFlow: nat)
    requires Inv(v) && s.flow in v.vars && |s.data| < 0x1_0000
    ensures Dropped(v, s, bytesPerFlow) ==> StoreFound(v, s, bytesPerFlow) == v
    ensures !Dropped(v, s, bytesPerFlow) ==>
      var x := EnsureOpen(v, s.flow);
      && FlowsOk(x) && s.flow in x.vars && x.vars[s.flow].fp.Some?
      && StoreFound(v, s, bytesPerFlow)
         == WriteSegment(x, s.flow, Offset(s.seqno, v.vars[s.flow].isn), s.data, bytesPerFlow)
  {
    hide WriteSegment, EnsureOpen;
    if !Dropped(v, s, bytesPerFlow) {
      EnsureOpenKeeps(v, s.flow);
    }
  }

  lemma StoreFoundKeeps(v: View, s: Segment, bytesPerFlow: nat)
    requires Inv(v) && s.flow in v.vars && |s.data| < 0x1_0000
    ensures Inv(StoreFound(v, s, bytesPerFlow))
    ensures Records(StoreFound(v, s, bytesPerFlow))
         == Records(v)[s.flow := StoreRecord(Records(v)[s.flow], s, bytesPerFlow)]
  {
    hide Inv, FlowsOk, Open, WriteSegment, EnsureOpen;
    var f := s.flow;
    var offset := Offset(s.seqno, v.vars[f].isn);
    var r := Records(v)[f];
    if !Dropped(v, s, bytesPerFlow) {
      EnsureOpenKeeps(v, f);
      var x := EnsureOpen(v, f);
      assert Content(r) == x.os.disk[f];
      WriteSegmentKeeps(x, f, offset, s.data, bytesPerFlow);
    }
  }

  ghost function StoreView(v: View, s: Segment, bytesPerFlow: nat): View
    requires Inv(v) && |s.data| < 0x1_0000
  {
    LookUpKeeps(v, s);
    StoreFound(LookUp(v, s.flow, s.seqno), s, bytesPerFlow)
  }

  // The cache is invisible: the bounded ring stores a segment exactly as the plain map does.
  lemma StoreRefines(v: View, s: Segment, bytesPerFlow: nat)
    requires Inv(v) && |s.data| < 0x1_0000
    ensures Inv(StoreView(v, s, bytesPerFlow))
    ensures Records(StoreView(v, s, bytesPerFlow)) == Store(Records(v), s, bytesPerFlow)
  {
    hide Inv;
    LookUpKeeps(v, s);
    StoreFoundKeeps(LookUp(v, s.flow, s.seqno), s, bytesPerFlow);
  }

  // ---- Files of other flows ----

  ghost predicate SameElsewhere(d: map<FlowId, seq<byte>>, d': map<FlowId, seq<byte>>, f: FlowId) {
    forall g :: g != f ==> (g in d <==> g in d') && (g in d && g in d' ==> d[g] == d'[g])
  }

  lemma {:induction false} OpenElsewhere(v: View, f: FlowId)
    requires CanOpen(v, f)
    ensures SameElsewhere(v.os.disk, Open(v, f).os.disk, f)
    decreases |v.slots|
  {
    hide Inv, SlotsOk, OpenOk;
    OpenStep(v, f);
    var r := v.os.Fopen(f, OpenMode(v.vars[f]));
    if r.Opened? {
      PlacedFlow(Reopen(v, f, r.os, r.id), f);
    } else {
      OpenElsewhere(Contract(v), f);
      ContractFlow(v, f);
    }
  }

  lemma WriteElsewhere(v: View, f: FlowId, offset: u32, data: seq<byte>, bytesPerFlow: nat)
    requires FlowsOk(v) && f in v.vars && v.vars[f].fp.Some?
    requires offset + |data| < 0x1_0000_0000 && (bytesPerFlow != 0 ==> offset <= bytesPerFlow)
    ensures SameElsewhere(v.os.disk, WriteSegment(v, f, offset, data, bytesPerFlow).os.disk, f)
  {
    hide FlowsOk, WriteAt;
    if bytesPerFlow != 0 && offset + |data| > bytesPerFlow {
      WriteFlows(v, f, offset, data[..bytesPerFlow - offset], true);
    } else {
      WriteFlows(v, f, offset, data, false);
    }
  }

  // Storing a segment touches no file but the one of its flow, whatever is already on the disk.
  lemma StoreElsewhere(v: View, s: Segment, bytesPerFlow: nat)
    requires Inv(v) && |s.data| < 0x1_0000
    ensures SameElsewhere(v.os.disk, StoreView(v, s, bytesPerFlow).os.disk, s.flow)
  {
    hide Inv, FlowsOk, SlotsOk, OpenOk, Records, WriteSegment, Open;
    LookUpKeeps(v, s);
    var f := s.flow;
    var w := LookUp(v, f, s.seqno);
    var offset := Offset(s.seqno, w.vars[f].isn);
    if !Dropped(w, s, bytesPerFlow) {
      EnsureOpenKeeps(w, f);
      InvFlows(EnsureOpen(w, f));
      WriteElsewhere(EnsureOpen(w, f), f, offset, s.data, bytesPerFlow);
      if w.vars[f].fp.None? {
        OpenElsewhere(w, f);
      }
    }
  }

  lemma InvFlows(v: View)
    requires Inv(v)
    ensures FlowsOk(v)
  {
  }
}
