/** unp/tcpflow/flow.c and store_packet of unp/tcpflow/tcpip.c: flow states in a chained hash
    table, and a ring that bounds how many of their files are open. */
module FlowTable {
  import opened Bytes
  import opened Streams
  import opened FlowSpec
  import opened FdRing

  const HASH_SIZE := 1009
  const NUM_RESERVED_FDS := 5

  function HashFlow(f: FlowId): (h: nat)
    ensures h < HASH_SIZE
  {
    (f.sport % 0x100 + 0x100 * (f.dport % 0x100) + 0x1_0000 * (f.src % 0x100)
     + 0x100_0000 * (f.dst % 0x100)) % HASH_SIZE
  }

  class FlowState {
    const next: FlowState?
    const flow: FlowId
    const isn: u32
    var fp: Option<nat>
    var pos: nat
    var finished: bool      // FLOW_FINISHED
    var fileExists: bool    // FLOW_FILE_EXISTS
    var lastAccess: nat

    constructor (flow: FlowId, isn: u32, next: FlowState?, now: nat)
      ensures this.flow == flow && this.isn == isn && this.next == next
      ensures fp == None && pos == 0 && !finished && !fileExists && lastAccess == now
    {
      this.next, this.flow, this.isn := next, flow, isn;
      fp, pos, finished, fileExists, lastAccess := None, 0, false, false, now;
    }
  }

  // The chain links never change once a state is made, so a bucket is a value.
  ghost predicate Linked(head: FlowState?, chain: seq<FlowState>) {
    if chain == [] then head == null
    else head == chain[0] && Linked(chain[0].next, chain[1..])
  }

  // flow_hash: an array of bucket heads, chained through next.
  class HashTable {
    const buckets: array<FlowState?>
    ghost var states: map<FlowId, FlowState>
    ghost var chains: seq<seq<FlowState>>

    ghost predicate Holds(s: FlowState)
      reads this
    {
      s.flow in states && states[s.flow] == s
    }

    ghost predicate BucketOk(head: FlowState?, chain: seq<FlowState>)
      reads this
    {
      Linked(head, chain) && forall s <- chain :: Holds(s)
    }

    // The buckets together hold exactly the flow states, each in the bucket of its flow.
    ghost predicate Valid()
      reads this, buckets
    {
      && buckets.Length == HASH_SIZE && |chains| == HASH_SIZE
      && (forall b | 0 <= b < HASH_SIZE :: BucketOk(buckets[b], chains[b]))
      && (forall f <- states :: states[f].flow == f && states[f] in chains[HashFlow(f)])
    }

    constructor ()
      ensures Valid() && states == map[] && fresh(buckets)
    {
      buckets := new FlowState?[HASH_SIZE](_ => null);
      states := map[];
      chains := seq(HASH_SIZE, _ => []);
    }

    method Add(flow: FlowId, isn: u32, now: nat) returns (s: FlowState)
      requires Valid() && flow !in states
      modifies this, buckets
      ensures Valid() && fresh(s) && states == old(states)[flow := s]
      ensures s.flow == flow && s.isn == isn
      ensures s.fp == None && s.pos == 0 && !s.finished && !s.fileExists && s.lastAccess == now
    {
      var index := HashFlow(flow);
      s := new FlowState(flow, isn, buckets[index], now);
      buckets[index] := s;
      states := states[flow := s];
      chains := chains[index := [s] + chains[index]];
    }

    method Find(flow: FlowId) returns (s: FlowState?)
      requires Valid()
      ensures flow in states ==> s == states[flow]
      ensures flow !in states ==> s == null
    {
      var index := HashFlow(flow);
      s := buckets[index];
      ghost var i := 0;
      while s != null && s.flow != flow
        invariant 0 <= i <= |chains[index]| && Linked(s, chains[index][i..])
        invariant forall k | 0 <= k < i :: chains[index][k].flow != flow
        decreases |chains[index]| - i
      {
        s := s.next;
        i := i + 1;
      }
      assert BucketOk(buckets[index], chains[index]);
      assert flow in states ==> states[flow] in chains[index];
      if s != null {
        assert s == chains[index][i] && Holds(s);
      }
    }
  }

  ghost function VarsOf(s: FlowState): Vars
    reads s
  {
    Vars(s.isn, s.fp, s.pos, s.finished, s.fileExists, s.lastAccess)
  }

  // The ring as names of flows.
  ghost function Names(s: seq<FlowState?>): (r: Slots)
    ensures |r| == |s|
  {
    seq(|s|, i requires 0 <= i < |s| => if s[i] == null then None else Some(s[i].flow))
  }

  lemma NamesCons(x: FlowState?, s: seq<FlowState?>)
    ensures Names([x] + s) == Names([x]) + Names(s)
  {
  }

  lemma NamesSkip(s: seq<FlowState?>)
    requires |s| >= 2
    ensures var t := [s[0]] + s[2..]; Names(t)[0] == Names(s)[0] && Names(t)[1..] == Names(s)[1..][1..]
  {
  }

  ghost predicate AgesMatch(s: seq<FlowState?>, vars: map<FlowId, Vars>)
    reads s
  {
    forall i | 0 <= i < |s| && s[i] != null :: s[i].flow in vars && vars[s[i].flow].lastAccess == s[i].lastAccess
  }

  ghost predicate From(r: seq<FlowState?>, s: seq<FlowState?>) {
    forall i | 0 <= i < |r| :: r[i] in s
  }

  lemma FromTransitive(r: seq<FlowState?>, t: seq<FlowState?>, s: seq<FlowState?>)
    requires From(r, t) && From(t, s)
    ensures From(r, s)
  {
  }

  method InsertByAge(s: seq<FlowState?>, ghost vars: map<FlowId, Vars>) returns (r: seq<FlowState?>)
    requires s != [] && AgesMatch(s, vars)
    ensures AgesMatch(r, vars) && From(r, s) && Known(Names(s), vars)
    ensures Names(r) == Insert(Names(s)[0], Names(s)[1..], vars)
    decreases |s|
  {
    hide Known, From;
    AgesKnown(s, vars);
    var x := s[0];
    if |s| == 1 || s[1] == null || (x != null && x.lastAccess <= s[1].lastAccess) {
      r := s;
      FromSelf(s);
      assert Names(s) == [Names(s)[0]] + Names(s)[1..];
    } else {
      var rest := InsertByAge([x] + s[2..], vars);
      NamesSkip(s);
      r := [s[1]] + rest;
      NamesCons(s[1], rest);
      FromSkip(rest, s);
    }
  }

  lemma AgesKnown(s: seq<FlowState?>, vars: map<FlowId, Vars>)
    requires AgesMatch(s, vars)
    ensures Known(Names(s), vars)
  {
  }

  lemma FromSelf(s: seq<FlowState?>)
    ensures From(s, s)
  {
  }

  lemma FromSkip(r: seq<FlowState?>, s: seq<FlowState?>)
    requires |s| >= 2 && From(r, [s[0]] + s[2..])
    ensures From([s[1]] + r, s)
  {
    assert From([s[0]] + s[2..], s);
  }

  // The C library's qsort with flow_state_compare.
  method Qsort(s: seq<FlowState?>, ghost vars: map<FlowId, Vars>) returns (r: seq<FlowState?>)
    requires AgesMatch(s, vars)
    ensures AgesMatch(r, vars) && From(r, s) && Known(Names(s), vars)
    ensures Names(r) == Sorted(Names(s), vars)
  {
    if s == [] {
      r := [];
    } else {
      var rest := Qsort(s[1..], vars);
      assert Names(s)[1..] == Names(s[1..]);
      var t := [s[0]] + rest;
      assert Names(t)[1..] == Names(rest) && Names(t)[0] == Names(s)[0];
      r := InsertByAge(t, vars);
      assert From(t, s);
      FromTransitive(r, t, s);
    }
  }

  ghost predicate Mirror(f: FlowId, s: FlowState, v: Vars)
    reads s
  {
    s.flow == f && v == VarsOf(s)
  }

  ghost predicate SlotMatches(x: FlowState?, slot: Option<FlowId>, states: map<FlowId, FlowState>) {
    match slot
    case None => x == null
    case Some(f) => f in states && x == states[f]
  }

  // Rearranged entries still match their names.
  lemma SlotsFrom(r: seq<FlowState?>, s: seq<FlowState?>, states: map<FlowId, FlowState>)
    requires From(r, s) && forall i | 0 <= i < |s| :: SlotMatches(s[i], Names(s)[i], states)
    ensures forall i | 0 <= i < |r| :: SlotMatches(r[i], Names(r)[i], states)
  {
  }

  lemma UsedIs(s: Slots, n: nat)
    requires n <= |s| && (forall j | 0 <= j < n :: s[j].Some?) && (n < |s| ==> s[n].None?)
    ensures Used(s) == n
  {
  }

  class Capture {
    const bytesPerFlow: nat
    const table: HashTable
    const fdRing: array<FlowState?>
    var maxFds: int
    var nextSlot: int
    var currentTime: nat
    var os: Os
    ghost var view: View  // all of the above, and every flow state, as one value

    ghost function States(): map<FlowId, FlowState>
      reads table
    {
      table.states
    }

    ghost predicate VarsLink(vars: map<FlowId, Vars>)
      reads table, States().Values
    {
      && (forall f :: f in vars <==> f in States())
      && forall f <- States() :: Mirror(f, States()[f], vars[f])
    }

    ghost predicate RingLink(slots: Slots)
      reads table, fdRing
    {
      && |slots| <= fdRing.Length
      && forall i | 0 <= i < |slots| :: SlotMatches(fdRing[i], slots[i], States())
    }

    ghost predicate Linked()
      reads this, table, fdRing, States().Values
    {
      && VarsLink(view.vars) && RingLink(view.slots) && maxFds == |view.slots|
      && nextSlot == view.nextSlot && currentTime == view.now && os == view.os
    }

    ghost predicate Valid()
      reads this, table, table.buckets, fdRing, States().Values
    {
      fdRing != table.buckets && table.Valid() && Linked() && Inv(view) && FinishedClosed(view)
    }

    // The record of every flow seen so far, with its file's contents.
    ghost function Abs(): Flows
      reads this
    {
      Records(view)
    }

    // init_flow_state, with the descriptor limit found by get_max_fds.
    constructor (maxDescriptors: int, bytesPerFlow: nat, disk: map<FlowId, seq<byte>>, limit: nat)
      requires maxDescriptors - NUM_RESERVED_FDS >= 1
      requires limit >= 2
      ensures Valid() && Abs() == map[] && this.bytesPerFlow == bytesPerFlow
      ensures fresh(table) && fresh(table.buckets) && fresh(fdRing) && fresh(States().Values)
      ensures maxFds == maxDescriptors - 5 && os == Os(disk, map[], 0, limit)
    {
      maxFds := maxDescriptors - NUM_RESERVED_FDS;
      fdRing := new FlowState?[maxDescriptors - NUM_RESERVED_FDS](_ => null);
      table := new HashTable();
      nextSlot := -1;
      currentTime := 0;
      this.bytesPerFlow := bytesPerFlow;
      os := Os(disk, map[], 0, limit);
      view := View(map[], seq(maxDescriptors - NUM_RESERVED_FDS, _ => None), -1, 0, Os(disk, map[], 0, limit));
    }

    // No other flow was looked up since.
    ghost predicate Latest(s: FlowState)
      reads s, table, States().Values
    {
      forall g <- States() | g != s.flow :: States()[g].lastAccess < s.lastAccess
    }

    lemma IsLatest(s: FlowState)
      requires Linked() && table.Holds(s)
      requires forall g <- view.vars | g != s.flow :: view.vars[g].lastAccess < view.vars[s.flow].lastAccess
      ensures Latest(s)
    {
      hide Capture.RingLink;
      assert Mirror(s.flow, s, view.vars[s.flow]);
      forall g <- States() | g != s.flow ensures States()[g].lastAccess < s.lastAccess {
        assert Mirror(g, States()[g], view.vars[g]);
      }
    }

    method CreateFlowState(flow: FlowId, isn: u32) returns (s: FlowState)
      requires fdRing != table.buckets && table.Valid() && Linked() && Inv(view) && flow !in States()
      modifies this`currentTime, this`view, table, table.buckets
      ensures table.Valid() && Linked() && fresh(s) && States() == old(States())[flow := s]
      ensures table.Holds(s) && s.flow == flow && s.isn == isn && Latest(s)
      ensures view == Create(old(view), flow, isn)
    {
      hide Inv;
      AllEarlier(view);
      s := table.Add(flow, isn, currentTime);
      Register(s);
    }

    // The new state is stamped with the current time; the clock moves on.
    method Register(s: FlowState)
      requires s.flow in States() && s.flow !in view.vars
      requires forall f :: f in States() <==> f == s.flow || f in view.vars
      requires forall f <- view.vars :: Mirror(f, States()[f], view.vars[f])
      requires States()[s.flow] == s && VarsOf(s) == Vars(s.isn, None, 0, false, false, view.now)
      requires RingLink(view.slots) && maxFds == |view.slots| && nextSlot == view.nextSlot
      requires currentTime == view.now && os == view.os
      requires forall g <- view.vars :: view.vars[g].lastAccess < view.now
      modifies this`currentTime, this`view
      ensures Linked() && view == Create(old(view), s.flow, s.isn) && Latest(s)
    {
      hide Capture.RingLink, Capture.Latest;
      currentTime := currentTime + 1;
      view := Create(view, s.flow, s.isn);
      IsLatest(s);
    }

    method FindFlowState(flow: FlowId) returns (s: FlowState?)
      requires table.Valid() && Linked() && Inv(view)
      modifies this`currentTime, this`view, (if flow in States() then {States()[flow]} else {})`lastAccess
      ensures Linked() && (flow in States() <==> flow in old(view).vars)
      ensures flow in States() ==> s == States()[flow] && s.flow == flow && view == Touch(old(view), flow)
      ensures flow in States() ==> Latest(s)
      ensures flow !in States() ==> s == null && view == old(view)
    {
      hide Inv, Capture.RingLink;
      s := table.Find(flow);
      if s != null {
        LookUpIsLatest(view, flow, s.isn);
        MarkAccess(s);
        IsLatest(s);
      }
    }

    // The state is stamped with the current time, and the time moves on.
    method MarkAccess(s: FlowState)
      requires Linked() && table.Holds(s)
      modifies this`currentTime, this`view, s`lastAccess
      ensures Linked() && view == Touch(old(view), s.flow)
    {
      s.lastAccess := currentTime;
      currentTime := currentTime + 1;
      view := Touch(view, s.flow);
    }

    method CloseFile(s: FlowState) returns (closed: bool)
      requires Linked() && table.Holds(s) && os.Valid()
      requires s.fp.Some? ==> s.fp.value in os.table
      modifies this`os, this`view, s`fp, s`pos
      ensures Linked() && view == Close(old(view), s.flow)
      ensures closed == old(s.fp.Some?)
    {
      if s.fp == None {
        return false;
      }
      view := Close(view, s.flow);
      os := os.Fclose(s.fp.value);
      s.fp := None;
      s.pos := 0;
      forall f <- States() ensures Mirror(f, States()[f], view.vars[f]) {
        assert old(Mirror(f, States()[f], view.vars[f]));
      }
      return true;
    }

    method SortFds()
      requires Linked() && Known(view.slots, view.vars)
      modifies this`view, fdRing
      ensures Linked() && view == old(view).(slots := Sorted(old(view).slots, old(view).vars))
    {
      var was := fdRing[..maxFds];
      var r := Qsort(was, view.vars);
      assert Names(was) == view.slots;
      view := view.(slots := Sorted(view.slots, view.vars));
      SlotsFrom(r, was, States());
      forall i | 0 <= i < maxFds {
        fdRing[i] := r[i];
      }
    }

    // Moves every slot in use down by one and forgets the rest.
    method ShiftRing()
      requires Linked() && Used(view.slots) >= 1
      modifies this`maxFds, this`nextSlot, this`view, fdRing
      ensures Linked() && view == old(view).(slots := old(view).slots[1..Used(old(view).slots)], nextSlot := -1)
    {
      hide Capture.VarsLink;
      assert forall j | 0 <= j < maxFds :: fdRing[j] == null <==> view.slots[j].None?;
      var i := ShiftDown(fdRing, maxFds);
      UsedIs(view.slots, i);
      ShiftedMatch(view.slots, i, fdRing[..], old(fdRing[..]));
      maxFds := i - 1;
      nextSlot := -1;
      view := view.(slots := view.slots[1..i], nextSlot := -1);
    }

    lemma ShiftedMatch(slots: Slots, n: nat, ring: seq<FlowState?>, was: seq<FlowState?>)
      requires 1 <= n <= |slots| <= |was| == |ring|
      requires forall j | 0 <= j < |slots| :: SlotMatches(was[j], slots[j], States())
      requires forall j | 0 <= j < n - 1 :: ring[j] == was[j + 1]
      ensures forall j | 0 <= j < n - 1 :: SlotMatches(ring[j], slots[1..n][j], States())
    {
    }

    // The shifting loop on the array: how many slots in front are in use.
    static method ShiftDown(ring: array<FlowState?>, max: int) returns (i: int)
      requires 1 <= max <= ring.Length && ring[0] != null
      modifies ring
      ensures 1 <= i <= max && (forall j | 0 <= j < i :: old(ring[j]) != null) && (i < max ==> old(ring[i]) == null)
      ensures forall j | 0 <= j < i - 1 :: ring[j] == old(ring[j + 1])
    {
      i := 1;
      while i < max && ring[i] != null
        invariant 1 <= i <= max && forall j | 0 <= j < i :: old(ring[j]) != null
        invariant forall j | 0 <= j < i - 1 :: ring[j] == old(ring[j + 1])
        invariant forall j | i - 1 <= j < ring.Length :: ring[j] == old(ring[j])
      {
        ring[i - 1] := ring[i];
        i := i + 1;
      }
    }

    method ContractFdRing()
      requires Linked() && CanContract(view)
      modifies this`os, this`view, this`maxFds, this`nextSlot, fdRing, States().Values`fp, States().Values`pos
      ensures Linked() && view == Contract(old(view))
    {
      SortFds();
      if fdRing[0] == null {
        assert false;  // die("we seem to be completely out of file descriptors")
      }
      assert SlotMatches(fdRing[0], view.slots[0], States());
      assert Mirror(fdRing[0].flow, fdRing[0], view.vars[fdRing[0].flow]);
      var _ := CloseFile(fdRing[0]);
      ShiftRing();
    }

    method AttemptFopen(s: FlowState) returns (r: OpenResult)
      requires Linked() && table.Holds(s) && os.Valid() && s.fp == None
      modifies this`os, this`view, s`fp
      ensures Linked() && r == old(os).Fopen(s.flow, OpenMode(old(view).vars[s.flow]))
      ensures view == if r.Opened? then Reopen(old(view), s.flow, r.os, r.id) else old(view)
    {
      if s.fileExists {
        r := os.Fopen(s.flow, ReadUpdate);
      } else {
        r := os.Fopen(s.flow, Truncate);
      }
      if r.Opened? {
        os := r.os;
        s.fp := Some(r.id);
        view := Reopen(view, s.flow, r.os, r.id);
        forall f <- States() ensures Mirror(f, States()[f], view.vars[f]) {
          assert old(Mirror(f, States()[f], view.vars[f]));
        }
      }
    }

    // The slot for a file just opened: the next one, or on a wrap the first of the sorted ring.
    method ChooseSlot()
      requires Linked() && SlotsOk(view) && |view.slots| >= 1
      modifies this`view, this`nextSlot, fdRing
      ensures Linked() && SlotChoice(old(view), view.slots, view.nextSlot)
      ensures view == old(view).(slots := view.slots, nextSlot := view.nextSlot)
    {
      nextSlot := nextSlot + 1;
      view := view.(nextSlot := nextSlot);
      if nextSlot == maxFds {
        SortFds();
        nextSlot := 0;
        view := view.(nextSlot := nextSlot);
      }
    }

    // Closes whatever holds the chosen slot; s itself stays open.
    method EvictSlot(s: FlowState)
      requires Linked() && table.Holds(s) && s.fp.Some? && FlowsOk(view) && 0 <= nextSlot < maxFds
      requires var slot := view.slots[nextSlot]; slot.Some? ==> slot.value in view.vars && slot.value != s.flow
      modifies this`os, this`view, States().Values`fp, States().Values`pos
      ensures Linked() && old(os.Valid())
      ensures view.slots == old(view.slots) && match old(view.slots[nextSlot])
        case None => view == old(view)
        case Some(g) => old(FlowOk(view, g)) && view == Close(old(view), g)
      ensures s.fp == old(s.fp) && s.fp.value in os.table && os.table[s.fp.value].position == s.pos
    {
      assert FlowOk(view, s.flow);
      if fdRing[nextSlot] != null {
        assert FlowOk(view, fdRing[nextSlot].flow);
        var _ := CloseFile(fdRing[nextSlot]);
      }
    }

    method TakeSlot(s: FlowState)
      requires Linked() && table.Holds(s) && s.fp.Some? && FlowsOk(view) && 0 <= nextSlot < maxFds
      requires var slot := view.slots[nextSlot]; slot.Some? ==> slot.value in view.vars && slot.value != s.flow
      modifies this`os, this`view, fdRing, States().Values`fp, States().Values`pos, s`fileExists
      ensures Linked() && view == Place(old(view), s.flow, old(view).slots, old(view).nextSlot)
      ensures s.fp == old(s.fp)
    {
      hide FlowsOk;
      EvictSlot(s);
      MarkOpened(s);
    }

    method MarkOpened(s: FlowState)
      requires Linked() && table.Holds(s) && 0 <= nextSlot < maxFds
      requires s.fp.Some? && s.fp.value in os.table && os.table[s.fp.value].position == s.pos
      modifies this`view, fdRing, s`fileExists, s`pos
      ensures Linked()
      ensures view == old(view).(slots := old(view).slots[nextSlot := Some(s.flow)],
                                 vars := old(view).vars[s.flow := old(view).vars[s.flow].(fileExists := true)])
    {
      fdRing[nextSlot] := s;
      view := view.(slots := view.slots[nextSlot := Some(s.flow)]);
      MarkExists(s);
    }

    method MarkExists(s: FlowState)
      requires Linked() && table.Holds(s)
      requires s.fp.Some? && s.fp.value in os.table && os.table[s.fp.value].position == s.pos
      modifies this`view, s`fileExists, s`pos
      ensures Linked()
      ensures view == old(view).(vars := old(view).vars[s.flow := old(view).vars[s.flow].(fileExists := true)])
    {
      hide Capture.RingLink;
      s.fileExists := true;
      s.pos := os.table[s.fp.value].position;
      view := view.(vars := view.vars[s.flow := view.vars[s.flow].(fileExists := true)]);
      forall f <- States() ensures Mirror(f, States()[f], view.vars[f]) {
        assert old(Mirror(f, States()[f], view.vars[f]));
      }
    }

    // The retry loop of open_file: a full descriptor table shrinks the ring.
    method FopenRetrying(s: FlowState)
      requires Linked() && table.Holds(s) && PhaseOf(view, s.flow) == Waiting
      modifies this`os, this`view, this`maxFds, this`nextSlot, fdRing, States().Values`fp, States().Values`pos
      ensures Linked() && PhaseOf(view, s.flow) == Unplaced
      ensures Outcome(view, s.flow) == Outcome(old(view), s.flow)
    {
      hide Capture.RingLink, Open, Close, Contract, PlaceNext, CanOpen, Ready, CanContract;
      var done := false;
      while !done
        invariant Linked()
        invariant PhaseOf(view, s.flow) == if done then Unplaced else Waiting
        invariant Outcome(view, s.flow) == Outcome(old(view), s.flow)
        decreases !done, maxFds
      {
        PhaseStep(view, s.flow);
        var r := AttemptFopen(s);
        done := r.Opened?;
        if !done {
          ContractFdRing();
        }
      }
    }

    method PlaceFile(s: FlowState)
      requires Linked() && table.Holds(s) && PhaseOf(view, s.flow) == Unplaced
      modifies this`os, this`view, this`nextSlot, fdRing
      modifies States().Values`fp, States().Values`pos, s`fileExists
      ensures Linked() && view == Outcome(old(view), s.flow)
    {
      hide Capture.RingLink, Open, Sorted, Distinct, OpenOk;
      ReadyChoice(view, s.flow);
      ChooseSlot();
      TakeSlot(s);
    }

    method OpenFile(s: FlowState) returns (fp: Option<nat>)
      requires Linked() && table.Holds(s) && (s.fp.Some? || PhaseOf(view, s.flow) == Waiting)
      modifies this`os, this`view, this`maxFds, this`nextSlot, fdRing
      modifies States().Values`fp, States().Values`pos, s`fileExists
      ensures Linked() && fp == s.fp
      ensures view == if old(s.fp.Some?) then old(view) else Outcome(old(view), s.flow)
    {
      if s.fp == None {
        FopenRetrying(s);
        PlaceFile(s);
      }
      fp := s.fp;
    }

    method SeekAndWrite(s: FlowState, offset: u32, data: seq<byte>, finished: bool)
      requires Linked() && FlowsOk(view) && table.Holds(s) && s.fp.Some?
      requires os.Valid() && FlowOk(view, s.flow)
      modifies this`os, this`view, s`pos, s`finished
      ensures Linked() && view == Write(old(view), s.flow, offset, data, finished)
      ensures s.fp == old(s.fp) && s.finished == finished
    {
      hide FlowsOk, Capture.RingLink;
      var o := os;
      if offset != s.pos {
        o := o.Fseek(s.fp.value, offset);
      }
      o := o.Fwrite(s.fp.value, data);
      view := Write(view, s.flow, offset, data, finished);
      assert o == view.os;
      os, s.finished, s.pos := o, finished, offset + |data|;
      forall f <- States() ensures Mirror(f, States()[f], view.vars[f]) {
        assert old(Mirror(f, States()[f], view.vars[f]));
      }
    }

    // The second half of store_packet: the file is open.
    method WriteData(s: FlowState, offset: u32, data: seq<byte>)
      requires Linked() && FlowsOk(view) && table.Holds(s) && s.fp.Some? && !s.finished
      requires offset + |data| < 0x1_0000_0000 && (bytesPerFlow != 0 ==> offset <= bytesPerFlow)
      modifies this`os, this`view, s`fp, s`pos, s`finished
      ensures Linked() && view == WriteSegment(old(view), s.flow, offset, data, bytesPerFlow)
    {
      hide FlowsOk, Write;
      var length := |data|;
      var full := bytesPerFlow != 0 && (offset + length) % 0x1_0000_0000 > bytesPerFlow;
      if full {
        length := bytesPerFlow - offset;
      }
      assert data[..length] == if full then data[..bytesPerFlow - offset] else data;
      WriteFlows(view, s.flow, offset, data[..length], full);
      SeekAndWrite(s, offset, data[..length], full);
      if s.finished {
        assert FlowOk(view, s.flow);
        var _ := CloseFile(s);
      }
    }

    method StoreInFlow(s: FlowState, seqno: u32, data: seq<byte>)
      requires Linked() && Inv(view) && table.Holds(s) && |data| < 0x1_0000
      modifies this`os, this`view, this`maxFds, this`nextSlot, fdRing
      modifies States().Values`fp, States().Values`pos, s`fileExists, s`finished
      ensures Linked() && view == StoreFound(old(view), Segment(s.flow, seqno, data), bytesPerFlow)
    {
      hide Inv, WriteSegment, Ready, Open, SlotsOk, OpenOk, FlowsOk, StoreFound;
      StoreFoundCases(view, Segment(s.flow, seqno, data), bytesPerFlow);
      if s.finished {
        return;
      }
      var offset := (seqno - s.isn) % 0x1_0000_0000;
      assert offset == Offset(seqno, view.vars[s.flow].isn);
      if offset >= 0xffff_0000 {
        return;
      }
      if bytesPerFlow != 0 && offset > bytesPerFlow {
        return;
      }
      EnsureOpenKeeps(view, s.flow);
      if s.fp == None {
        var _ := OpenFile(s);
      }
      assert view == EnsureOpen(old(view), s.flow);
      WriteData(s, offset, data);
    }

    lemma OpenFilesBounded()
      requires Linked() && Inv(view)
      ensures |os.table| <= maxFds && view.os == os
    {
      OpenBound(view);
    }

    // store_packet. The IP total length bounds the data by 65535 bytes.
    method StorePacket(flow: FlowId, data: seq<byte>, seqno: u32)
      requires Valid() && |data| < 0x1_0000
      modifies this, fdRing, table, table.buckets, States().Values
      ensures Valid() && fresh(States().Values - old(States().Values))
      ensures Abs() == Store(old(Abs()), Segment(flow, seqno, data), bytesPerFlow)
      ensures forall trace | ByUse(old(view).vars, trace) :: ByUse(view.vars, trace + [Segment(flow, seqno, data)])
      ensures |os.table| <= maxFds && SameElsewhere(old(os.disk), os.disk, flow)
      ensures forall f <- States() | States()[f].finished :: States()[f].fp == None
    {
      hide Inv, StoreFound, Store, Records, ByUse, FinishedClosed, Capture.Linked, Capture.Latest, HashTable.Valid;
      OpenFilesBounded();
      var s := FindFlowState(flow);
      if s == null {
        s := CreateFlowState(flow, seqno);
      }
      LookUpKeeps(old(view), Segment(flow, seqno, data));
      StoreInFlow(s, seqno, data);
      StoreRefines(old(view), Segment(flow, seqno, data), bytesPerFlow);
      StoreElsewhere(old(view), Segment(flow, seqno, data), bytesPerFlow);
      StoreCloses(old(view), Segment(flow, seqno, data), bytesPerFlow);
      UseSteps(old(view), Segment(flow, seqno, data), bytesPerFlow);
      OpenFilesBounded();
      FinishedInMemory();
    }

    lemma FinishedInMemory()
      requires Linked() && FinishedClosed(view)
      ensures forall f <- States() | States()[f].finished :: States()[f].fp == None
    {
      hide Capture.RingLink;
      forall f <- States() ensures States()[f].finished ==> States()[f].fp == None {
        assert Mirror(f, States()[f], view.vars[f]);
      }
    }

    // The capture loop: every segment of the trace is stored, in order.
    method CaptureAll(segments: seq<Segment>)
      requires Valid() && forall s <- segments :: |s.data| < 0x1_0000
      modifies this, fdRing, table, table.buckets, States().Values
      ensures Valid() && Abs() == StoreAll(old(Abs()), segments, bytesPerFlow)
      ensures forall trace | ByUse(old(view).vars, trace) :: ByUse(view.vars, trace + segments)
    {
      hide Inv, Store, Records, ByUse, Capture.Valid, Capture.Linked, HashTable.Valid;
      assert forall trace: seq<Segment> :: trace + segments[..0] == trace;
      for i := 0 to |segments|
        invariant Valid() && fresh(States().Values - old(States().Values))
        invariant Abs() == StoreAll(old(Abs()), segments[..i], bytesPerFlow)
        invariant forall trace | ByUse(old(view).vars, trace) :: ByUse(view.vars, trace + segments[..i])
      {
        assert segments[..i + 1][..i] == segments[..i];
        assert forall trace :: (trace + segments[..i]) + [segments[i]] == trace + segments[..i + 1];
        StorePacket(segments[i].flow, segments[i].data, segments[i].seqno);
      }
      assert segments[..|segments|] == segments;
    }

    // The flows by their last segments in the trace, from the times stored in memory.
    ghost predicate InOrderOfUse(segments: seq<Segment>)
      reads table, States().Values
    {
      && (forall f: FlowId :: f in States() <==> LastUse(segments, f) >= 0)
      && (forall f, g | f in States() && g in States() ::
            States()[f].lastAccess < States()[g].lastAccess <==> LastUse(segments, f) < LastUse(segments, g))
    }

    lemma UseInMemory(segments: seq<Segment>)
      requires Linked() && ByUse(view.vars, segments)
      ensures InOrderOfUse(segments)
    {
      hide Capture.RingLink;
      forall f <- States() ensures States()[f].lastAccess == view.vars[f].lastAccess {
        assert Mirror(f, States()[f], view.vars[f]);
      }
    }
  }
}