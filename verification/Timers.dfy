/** Time events of redis_ae/tcpproxy/ae.c: a list of timers that callbacks change while it is scanned,
    and the time the loop may sleep. The clock stands still during a pass. */
module Timers {
  import opened CInt

  const NOMORE := -1

  datatype Time = Time(sec: int, ms: int) {
    function Total(): int {
      1000 * sec + ms
    }

    predicate Proper() {
      0 <= ms < 1000
    }

    // What a deadline's milliseconds can be after adding any interval to the time of day.
    predicate InRange() {
      -1000 < ms < 1000
    }

    // The order in which the code compares: seconds first.
    predicate Before(t: Time) {
      sec < t.sec || (sec == t.sec && ms < t.ms)
    }
  }

  // The time of day.
  type Now = t: Time | t.Proper() witness Time(0, 0)

  // aeAddMillisecondsToNow
  function AddMilliseconds(now: Now, milliseconds: int): Time {
    var sec, ms := now.sec + Quotient(milliseconds, 1000), now.ms + Remainder(milliseconds, 1000);
    if ms >= 1000 then Time(sec + 1, ms - 1000) else Time(sec, ms)
  }

  // The sum is exact; its milliseconds are out of range for some negative intervals, exactly these.
  lemma AddIsExact(now: Now, milliseconds: int)
    ensures AddMilliseconds(now, milliseconds).Total() == now.Total() + milliseconds
    ensures AddMilliseconds(now, milliseconds).Proper() <==> now.ms + Remainder(milliseconds, 1000) >= 0
    ensures AddMilliseconds(now, milliseconds).InRange()
    ensures milliseconds >= 0 ==> AddMilliseconds(now, milliseconds).Proper()
  {
  }

  // A timer set to fire after r milliseconds is due at once exactly when r is not positive.
  lemma DueAtOnce(now: Now, r: int)
    ensures !now.Before(AddMilliseconds(now, r)) <==> r <= 0
  {
  }

  // ---- The list ----

  datatype Timer = Timer(id: nat, when: Time)

  datatype State = State(timers: seq<Timer>, nextId: nat)

  // Ids fall strictly from the head and stay below the next one; milliseconds are in range.
  ghost predicate Good(s: State) {
    && (forall a, b | 0 <= a < b < |s.timers| :: s.timers[a].id > s.timers[b].id)
    && (forall a | 0 <= a < |s.timers| :: s.timers[a].id < s.nextId && s.timers[a].when.InRange())
  }

  // Every deadline is a proper time of day.
  ghost predicate Punctual(s: State) {
    forall t <- s.timers :: t.when.Proper()
  }

  // aeCreateTimeEvent
  function Create(s: State, milliseconds: int, now: Now): State {
    State([Timer(s.nextId, AddMilliseconds(now, milliseconds))] + s.timers, s.nextId + 1)
  }

  // Where the timer with this id is, or the end.
  function Find(timers: seq<Timer>, id: nat): (r: nat)
    ensures r <= |timers| && (r < |timers| ==> timers[r].id == id)
    ensures forall a | 0 <= a < r :: timers[a].id != id
  {
    if timers == [] || timers[0].id == id then 0 else 1 + Find(timers[1..], id)
  }

  lemma FindIs(timers: seq<Timer>, id: nat, k: nat)
    requires k <= |timers| && (k < |timers| ==> timers[k].id == id)
    requires forall a | 0 <= a < k :: timers[a].id != id
    ensures Find(timers, id) == k
  {
  }

  // aeDeleteTimeEvent
  function Delete(s: State, id: nat): State {
    var k := Find(s.timers, id);
    if k == |s.timers| then s else s.(timers := s.timers[..k] + s.timers[k + 1..])
  }

  function Rearm(s: State, id: nat, when: Time): State {
    var k := Find(s.timers, id);
    if k == |s.timers| then s else s.(timers := s.timers[k := Timer(id, when)])
  }

  // Timers that exist up to maxId and are due.
  ghost function DueIds(s: State, maxId: int, now: Now): set<nat> {
    set a | 0 <= a < |s.timers| && s.timers[a].id <= maxId && !now.Before(s.timers[a].when) :: s.timers[a].id
  }

  // Below maxId nothing is new in t, except perhaps what id became.
  ghost predicate OnlyOld(s: State, t: State, maxId: int, ids: set<nat>) {
    forall a | 0 <= a < |t.timers| && t.timers[a].id <= maxId && t.timers[a].id !in ids :: t.timers[a] in s.timers
  }

  lemma CreateKeeps(s: State, milliseconds: int, now: Now, maxId: int)
    requires Good(s) && maxId < s.nextId
    ensures Good(Create(s, milliseconds, now)) && OnlyOld(s, Create(s, milliseconds, now), maxId, {})
    ensures forall t <- s.timers :: t in Create(s, milliseconds, now).timers
    ensures Punctual(s) && milliseconds >= 0 ==> Punctual(Create(s, milliseconds, now))
  {
  }

  // What is left after a deletion, position by position.
  lemma DeleteAt(s: State, id: nat)
    ensures var t, k := Delete(s, id), Find(s.timers, id);
      && |t.timers| == (if k < |s.timers| then |s.timers| - 1 else |s.timers|) && t.nextId == s.nextId
      && (forall a | 0 <= a < |t.timers| :: t.timers[a] == s.timers[if a < k then a else a + 1])
  {
    hide Find;
  }

  lemma DeleteGood(s: State, id: nat)
    requires Good(s)
    ensures Good(Delete(s, id))
    ensures forall t <- Delete(s, id).timers :: t.id != id && t in s.timers
  {
    hide Find, Delete;
    DeleteAt(s, id);
  }

  lemma DeleteKeeps(s: State, id: nat, maxId: int)
    requires Good(s)
    ensures Good(Delete(s, id)) && OnlyOld(s, Delete(s, id), maxId, {}) && Delete(s, id).nextId == s.nextId
    ensures forall t <- Delete(s, id).timers :: t.id != id && t in s.timers
    ensures forall t <- s.timers | t.id != id :: t in Delete(s, id).timers
  {
    hide Find, Delete, Good;
    DeleteGood(s, id);
    DeleteAt(s, id);
    var u, k := Delete(s, id), Find(s.timers, id);
    forall t <- s.timers | t.id != id ensures t in u.timers {
      var a :| 0 <= a < |s.timers| && s.timers[a] == t;
      assert u.timers[if a < k then a else a - 1] == t;
    }
  }

  lemma RearmKeeps(s: State, id: nat, when: Time, maxId: int)
    requires Good(s) && when.InRange()
    ensures Good(Rearm(s, id, when)) && OnlyOld(s, Rearm(s, id, when), maxId, {id})
    ensures Rearm(s, id, when).nextId == s.nextId
    ensures forall t <- Rearm(s, id, when).timers :: if t.id == id then t.when == when else t in s.timers
    ensures forall t <- s.timers :: (if t.id == id then Timer(id, when) else t) in Rearm(s, id, when).timers
  {
    hide Find;
    var u, k := Rearm(s, id, when), Find(s.timers, id);
    assert k < |s.timers| ==> u.timers[k] == Timer(id, when);
    forall a | 0 <= a < |s.timers| && a != k ensures u.timers[a] == s.timers[a] && s.timers[a].id != id {
    }
  }

  // ---- Callbacks ----

  datatype Op = Add(milliseconds: int) | Remove(id: nat)

  function Apply(s: State, ops: seq<Op>, now: Now): State
    decreases |ops|
  {
    if ops == [] then s
    else
      match ops[0]
      case Add(m) => Apply(Create(s, m, now), ops[1..], now)
      case Remove(id) => Apply(Delete(s, id), ops[1..], now)
  }

  ghost predicate Forward(ops: seq<Op>) {
    forall op <- ops | op.Add? :: op.milliseconds >= 0
  }

  lemma {:induction false} ApplyKeeps(s: State, ops: seq<Op>, now: Now, maxId: int)
    requires Good(s) && maxId < s.nextId
    ensures Good(Apply(s, ops, now)) && Apply(s, ops, now).nextId >= s.nextId
    ensures OnlyOld(s, Apply(s, ops, now), maxId, {})
    decreases |ops|
  {
    if ops != [] {
      match ops[0] {
        case Add(m) =>
          CreateKeeps(s, m, now, maxId);
          ApplyKeeps(Create(s, m, now), ops[1..], now, maxId);
        case Remove(id) =>
          DeleteKeeps(s, id, maxId);
          ApplyKeeps(Delete(s, id), ops[1..], now, maxId);
      }
    }
  }

  // How many timers these calls create.
  function Adds(ops: seq<Op>): nat {
    if ops == [] then 0 else (if ops[0].Add? then 1 else 0) + Adds(ops[1..])
  }

  // Call number k creates timer x, and no later call deletes it; base is the next id before the calls.
  ghost predicate Creates(base: nat, ops: seq<Op>, now: Now, k: nat, x: Timer) {
    && k < |ops| && ops[k].Add? && x.id == base + Adds(ops[..k])
    && x.when == AddMilliseconds(now, ops[k].milliseconds) && Remove(x.id) !in ops[k + 1..]
  }

  ghost predicate Added(base: nat, ops: seq<Op>, now: Now, x: Timer) {
    exists k: nat :: Creates(base, ops, now, k, x)
  }

  // What a callback's calls leave: the timers they do not delete, as they were, and those they create and keep.
  lemma {:induction false} ApplyExact(s: State, ops: seq<Op>, now: Now, x: Timer)
    requires Good(s)
    ensures Apply(s, ops, now).nextId == s.nextId + Adds(ops)
    ensures x in Apply(s, ops, now).timers
       <==> (x in s.timers && Remove(x.id) !in ops) || Added(s.nextId, ops, now, x)
    decreases |ops|
  {
    hide Good, Delete, AddMilliseconds;
    if ops != [] {
      var rest := ops[1..];
      LaterCreates(s.nextId, ops, now, x);
      assert ops == [ops[0]] + rest;
      match ops[0] {
        case Add(m) =>
          CreateKeeps(s, m, now, -1);
          ApplyExact(Create(s, m, now), rest, now, x);
        case Remove(id) =>
          DeleteKeeps(s, id, -1);
          ApplyExact(Delete(s, id), rest, now, x);
      }
    }
  }

  // The first call creates it, or a later one does.
  lemma LaterCreates(base: nat, ops: seq<Op>, now: Now, x: Timer)
    requires ops != []
    ensures var next: nat := if ops[0].Add? then base + 1 else base;
      Added(base, ops, now, x) <==> Creates(base, ops, now, 0, x) || Added(next, ops[1..], now, x)
    ensures Creates(base, ops, now, 0, x) <==>
      ops[0].Add? && x == Timer(base, AddMilliseconds(now, ops[0].milliseconds)) && Remove(x.id) !in ops[1..]
  {
    hide AddMilliseconds;
    var next: nat := if ops[0].Add? then base + 1 else base;
    if k: nat :| Creates(base, ops, now, k, x) {
      if k > 0 {
        CreatesShift(base, next, ops, now, k - 1, x);
      }
    }
    var rest := ops[1..];
    if k: nat :| Creates(next, rest, now, k, x) {
      CreatesShift(base, next, ops, now, k, x);
    }
  }

  lemma CreatesShift(base: nat, next: nat, ops: seq<Op>, now: Now, k: nat, x: Timer)
    requires ops != [] && next == (if ops[0].Add? then base + 1 else base)
    ensures Creates(next, ops[1..], now, k, x) <==> Creates(base, ops, now, k + 1, x)
  {
    if k + 1 < |ops| {
      assert ops[..k + 1][1..] == ops[1..][..k];
      assert ops[1..][k + 1..] == ops[k + 2..];
    }
  }

  // A timer stays as it is while nothing removes it.
  lemma {:induction false} ApplyLeaves(s: State, ops: seq<Op>, now: Now, t: Timer)
    requires Good(s) && t in s.timers && Remove(t.id) !in ops
    ensures t in Apply(s, ops, now).timers
    decreases |ops|
  {
    hide Delete, Create, Good;
    if ops != [] {
      assert ops[0] in ops;
      match ops[0] {
        case Add(m) =>
          CreateKeeps(s, m, now, -1);
          ApplyLeaves(Create(s, m, now), ops[1..], now, t);
        case Remove(id) =>
          DeleteKeeps(s, id, -1);
          ApplyLeaves(Delete(s, id), ops[1..], now, t);
      }
    }
  }

  // Intervals that are not negative keep every deadline proper.
  lemma {:induction false} ApplyPunctual(s: State, ops: seq<Op>, now: Now)
    requires Good(s) && Punctual(s) && Forward(ops)
    ensures Punctual(Apply(s, ops, now))
    decreases |ops|
  {
    hide Delete, Create, Good;
    if ops != [] {
      assert ops[0] in ops;
      match ops[0] {
        case Add(m) =>
          CreateKeeps(s, m, now, -1);
          ApplyPunctual(Create(s, m, now), ops[1..], now);
        case Remove(id) =>
          DeleteKeeps(s, id, -1);
          ApplyPunctual(Delete(s, id), ops[1..], now);
      }
    }
  }

  // A callback sees its own data, the timers and its id; it gives the calls it makes and its return value.
  type Proc<!W> = (W, State, nat) -> (W, seq<Op>, int)

  // What processTimeEvents does with a timer that is due.
  function Fire<W>(proc: Proc<W>, w: W, s: State, id: nat, now: Now): (W, State) {
    var (w', ops, r) := proc(w, s, id);
    var t := Apply(s, ops, now);
    (w', if r != NOMORE then Rearm(t, id, AddMilliseconds(now, r)) else Delete(t, id))
  }

  lemma FireGood<W(!new)>(proc: Proc<W>, w: W, s: State, id: nat, now: Now, maxId: int)
    requires Good(s) && maxId < s.nextId
    ensures var t := Fire(proc, w, s, id, now).1;
      Good(t) && maxId < t.nextId && OnlyOld(s, t, maxId, {id})
    ensures Punctual(s) && Forward(proc(w, s, id).1) && proc(w, s, id).2 >= NOMORE ==>
      Punctual(Fire(proc, w, s, id, now).1)
  {
    hide Find, Apply, Rearm, Delete, Good;
    var (_, ops, r) := proc(w, s, id);
    var u := Apply(s, ops, now);
    ApplyKeeps(s, ops, now, maxId);
    DeleteKeeps(u, id, maxId);
    AddIsExact(now, r);
    RearmKeeps(u, id, AddMilliseconds(now, r), maxId);
    if Punctual(s) && Forward(ops) {
      ApplyPunctual(s, ops, now);
    }
  }

  // Firing passes on the callback's data and carries out its calls; the timer that fired is gone if it was deleted or
  // the callback returned -1, and otherwise has its deadline as many milliseconds from now as the callback returned.
  lemma FireExact<W(!new)>(proc: Proc<W>, w: W, s: State, id: nat, now: Now, x: Timer)
    requires Good(s) && id < s.nextId
    ensures var (v, ops, r) := proc(w, s, id); var (w', t) := Fire(proc, w, s, id, now);
      && w' == v && Good(t) && t.nextId == s.nextId + Adds(ops)
      && (x.id != id ==>
            (x in t.timers
             <==> (x in s.timers && Remove(x.id) !in ops) || Added(s.nextId, ops, now, x)))
      && ((exists y <- t.timers :: y.id == id)
          <==> r != -1 && Remove(id) !in ops && exists y <- s.timers :: y.id == id)
      && (x.id == id && x in t.timers ==> x.when.Total() == now.Total() + r && (r >= 0 ==> x.when.Proper()))
  {
    hide Find, Apply, Rearm, Delete, Good, AddMilliseconds;
    var (_, ops, r) := proc(w, s, id);
    var u := Apply(s, ops, now);
    FireGood(proc, w, s, id, now, -1);
    ApplyExact(s, ops, now, x);
    OwnAfter(s, ops, now, id);
    AddIsExact(now, r);
    ApplyKeeps(s, ops, now, -1);
    DeleteKeeps(u, id, -1);
    RearmExact(u, id, AddMilliseconds(now, r), x);
  }

  // The calls create no timer under an old id.
  lemma OwnAfter(s: State, ops: seq<Op>, now: Now, id: nat)
    requires Good(s) && id < s.nextId
    ensures (exists y <- Apply(s, ops, now).timers :: y.id == id)
       <==> Remove(id) !in ops && exists y <- s.timers :: y.id == id
  {
    hide Apply, Good, AddMilliseconds;
    forall y: Timer | y.id == id ensures y in Apply(s, ops, now).timers <==> y in s.timers && Remove(id) !in ops {
      ApplyExact(s, ops, now, y);
    }
  }

  lemma RearmExact(s: State, id: nat, when: Time, x: Timer)
    requires Good(s) && when.InRange()
    ensures var t := Rearm(s, id, when);
      && t.nextId == s.nextId && (x.id != id ==> (x in t.timers <==> x in s.timers))
      && ((exists y <- t.timers :: y.id == id) <==> exists y <- s.timers :: y.id == id)
      && (x.id == id && x in t.timers ==> x.when == when)
  {
    hide Find, Rearm, Good;
    RearmKeeps(s, id, when, -1);
    var t := Rearm(s, id, when);
    if y :| y in s.timers && y.id == id {
      assert Timer(id, when) in t.timers;
    }
    if y :| y in t.timers && y.id == id && forall z <- s.timers :: z.id != id {
      RearmNothing(s, id, when);
    }
  }

  lemma RearmNothing(s: State, id: nat, when: Time)
    requires forall z <- s.timers :: z.id != id
    ensures Rearm(s, id, when) == s
  {
    FindIs(s.timers, id, |s.timers|);
  }

  // A timer whose callback does not delete it is due again exactly when it re-arms with no positive interval.
  lemma DueAgain<W(!new)>(proc: Proc<W>, w: W, s: State, id: nat, now: Now, maxId: int)
    requires Good(s) && id <= maxId < s.nextId && id in DueIds(s, maxId, now) && Remove(id) !in proc(w, s, id).1
    ensures var r := proc(w, s, id).2;
      id in DueIds(Fire(proc, w, s, id, now).1, maxId, now) <==> r != NOMORE && r <= 0
  {
    hide Find, Apply, Rearm, Delete, Good, AddMilliseconds;
    var (_, ops, r) := proc(w, s, id);
    var u, t, when := Apply(s, ops, now), Fire(proc, w, s, id, now).1, AddMilliseconds(now, r);
    var a :| 0 <= a < |s.timers| && s.timers[a].id == id;
    ApplyKeeps(s, ops, now, maxId);
    ApplyLeaves(s, ops, now, s.timers[a]);
    DeleteKeeps(u, id, maxId);
    AddIsExact(now, r);
    DueAtOnce(now, r);
    RearmKeeps(u, id, when, maxId);
    DueBy(t, maxId, now, id);
    if r != NOMORE {
      assert Timer(id, when) in t.timers;
    }
  }

  // Membership of the due ids in terms of timers.
  lemma DueBy(s: State, maxId: int, now: Now, id: nat)
    ensures id in DueIds(s, maxId, now) <==> id <= maxId && exists t <- s.timers :: t.id == id && !now.Before(t.when)
  {
    if t :| t in s.timers && t.id == id && !now.Before(t.when) {
      var a :| 0 <= a < |s.timers| && s.timers[a] == t;
    }
  }

  // A timer that is due and that nobody removes stays due while others fire.
  lemma StaysDue<W(!new)>(proc: Proc<W>, w: W, s: State, id: nat, other: nat, now: Now, maxId: int)
    requires Good(s) && maxId < s.nextId && id in DueIds(s, maxId, now)
    requires other != id && Remove(id) !in proc(w, s, other).1
    ensures id in DueIds(Fire(proc, w, s, other, now).1, maxId, now)
  {
    hide Find, Apply, Rearm, Delete, Good, AddMilliseconds;
    var (_, ops, r) := proc(w, s, other);
    var u, t := Apply(s, ops, now), Fire(proc, w, s, other, now).1;
    var a :| 0 <= a < |s.timers| && s.timers[a].id == id && !now.Before(s.timers[a].when);
    ApplyKeeps(s, ops, now, maxId);
    ApplyLeaves(s, ops, now, s.timers[a]);
    DeleteKeeps(u, other, maxId);
    AddIsExact(now, r);
    RearmKeeps(u, other, AddMilliseconds(now, r), maxId);
    assert s.timers[a] in t.timers;
    DueBy(t, maxId, now, id);
  }

  // ---- The scan ----

  // These callbacks re-arm with a positive interval or not at all, and do not delete their own timer.
  ghost predicate Polite<W(!new)>(proc: Proc<W>, ids: set<nat>) {
    forall w, s, id | id in ids :: var (_, ops, r) := proc(w, s, id); (r == NOMORE || r > 0) && Remove(id) !in ops
  }

  lemma PoliteFewer<W(!new)>(proc: Proc<W>, ids: set<nat>, few: set<nat>)
    requires Polite(proc, ids) && few <= ids
    ensures Polite(proc, few)
  {
  }

  // Firing such a timer makes no old timer due, and that one is not due any more.
  lemma FireKeeps<W(!new)>(proc: Proc<W>, w: W, s: State, id: nat, now: Now, maxId: int)
    requires Polite(proc, {id}) && Good(s) && id <= maxId < s.nextId
    ensures var t := Fire(proc, w, s, id, now).1;
      Good(t) && maxId < t.nextId && OnlyOld(s, t, maxId, {id}) && DueIds(t, maxId, now) <= DueIds(s, maxId, now) - {id}
  {
    hide Find, Fire, Good, AddMilliseconds;
    var t := Fire(proc, w, s, id, now).1;
    FireGood(proc, w, s, id, now, maxId);
    FireOnce(proc, w, s, id, now, maxId);
    forall x | x in DueIds(t, maxId, now) ensures x in DueIds(s, maxId, now) && x != id {
      var a :| 0 <= a < |t.timers| && t.timers[a].id == x && !now.Before(t.timers[a].when);
      assert t.timers[a] in s.timers;
    }
  }

  lemma FireOnce<W(!new)>(proc: Proc<W>, w: W, s: State, id: nat, now: Now, maxId: int)
    requires Polite(proc, {id}) && Good(s) && id <= maxId < s.nextId
    ensures id !in DueIds(Fire(proc, w, s, id, now).1, maxId, now)
  {
    hide Find, Apply, Rearm, Delete, Good, AddMilliseconds;
    var (_, ops, r) := proc(w, s, id);
    var u := Apply(s, ops, now);
    ApplyKeeps(s, ops, now, maxId);
    DeleteKeeps(u, id, maxId);
    AddIsExact(now, r);
    DueAtOnce(now, r);
    RearmKeeps(u, id, AddMilliseconds(now, r), maxId);
  }

  // processTimeEvents from position i on: what is left, and the ids of the timers run, in order.
  ghost function Scan<W(!new)>(proc: Proc<W>, w: W, s: State, i: nat, maxId: int, now: Now): (W, State, seq<nat>)
    requires Good(s) && i <= |s.timers| && maxId < s.nextId && Polite(proc, DueIds(s, maxId, now))
    decreases DueIds(s, maxId, now), |s.timers| - i
  {
    if i == |s.timers| then (w, s, [])
    else
      var te := s.timers[i];
      if te.id > maxId || now.Before(te.when) then Scan(proc, w, s, i + 1, maxId, now)
      else
        var (w', t) := Fire(proc, w, s, te.id, now);
        DueNow(s, i, maxId, now);
        FireKeeps(proc, w, s, te.id, now, maxId);
        var (v, u, ran) := Scan(proc, w', t, 0, maxId, now);
        (v, u, [te.id] + ran)
  }

  lemma DueNow(s: State, a: nat, maxId: int, now: Now)
    requires a < |s.timers| && s.timers[a].id <= maxId && !now.Before(s.timers[a].when)
    ensures s.timers[a].id in DueIds(s, maxId, now)
  {
  }

  // A pass runs only timers that were there and due when it began, each at most once; afterwards none of
  // the old ones is due, and an old timer that was not run is as it was.
  lemma {:induction false} ScanRuns<W(!new)>(proc: Proc<W>, w: W, s: State, i: nat, maxId: int, now: Now)
    requires Good(s) && i <= |s.timers| && maxId < s.nextId && Polite(proc, DueIds(s, maxId, now))
    requires forall a | 0 <= a < i :: s.timers[a].id > maxId || now.Before(s.timers[a].when)
    ensures var (_, u, ran) := Scan(proc, w, s, i, maxId, now);
      && Good(u) && DueIds(u, maxId, now) == {}
      && (forall x <- ran :: x in DueIds(s, maxId, now))
      && (forall a, b | 0 <= a < b < |ran| :: ran[a] != ran[b])
      && (forall t <- u.timers | t.id <= maxId && t.id !in ran :: t in s.timers)
    decreases DueIds(s, maxId, now), |s.timers| - i
  {
    hide Fire;
    if i < |s.timers| {
      var te := s.timers[i];
      if te.id > maxId || now.Before(te.when) {
        ScanRuns(proc, w, s, i + 1, maxId, now);
      } else {
        var (w', t) := Fire(proc, w, s, te.id, now);
        DueNow(s, i, maxId, now);
        FireKeeps(proc, w, s, te.id, now, maxId);
        ScanRuns(proc, w', t, 0, maxId, now);
      }
    }
  }

  // The first timer from the head that is old enough and due.
  ghost predicate FirstDue(s: State, maxId: int, now: Now, id: nat) {
    exists a :: 0 <= a < |s.timers| && s.timers[a].id == id <= maxId && !now.Before(s.timers[a].when)
      && forall b | 0 <= b < a :: s.timers[b].id > maxId || now.Before(s.timers[b].when)
  }

  // Firing these timers one after the other, each the first that is due at its turn, until none is.
  ghost predicate FiresInOrder<W(!new)>(proc: Proc<W>, w: W, s: State, ran: seq<nat>, maxId: int, now: Now)
    decreases |ran|
  {
    if ran == [] then DueIds(s, maxId, now) == {}
    else
      var (v, t) := Fire(proc, w, s, ran[0], now);
      FirstDue(s, maxId, now, ran[0]) && FiresInOrder(proc, v, t, ran[1..], maxId, now)
  }

  function FireAll<W>(proc: Proc<W>, w: W, s: State, ran: seq<nat>, now: Now): (W, State)
    decreases |ran|
  {
    if ran == [] then (w, s)
    else
      var (v, t) := Fire(proc, w, s, ran[0], now);
      FireAll(proc, v, t, ran[1..], now)
  }

  // A pass is that: its outcome is what firing those timers leaves.
  lemma {:induction false} ScanFires<W(!new)>(proc: Proc<W>, w: W, s: State, i: nat, maxId: int, now: Now)
    requires Good(s) && i <= |s.timers| && maxId < s.nextId && Polite(proc, DueIds(s, maxId, now))
    requires forall a | 0 <= a < i :: s.timers[a].id > maxId || now.Before(s.timers[a].when)
    ensures var (v, u, ran) := Scan(proc, w, s, i, maxId, now);
      (v, u) == FireAll(proc, w, s, ran, now) && FiresInOrder(proc, w, s, ran, maxId, now)
    decreases DueIds(s, maxId, now), |s.timers| - i
  {
    hide Fire, Good;
    if i < |s.timers| {
      var te := s.timers[i];
      if te.id > maxId || now.Before(te.when) {
        ScanFires(proc, w, s, i + 1, maxId, now);
      } else {
        var (w', t) := Fire(proc, w, s, te.id, now);
        DueNow(s, i, maxId, now);
        FireKeeps(proc, w, s, te.id, now, maxId);
        ScanFires(proc, w', t, 0, maxId, now);
        assert FirstDue(s, maxId, now, te.id);
      }
    }
  }

  // With intervals that are not negative all deadlines stay proper through a pass.
  lemma {:induction false} ScanPunctual<W(!new)>(proc: Proc<W>, w: W, s: State, i: nat, maxId: int, now: Now)
    requires Good(s) && i <= |s.timers| && maxId < s.nextId && Polite(proc, DueIds(s, maxId, now))
    requires Punctual(s) && forall w, s, id :: Forward(proc(w, s, id).1)
    ensures Punctual(Scan(proc, w, s, i, maxId, now).1)
    decreases DueIds(s, maxId, now), |s.timers| - i
  {
    hide Fire, Punctual, Forward, Good;
    if i < |s.timers| {
      var te := s.timers[i];
      if te.id > maxId || now.Before(te.when) {
        ScanPunctual(proc, w, s, i + 1, maxId, now);
      } else {
        var (w', t) := Fire(proc, w, s, te.id, now);
        DueNow(s, i, maxId, now);
        FireKeeps(proc, w, s, te.id, now, maxId);
        FireGood(proc, w, s, te.id, now, maxId);
        ScanPunctual(proc, w', t, 0, maxId, now);
      }
    }
  }

  // ---- When the scan ends ----

  // The loop, one turn at a time, whatever the callbacks do.
  datatype Progress<W> = At(w: W, s: State, i: nat) | Done(w: W, s: State)

  function Turn<W>(proc: Proc<W>, p: Progress<W>, maxId: int, now: Now): Progress<W> {
    match p
    case Done(_, _) => p
    case At(w, s, i) =>
      if i >= |s.timers| then Done(w, s)
      else if s.timers[i].id > maxId || now.Before(s.timers[i].when) then At(w, s, i + 1)
      else
        var (v, t) := Fire(proc, w, s, s.timers[i].id, now);
        At(v, t, 0)
  }

  function Turns<W>(proc: Proc<W>, p: Progress<W>, maxId: int, now: Now, n: nat): Progress<W>
    decreases n
  {
    if n == 0 then p else Turns(proc, Turn(proc, p, maxId, now), maxId, now, n - 1)
  }

  // Polite callbacks: some number of turns completes the pass, with the outcome of Scan.
  lemma {:induction false} TurnsEnd<W(!new)>(proc: Proc<W>, w: W, s: State, i: nat, maxId: int, now: Now)
    returns (n: nat)
    requires Good(s) && i <= |s.timers| && maxId < s.nextId && Polite(proc, DueIds(s, maxId, now))
    ensures var (v, u, _) := Scan(proc, w, s, i, maxId, now);
      Turns(proc, At(w, s, i), maxId, now, n) == Done(v, u)
    decreases DueIds(s, maxId, now), |s.timers| - i
  {
    hide Fire, Good;
    if i == |s.timers| {
      n := 1;
    } else {
      var te := s.timers[i];
      if te.id > maxId || now.Before(te.when) {
        n := TurnsEnd(proc, w, s, i + 1, maxId, now);
      } else {
        var (w', t) := Fire(proc, w, s, te.id, now);
        DueNow(s, i, maxId, now);
        FireKeeps(proc, w, s, te.id, now, maxId);
        n := TurnsEnd(proc, w', t, 0, maxId, now);
      }
      n := n + 1;
    }
  }

  // This callback always re-arms, with no positive interval, and nobody removes its timer.
  ghost predicate Stubborn<W(!new)>(proc: Proc<W>, id: nat) {
    && (forall w, s :: proc(w, s, id).2 != NOMORE && proc(w, s, id).2 <= 0)
    && (forall w, s, x :: Remove(id) !in proc(w, s, x).1)
  }

  // Then a pass that finds it due is unfinished after any number of turns.
  lemma {:induction false} NeverEnds<W(!new)>(proc: Proc<W>, id: nat, w: W, s: State, i: nat,
                                              maxId: int, now: Now, n: nat)
    requires Good(s) && maxId < s.nextId && id in DueIds(s, maxId, now) && Stubborn(proc, id)
    requires forall a | 0 <= a < |s.timers| && s.timers[a].id == id :: i <= a
    ensures Turns(proc, At(w, s, i), maxId, now, n).At?
    decreases n
  {
    hide Fire;
    if n > 0 {
      var a :| 0 <= a < |s.timers| && s.timers[a].id == id && !now.Before(s.timers[a].when);
      var te := s.timers[i];
      if te.id > maxId || now.Before(te.when) {
        NeverEnds(proc, id, w, s, i + 1, maxId, now, n - 1);
      } else {
        var (v, t) := Fire(proc, w, s, te.id, now);
        FireGood(proc, w, s, te.id, now, maxId);
        if te.id == id {
          DueAgain(proc, w, s, id, now, maxId);
        } else {
          StaysDue(proc, w, s, id, te.id, now, maxId);
        }
        NeverEnds(proc, id, v, t, 0, maxId, now, n - 1);
      }
    }
  }

  // Each callback always returns the same, and none removes a timer.
  ghost predicate Steady<W(!new)>(proc: Proc<W>, interval: nat -> int) {
    forall w, s, id :: proc(w, s, id).2 == interval(id) && forall op <- proc(w, s, id).1 :: op.Add?
  }

  // A pass over such callbacks ends exactly when every timer that is due stops or re-arms with a positive interval.
  lemma EndsExactly<W(!new)>(proc: Proc<W>, interval: nat -> int, w: W, s: State, maxId: int, now: Now)
    requires Good(s) && maxId < s.nextId && Steady(proc, interval)
    ensures (exists n: nat :: Turns(proc, At(w, s, 0), maxId, now, n).Done?)
       <==> forall id <- DueIds(s, maxId, now) :: interval(id) == NOMORE || interval(id) > 0
  {
    hide Turns, Good;
    if id :| id in DueIds(s, maxId, now) && !(interval(id) == NOMORE || interval(id) > 0) {
      forall n: nat ensures Turns(proc, At(w, s, 0), maxId, now, n).At? {
        NeverEnds(proc, id, w, s, 0, maxId, now, n);
      }
    } else {
      var n := TurnsEnd(proc, w, s, 0, maxId, now);
    }
  }

  // ---- How long to sleep ----

  datatype Wait = Poll(sec: int, usec: int) | Forever

  // The time to the nearest timer, as aeProcessEvents computes it.
  function Missing(when: Time, now: Now): Wait {
    var (sec, usec) :=
      if when.ms < now.ms then (when.sec - now.sec - 1, (when.ms + 1000 - now.ms) * 1000)
      else (when.sec - now.sec, (when.ms - now.ms) * 1000);
    Poll(if sec < 0 then 0 else sec, if usec < 0 then 0 else usec)
  }

  // The sleep ends at the deadline, or is none for a deadline in the past: exactly when for a deadline ahead
  // its milliseconds are not 1000 behind those of the clock, and for one in the past a full second was missed
  // or they are that far behind.
  lemma MissingExact(when: Time, now: Now)
    requires when.InRange()
    ensures var left, w := when.Total() - now.Total(), Missing(when, now);
      && w.Poll? && w.sec >= 0 && 0 <= w.usec < 1000000 && w.usec % 1000 == 0
      && (1000000 * w.sec + w.usec == 1000 * (if left < 0 then 0 else left)
          <==> if left > 0 then when.ms + 1000 >= now.ms else left % 1000 == 0 || when.ms + 1000 <= now.ms)
  {
  }

  // For a proper deadline: exactly when it is not past or missed by full seconds; otherwise up to 999 ms too long.
  lemma MissingProper(when: Time, now: Now)
    requires when.Proper()
    ensures var left, w := when.Total() - now.Total(), Missing(when, now);
      1000000 * w.sec + w.usec == 1000 * (if left >= 0 then left else left % 1000)
  {
  }

  // The earliest timer in the order of the code; of several the one nearest to the head.
  ghost predicate Nearest(timers: seq<Timer>, k: nat) {
    && k < |timers|
    && (forall a | 0 <= a < |timers| :: !timers[a].when.Before(timers[k].when))
    && (forall a | 0 <= a < k :: timers[k].when.Before(timers[a].when))
  }

  // It is the earliest in time exactly when no deadline of the next second is more than 1000 ms behind in milliseconds.
  lemma NearestExact(s: State, k: nat)
    requires Good(s) && Nearest(s.timers, k)
    ensures var first := s.timers[k].when;
      (forall t <- s.timers :: first.Total() <= t.when.Total())
      <==> (forall t <- s.timers :: t.when.sec == first.sec + 1 ==> t.when.ms + 1000 >= first.ms)
  {
    var first := s.timers[k].when;
    forall t <- s.timers
      ensures first.Total() <= t.when.Total() <==> (t.when.sec == first.sec + 1 ==> t.when.ms + 1000 >= first.ms)
    {
      assert !t.when.Before(first) && t.when.InRange();
    }
  }

  // So for proper deadlines it is.
  lemma NearestIsEarliest(s: State, k: nat)
    requires Good(s) && Punctual(s) && Nearest(s.timers, k)
    ensures forall t <- s.timers :: s.timers[k].when.Total() <= t.when.Total()
  {
    NearestExact(s, k);
  }

  // With a negative interval it need not be: 4800 ms comes after 4900 ms.
  lemma NearestNotEarliest()
    ensures var s := Create(Create(State([], 0), 0, Time(4, 900)), -300, Time(5, 100));
      Good(s) && Nearest(s.timers, 1) && s.timers[0].when.Total() < s.timers[1].when.Total()
  {
    var first := Create(State([], 0), 0, Time(4, 900));
    var s := Create(first, -300, Time(5, 100));
    assert first.timers == [Timer(0, Time(4, 900))];
    assert s.timers == [Timer(1, Time(5, -200)), Timer(0, Time(4, 900))];
  }

  class EventLoop {
    var timers: seq<Timer>
    var nextId: nat

    function View(): State
      reads this
    {
      State(timers, nextId)
    }

    constructor ()
      ensures Good(View()) && View() == State([], 0)
    {
      timers, nextId := [], 0;
    }

    method CreateTimeEvent(milliseconds: int, now: Now) returns (id: nat)
      requires Good(View())
      modifies this
      ensures Good(View()) && View() == Create(old(View()), milliseconds, now) && id == old(nextId)
      ensures |timers| == old(|timers|) + 1 && timers[1..] == old(timers) && nextId == id + 1
      ensures timers[0].id == id && timers[0].when.Total() == now.Total() + milliseconds
      ensures timers[0].when.Proper() <==> now.ms + Remainder(milliseconds, 1000) >= 0
    {
      AddIsExact(now, milliseconds);
      CreateKeeps(View(), milliseconds, now, -1);
      id := nextId;
      nextId := nextId + 1;
      timers := [Timer(id, AddMilliseconds(now, milliseconds))] + timers;
    }

    method DeleteTimeEvent(id: nat) returns (ok: bool)
      requires Good(View())
      modifies this
      ensures Good(View()) && View() == Delete(old(View()), id)
      ensures ok <==> exists t <- old(timers) :: t.id == id
    {
      hide Good, Find, OnlyOld;
      DeleteKeeps(View(), id, -1);
      ghost var s := View();
      var k := 0;
      while k < |timers| && timers[k].id != id
        invariant k <= |timers| && View() == s && forall a | 0 <= a < k :: timers[a].id != id
      {
        k := k + 1;
      }
      FindIs(timers, id, k);
      ok := k < |timers|;
      if ok {
        assert timers[k] in timers;
        timers := timers[..k] + timers[k + 1..];
      }
    }

    method SearchNearestTimer() returns (nearest: int)
      ensures nearest == -1 <==> timers == []
      ensures nearest != -1 ==> nearest >= 0 && Nearest(timers, nearest)
    {
      nearest := -1;
      for k := 0 to |timers|
        invariant nearest == -1 <==> k == 0
        invariant -1 <= nearest < k && (k > 0 ==> Nearest(timers[..k], nearest))
      {
        if nearest == -1 || timers[k].when.Before(timers[nearest].when) {
          nearest := k;
        }
      }
      assert timers[..|timers|] == timers;
    }

    method Call(ops: seq<Op>, now: Now)
      requires Good(View())
      modifies this
      ensures Good(View()) && View() == Apply(old(View()), ops, now)
    {
      for i := 0 to |ops|
        invariant Good(View()) && Apply(View(), ops[i..], now) == Apply(old(View()), ops, now)
      {
        match ops[i]
        case Add(m) => var _ := CreateTimeEvent(m, now);
        case Remove(id) => var _ := DeleteTimeEvent(id);
      }
    }

    // One due timer: its callback, then the new deadline or the end of the timer.
    method Run<W(!new)>(proc: Proc<W>, w: W, id: nat, now: Now) returns (v: W)
      requires Good(View())
      modifies this
      ensures (v, View()) == Fire(proc, w, old(View()), id, now)
    {
      hide Good, Find, Apply, Rearm, Delete;
      var ops, r;
      v, ops, r := Invoke(proc, w, id);
      Call(ops, now);
      if r != NOMORE {
        SetWhen(id, AddMilliseconds(now, r));
      } else {
        var _ := DeleteTimeEvent(id);
      }
    }

    // processTimeEvents
    method ProcessTimeEvents<W(!new)>(proc: Proc<W>, w: W, now: Now)
      returns (w': W, processed: nat, ghost ran: seq<nat>)
      requires Good(View()) && Polite(proc, DueIds(View(), nextId - 1, now))
      modifies this
      ensures Good(View()) && processed == |ran|
      ensures (w', View(), ran) == Scan(proc, w, old(View()), 0, old(nextId) - 1, now)
    {
      hide Good, Find, Fire, DueIds, OnlyOld, Polite;
      var maxId, i: nat := nextId - 1, 0;
      w', processed, ran := w, 0, [];
      ghost var full := Scan(proc, w, View(), 0, maxId, now);
      assert [] + full.2 == full.2;
      while i < |timers|
        invariant 0 <= i <= |timers| && Good(View()) && maxId < nextId && processed == |ran|
        invariant Polite(proc, DueIds(View(), maxId, now))
        invariant var rest := Scan(proc, w', View(), i, maxId, now); full == (rest.0, rest.1, ran + rest.2)
        decreases DueIds(View(), maxId, now), |timers| - i
      {
        var te := timers[i];
        if te.id > maxId || now.Before(te.when) {
          i := i + 1;
          continue;
        }
        DueNow(View(), i, maxId, now);
        PoliteFewer(proc, DueIds(View(), maxId, now), {te.id});
        FireKeeps(proc, w', View(), te.id, now, maxId);
        PoliteFewer(proc, DueIds(View(), maxId, now), DueIds(Fire(proc, w', View(), te.id, now).1, maxId, now));
        var v := Run(proc, w', te.id, now);
        ghost var rest := Scan(proc, v, View(), 0, maxId, now).2;
        assert ran + ([te.id] + rest) == (ran + [te.id]) + rest;
        w', processed, ran, i := v, processed + 1, ran + [te.id], 0;
      }
      assert ran + [] == ran;
    }

    method Invoke<W>(proc: Proc<W>, w: W, id: nat) returns (v: W, ops: seq<Op>, r: int)
      ensures (v, ops, r) == proc(w, View(), id)
    {
      var x := proc(w, View(), id);
      v, ops, r := x.0, x.1, x.2;
    }

    // The timer that fired gets its new deadline.
    method SetWhen(id: nat, when: Time)
      modifies this
      ensures View() == Rearm(old(View()), id, when)
    {
      var k := Find(timers, id);
      if k < |timers| {
        timers := timers[k := Timer(id, when)];
      }
    }

    // The first half of aeProcessEvents: whether it polls, and for how long.
    method PollTimeout(maxfd: int, timeEvents: bool, dontWait: bool, now: Now) returns (polls: bool, wait: Wait)
      ensures polls <==> maxfd != -1 || (timeEvents && !dontWait)
      ensures polls && dontWait ==> wait == Poll(0, 0)
      ensures polls && !dontWait && (!timeEvents || timers == []) ==> wait == Forever
      ensures polls && !dontWait && timeEvents && timers != [] ==>
        exists k: nat :: Nearest(timers, k) && wait == Missing(timers[k].when, now)
    {
      polls, wait := maxfd != -1 || (timeEvents && !dontWait), Forever;
      if polls {
        var shortest := -1;
        if timeEvents && !dontWait {
          shortest := SearchNearestTimer();
        }
        if shortest != -1 {
          wait := Missing(timers[shortest].when, now);
        } else if dontWait {
          wait := Poll(0, 0);
        }
      }
    }
  }
}
