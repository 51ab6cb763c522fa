/** File events of redis_ae/tcpproxy/ae.c with its three backends: the table of masks, the largest
    descriptor in use, and what the kernel has been asked to watch. */
module FileEvents {
  // AE_READABLE and AE_WRITABLE as two flags; AE_NONE is neither.
  datatype Mask = Mask(readable: bool, writable: bool) {
    function Or(m: Mask): Mask {
      Mask(readable || m.readable, writable || m.writable)
    }

    function And(m: Mask): Mask {
      Mask(readable && m.readable, writable && m.writable)
    }

    function Minus(m: Mask): Mask {
      Mask(readable && !m.readable, writable && !m.writable)
    }
  }

  const NONE := Mask(false, false)

  datatype Filter = Read | Write

  // What the kernel holds. misused records an epoll ADD of a present descriptor or a MOD or DEL of an absent one.
  datatype Api =
    | Epoll(interest: map<nat, Mask>, misused: bool)
    | Select(rfds: set<nat>, wfds: set<nat>)
    | Kqueue(filters: set<(nat, Filter)>)

  datatype Loop = Loop(events: seq<Mask>, maxfd: int, api: Api)

  // ---- The kernel ----

  datatype Ctl = ADD | MOD | DEL

  // epoll_ctl; room is false when the kernel refuses a new descriptor for reasons of its own.
  function EpollCtl(api: Api, op: Ctl, fd: nat, mask: Mask, room: bool): (Api, bool)
    requires api.Epoll?
  {
    match op
    case ADD =>
      if fd in api.interest then (api.(misused := true), false)
      else if !room then (api, false)
      else (api.(interest := api.interest[fd := mask]), true)
    case MOD =>
      if fd !in api.interest then (api.(misused := true), false)
      else (api.(interest := api.interest[fd := mask]), true)
    case DEL =>
      if fd !in api.interest then (api.(misused := true), false)
      else (api.(interest := api.interest - {fd}), true)
  }

  // Which events of fd the kernel watches.
  function Watched(api: Api, fd: nat): Mask {
    match api
    case Epoll(interest, _) => if fd in interest then interest[fd] else NONE
    case Select(r, w) => Mask(fd in r, fd in w)
    case Kqueue(f) => Mask((fd, Read) in f, (fd, Write) in f)
  }

  // ---- The backends ----

  // aeApiAddEvent; ok1 and ok2 are the answers of the kernel calls that can fail.
  function ApiAdd(api: Api, events: seq<Mask>, fd: nat, mask: Mask, ok1: bool, ok2: bool): (Api, bool)
    requires fd < |events|
  {
    match api
    case Epoll(_, _) => EpollCtl(api, if events[fd] == NONE then ADD else MOD, fd, mask.Or(events[fd]), ok1)
    case Select(r, w) => (Select(if mask.readable then r + {fd} else r, if mask.writable then w + {fd} else w), true)
    case Kqueue(f) =>
      if mask.readable && !ok1 then (api, false)
      else
        var g := if mask.readable then f + {(fd, Read)} else f;
        if mask.writable && !ok2 then (Kqueue(g), false)
        else (Kqueue(if mask.writable then g + {(fd, Write)} else g), true)
  }

  // aeApiDelEvent, called when the table has been changed already; the kernel's answers are ignored.
  function ApiDel(api: Api, events: seq<Mask>, fd: nat, mask: Mask): Api
    requires fd < |events|
  {
    match api
    case Epoll(_, _) =>
      var left := events[fd].Minus(mask);
      EpollCtl(api, if left != NONE then MOD else DEL, fd, left, true).0
    case Select(r, w) => Select(if mask.readable then r - {fd} else r, if mask.writable then w - {fd} else w)
    case Kqueue(f) =>
      var g := if mask.readable then f - {(fd, Read)} else f;
      Kqueue(if mask.writable then g - {(fd, Write)} else g)
  }

  // ---- What has to hold between calls ----

  // The largest descriptor below n with a mask, or -1.
  function Largest(events: seq<Mask>, n: nat): (r: int)
    requires n <= |events|
    ensures -1 <= r < n && (r >= 0 ==> events[r] != NONE)
    ensures forall j | r < j < n :: events[j] == NONE
  {
    if n == 0 then -1 else if events[n - 1] != NONE then n - 1 else Largest(events, n - 1)
  }

  // The kernel watches exactly what the table says.
  ghost predicate InStep(api: Api, events: seq<Mask>) {
    && (forall fd: nat :: Watched(api, fd) == if fd < |events| then events[fd] else NONE)
    && (api.Epoll? ==> !api.misused && forall fd <- api.interest :: api.interest[fd] != NONE)
  }

  ghost predicate Good(s: Loop) {
    s.maxfd == Largest(s.events, |s.events|) && InStep(s.api, s.events)
  }

  // ---- The operations as functions ----

  // aeCreateFileEvent
  function Create(s: Loop, fd: nat, mask: Mask, ok1: bool, ok2: bool): (Loop, bool) {
    if fd >= |s.events| then (s, false)
    else
      var (api, ok) := ApiAdd(s.api, s.events, fd, mask, ok1, ok2);
      if !ok then (s.(api := api), false)
      else (Loop(s.events[fd := s.events[fd].Or(mask)], if fd > s.maxfd then fd else s.maxfd, api), true)
  }

  // aeDeleteFileEvent
  function Delete(s: Loop, fd: nat, mask: Mask): Loop {
    if fd >= |s.events| || s.events[fd] == NONE then s
    else
      var events := s.events[fd := s.events[fd].Minus(mask)];
      Loop(events, if fd == s.maxfd && events[fd] == NONE then Largest(events, fd) else s.maxfd,
           ApiDel(s.api, events, fd, mask))
  }

  lemma LargestIs(events: seq<Mask>, n: nat, r: int)
    requires n <= |events| && -1 <= r < n && (r >= 0 ==> events[r] != NONE)
    requires forall j | r < j < n :: events[j] == NONE
    ensures Largest(events, n) == r
  {
  }

  // The call of aeCreateFileEvent that puts table and kernel out of step: an empty mask for a descriptor
  // without events, or a kqueue that takes the first filter and refuses the second.
  predicate Harmless(s: Loop, fd: nat, mask: Mask, ok1: bool, ok2: bool) {
    fd < |s.events| ==>
      match s.api
      case Epoll(_, _) => mask == NONE && s.events[fd] == NONE ==> !ok1
      case Select(_, _) => mask == NONE ==> fd <= s.maxfd
      case Kqueue(_) =>
        && (mask == NONE ==> fd <= s.maxfd)
        && (mask.readable && mask.writable && ok1 && !ok2 ==> s.events[fd].readable)
  }

  lemma AddWatched(api: Api, events: seq<Mask>, fd: nat, mask: Mask, ok1: bool, ok2: bool)
    requires InStep(api, events) && fd < |events| && ApiAdd(api, events, fd, mask, ok1, ok2).1
    requires api.Epoll? ==> mask != NONE || events[fd] != NONE
    ensures InStep(ApiAdd(api, events, fd, mask, ok1, ok2).0, events[fd := events[fd].Or(mask)])
  {
    var more, after := events[fd].Or(mask), ApiAdd(api, events, fd, mask, ok1, ok2).0;
    assert Watched(api, fd) == events[fd];
    assert api.Epoll? ==> more != NONE && after.interest[fd] == more;
    forall x: nat ensures Watched(after, x) == if x == fd then more else Watched(api, x) {
      match api
      case Epoll(_, _) =>
      case Select(_, _) =>
      case Kqueue(_) =>
    }
  }

  // A refused call leaves the kernel as it was, unless a kqueue took a filter that was not there.
  lemma AddRefused(api: Api, events: seq<Mask>, fd: nat, mask: Mask, ok1: bool, ok2: bool)
    requires InStep(api, events) && fd < |events| && !ApiAdd(api, events, fd, mask, ok1, ok2).1
    requires api.Kqueue? && mask.readable && mask.writable && ok1 && !ok2 ==> events[fd].readable
    ensures ApiAdd(api, events, fd, mask, ok1, ok2).0 == api
  {
    assert Watched(api, fd) == events[fd];
    if api.Kqueue? {
      assert ApiAdd(api, events, fd, mask, ok1, ok2).0.filters == api.filters;
    }
  }

  lemma AddInStep(s: Loop, fd: nat, mask: Mask, ok1: bool, ok2: bool)
    requires Good(s) && fd < |s.events|
    ensures Harmless(s, fd, mask, ok1, ok2) ==>
      var (t, ok) := Create(s, fd, mask, ok1, ok2); InStep(t.api, t.events) && (!ok ==> t == s)
  {
    hide InStep, Largest;
    if Harmless(s, fd, mask, ok1, ok2) {
      if ApiAdd(s.api, s.events, fd, mask, ok1, ok2).1 {
        AddWatched(s.api, s.events, fd, mask, ok1, ok2);
      } else {
        AddRefused(s.api, s.events, fd, mask, ok1, ok2);
      }
    }
  }

  lemma AddLargest(s: Loop, fd: nat, mask: Mask)
    requires Good(s) && fd < |s.events| && (mask != NONE || fd <= s.maxfd)
    ensures var events := s.events[fd := s.events[fd].Or(mask)];
      Largest(events, |events|) == if fd > s.maxfd then fd else s.maxfd
  {
    var events := s.events[fd := s.events[fd].Or(mask)];
    LargestIs(events, |events|, if fd > s.maxfd then fd else s.maxfd);
  }

  // aeCreateFileEvent keeps table, maximum and kernel together exactly when the call is harmless.
  lemma CreateExact(s: Loop, fd: nat, mask: Mask, ok1: bool, ok2: bool)
    requires Good(s)
    ensures Good(Create(s, fd, mask, ok1, ok2).0) <==> Harmless(s, fd, mask, ok1, ok2)
  {
    var (t, ok) := Create(s, fd, mask, ok1, ok2);
    if fd < |s.events| {
      assert Watched(s.api, fd) == s.events[fd];
      AddInStep(s, fd, mask, ok1, ok2);
      if ok && (mask != NONE || fd <= s.maxfd) {
        AddLargest(s, fd, mask);
      }
      if Good(t) {
        assert Watched(t.api, fd) == t.events[fd];
      }
    }
  }

  // The kernel takes every call that this registration makes: an epoll_ctl ADD for a descriptor without events
  // (ok1), or the kevent calls for the read filter (ok1) and the write filter (ok2).
  ghost predicate Accepted(api: Api, events: seq<Mask>, fd: nat, mask: Mask, ok1: bool, ok2: bool)
    requires fd < |events|
  {
    match api
    case Epoll(_, _) => events[fd].readable || events[fd].writable || ok1
    case Select(_, _) => true
    case Kqueue(_) => (mask.readable ==> ok1) && (mask.writable ==> ok2)
  }

  // What the kernel watches of the descriptor afterwards: an accepted registration adds exactly the events asked
  // for, and of a refused one a kqueue may have taken the read filter.
  lemma ApiAddExact(api: Api, events: seq<Mask>, fd: nat, mask: Mask, ok1: bool, ok2: bool)
    requires InStep(api, events) && fd < |events|
    ensures var (a, ok) := ApiAdd(api, events, fd, mask, ok1, ok2); var was, now := events[fd], Watched(a, fd);
      && (ok <==> Accepted(api, events, fd, mask, ok1, ok2))
      && (forall x: nat | x != fd :: Watched(a, x) == Watched(api, x))
      && now.readable == (was.readable || (mask.readable && (ok || (api.Kqueue? && ok1))))
      && now.writable == (was.writable || (mask.writable && ok))
  {
    assert Watched(api, fd) == events[fd];
  }

  // A registration succeeds exactly when the descriptor is in the table and the kernel takes the calls; then exactly
  // the events asked for are added. A refused one leaves the table as it is.
  lemma CreateAdds(s: Loop, fd: nat, mask: Mask, ok1: bool, ok2: bool)
    requires Good(s)
    ensures var (t, ok) := Create(s, fd, mask, ok1, ok2);
      && (ok <==> fd < |s.events| && Accepted(s.api, s.events, fd, mask, ok1, ok2))
      && |t.events| == |s.events|
      && (forall x | 0 <= x < |s.events| && x != fd :: t.events[x] == s.events[x])
      && (ok ==> t.events[fd] == Mask(s.events[fd].readable || mask.readable, s.events[fd].writable || mask.writable))
      && (ok ==> t.maxfd == if fd > s.maxfd then fd else s.maxfd)
      && (!ok ==> t.events == s.events && t.maxfd == s.maxfd)
      && (fd >= |s.events| ==> t.api == s.api)
      && (fd < |s.events| ==> t.api == ApiAdd(s.api, s.events, fd, mask, ok1, ok2).0)
  {
    hide Largest, ApiAdd, InStep, Accepted;
    if fd < |s.events| {
      ApiAddExact(s.api, s.events, fd, mask, ok1, ok2);
    }
  }

  // In particular the kernel watches what the table says of every descriptor after a registration that succeeds.
  lemma CreateWatches(s: Loop, fd: nat, mask: Mask, ok1: bool, ok2: bool, x: nat)
    requires Good(s) && Create(s, fd, mask, ok1, ok2).1 && x < |s.events|
    ensures var t := Create(s, fd, mask, ok1, ok2).0; Watched(t.api, x) == t.events[x]
  {
    hide Largest, ApiAdd, Accepted;
    CreateAdds(s, fd, mask, ok1, ok2);
    ApiAddExact(s.api, s.events, fd, mask, ok1, ok2);
    assert Watched(s.api, x) == s.events[x];
  }

  // A deletion takes exactly the events in the mask away, in the table and in the kernel.
  lemma DeleteTakes(s: Loop, fd: nat, mask: Mask)
    requires Good(s)
    ensures var t := Delete(s, fd, mask);
      && |t.events| == |s.events| && (fd >= |s.events| ==> t == s)
      && (forall x | 0 <= x < |s.events| && x != fd :: t.events[x] == s.events[x])
      && (forall x: nat | x != fd :: Watched(t.api, x) == Watched(s.api, x))
      && (fd < |s.events| ==> t.events[fd] == Watched(t.api, fd))
      && (fd < |s.events| ==> t.events[fd].readable == (s.events[fd].readable && !mask.readable))
      && (fd < |s.events| ==> t.events[fd].writable == (s.events[fd].writable && !mask.writable))
  {
    hide Largest;
    if fd < |s.events| {
      assert Watched(s.api, fd) == s.events[fd];
    }
  }

  lemma DelInStep(api: Api, events: seq<Mask>, fd: nat, mask: Mask)
    requires InStep(api, events) && fd < |events| && events[fd] != NONE
    ensures var left := events[fd := events[fd].Minus(mask)]; InStep(ApiDel(api, left, fd, mask), left)
  {
    var left := events[fd := events[fd].Minus(mask)];
    var after := ApiDel(api, left, fd, mask);
    assert Watched(api, fd) == events[fd];
    assert left[fd].Minus(mask) == left[fd];
    forall x: nat ensures Watched(after, x) == if x == fd then left[fd] else Watched(api, x) {
      match api
      case Epoll(m, _) =>
      case Select(r, w) =>
      case Kqueue(f) =>
    }
  }

  lemma DeleteKeeps(s: Loop, fd: nat, mask: Mask)
    requires Good(s)
    ensures Good(Delete(s, fd, mask))
  {
    hide InStep, ApiDel, Largest;
    var t := Delete(s, fd, mask);
    if fd < |s.events| && s.events[fd] != NONE {
      LargestIs(t.events, |t.events|, t.maxfd);
      DelInStep(s.api, s.events, fd, mask);
    }
  }

  lemma AddThenDel(api: Api, events: seq<Mask>, fd: nat, mask: Mask, ok1: bool, ok2: bool)
    requires InStep(api, events) && fd < |events| && events[fd].And(mask) == NONE
    requires mask != NONE && ApiAdd(api, events, fd, mask, ok1, ok2).1
    ensures ApiDel(ApiAdd(api, events, fd, mask, ok1, ok2).0, events, fd, mask) == api
  {
  }

  // Registering events a descriptor did not have and deleting them again restores everything.
  lemma CreateThenDelete(s: Loop, fd: nat, mask: Mask, ok1: bool, ok2: bool)
    requires Good(s) && mask != NONE && fd < |s.events| && s.events[fd].And(mask) == NONE
    requires Create(s, fd, mask, ok1, ok2).1
    ensures Delete(Create(s, fd, mask, ok1, ok2).0, fd, mask) == s
  {
    hide InStep, ApiDel, Largest;
    var t := Create(s, fd, mask, ok1, ok2).0;
    assert t.events[fd := t.events[fd].Minus(mask)] == s.events;
    CreateExact(s, fd, mask, ok1, ok2);
    DeleteKeeps(t, fd, mask);
    AddThenDel(s.api, s.events, fd, mask, ok1, ok2);
  }

  // ---- Runs ----

  datatype Op = Register(fd: nat, mask: Mask, ok1: bool, ok2: bool) | Unregister(fd: nat, mask: Mask)

  function Step(s: Loop, op: Op): Loop {
    match op
    case Register(fd, mask, ok1, ok2) => Create(s, fd, mask, ok1, ok2).0
    case Unregister(fd, mask) => Delete(s, fd, mask)
  }

  function Run(s: Loop, ops: seq<Op>): Loop
    decreases |ops|
  {
    if ops == [] then s else Run(Step(s, ops[0]), ops[1..])
  }

  // Every registration is harmless in the state it meets.
  predicate AllHarmless(s: Loop, ops: seq<Op>)
    decreases |ops|
  {
    ops != [] ==>
      && (match ops[0]
          case Register(fd, mask, ok1, ok2) => Harmless(s, fd, mask, ok1, ok2)
          case Unregister(_, _) => true)
      && AllHarmless(Step(s, ops[0]), ops[1..])
  }

  // Table, maximum and kernel agree in every state of the run.
  ghost predicate GoodThroughout(s: Loop, ops: seq<Op>)
    decreases |ops|
  {
    Good(s) && (ops != [] ==> GoodThroughout(Step(s, ops[0]), ops[1..]))
  }

  // In every state of a run they agree, and epoll_ctl is never misused, exactly when every registration is harmless.
  lemma {:induction false} RunExact(s: Loop, ops: seq<Op>)
    requires Good(s)
    ensures GoodThroughout(s, ops) <==> AllHarmless(s, ops)
    decreases |ops|
  {
    hide Good, Harmless, Create, Delete;
    if ops != [] {
      var t := Step(s, ops[0]);
      match ops[0] {
        case Register(fd, mask, ok1, ok2) => CreateExact(s, fd, mask, ok1, ok2);
        case Unregister(fd, mask) => DeleteKeeps(s, fd, mask);
      }
      if Good(t) {
        RunExact(t, ops[1..]);
      }
    }
  }

  lemma {:induction false} RunKeeps(s: Loop, ops: seq<Op>)
    requires Good(s) && AllHarmless(s, ops)
    ensures Good(Run(s, ops))
    decreases |ops|
  {
    hide Good, Harmless, Create, Delete;
    if ops != [] {
      match ops[0] {
        case Register(fd, mask, ok1, ok2) => CreateExact(s, fd, mask, ok1, ok2);
        case Unregister(fd, mask) => DeleteKeeps(s, fd, mask);
      }
      RunKeeps(Step(s, ops[0]), ops[1..]);
    }
  }

  // What a caller can see to beforehand: no empty mask, and kqueue filters that are taken together.
  ghost predicate Sound(ops: seq<Op>) {
    forall op <- ops | op.Register? :: op.mask != NONE && (op.ok1 ==> op.ok2)
  }

  lemma {:induction false} SoundIsHarmless(s: Loop, ops: seq<Op>)
    requires Sound(ops)
    ensures AllHarmless(s, ops)
    decreases |ops|
  {
    if ops != [] {
      assert ops[0] in ops;
      SoundIsHarmless(Step(s, ops[0]), ops[1..]);
    }
  }

  // ---- The scan after select ----

  datatype Fired = Fired(fd: nat, mask: Mask)

  // What the scan reports for the descriptors below n: every one with a mask, also when nothing of it is ready.
  function Scan(events: seq<Mask>, n: nat, r: set<nat>, w: set<nat>): seq<Fired>
    requires n <= |events|
  {
    if n == 0 then []
    else if events[n - 1] == NONE then Scan(events, n - 1, r, w)
    else Scan(events, n - 1, r, w) + [Fired(n - 1, events[n - 1].And(Mask(n - 1 in r, n - 1 in w)))]
  }

  lemma {:induction false} ScanReports(events: seq<Mask>, n: nat, r: set<nat>, w: set<nat>, fd: nat)
    requires n <= |events|
    ensures forall f <- Scan(events, n, r, w) ::
      f.fd < n && events[f.fd] != NONE && f.mask == events[f.fd].And(Mask(f.fd in r, f.fd in w))
    ensures (exists f <- Scan(events, n, r, w) :: f.fd == fd) <==> fd < n && events[fd] != NONE
    ensures |Scan(events, n, r, w)| <= n
    ensures var s := Scan(events, n, r, w); forall a, b | 0 <= a < b < |s| :: s[a].fd < s[b].fd
  {
    if n > 0 {
      ScanReports(events, n - 1, r, w, fd);
      if n - 1 == fd && events[fd] != NONE {
        assert Scan(events, n, r, w)[|Scan(events, n, r, w)| - 1].fd == fd;
      }
    }
  }

  // select sees the sets up to maxfd only, and that is enough: a descriptor's event is reported
  // exactly when it is registered and ready.
  lemma SelectMissesNothing(s: Loop, readyR: set<nat>, readyW: set<nat>, fd: nat)
    requires Good(s) && s.api.Select? && fd < |s.events|
    ensures var r, w := Seen(s.api.rfds, readyR, s.maxfd), Seen(s.api.wfds, readyW, s.maxfd);
      var fired := if r == {} && w == {} then [] else Scan(s.events, s.maxfd + 1, r, w);
      && ((exists f <- fired :: f.fd == fd && f.mask.readable) <==> s.events[fd].readable && fd in readyR)
      && ((exists f <- fired :: f.fd == fd && f.mask.writable) <==> s.events[fd].writable && fd in readyW)
  {
    var r, w := Seen(s.api.rfds, readyR, s.maxfd), Seen(s.api.wfds, readyW, s.maxfd);
    assert Watched(s.api, fd) == s.events[fd];
    assert fd in r <==> s.events[fd].readable && fd in readyR;
    assert fd in w <==> s.events[fd].writable && fd in readyW;
    ScanReports(s.events, s.maxfd + 1, r, w, fd);
  }

  // What select leaves of a set: the ready descriptors below its first argument.
  function Seen(fds: set<nat>, ready: set<nat>, maxfd: int): set<nat> {
    set fd | fd in fds && fd in ready && fd <= maxfd
  }

  class EventLoop {
    const events: array<Mask>
    var maxfd: int
    var api: Api

    ghost function View(): Loop
      reads this, events
    {
      Loop(events[..], maxfd, api)
    }

    // aeCreateEventLoop; start is the backend's empty state.
    constructor (setsize: nat, start: Api)
      requires start == Epoll(map[], false) || start == Select({}, {}) || start == Kqueue({})
      ensures Good(View()) && events.Length == setsize && fresh(events) && maxfd == -1 && api == start
    {
      events := new Mask[setsize](_ => NONE);
      maxfd, api := -1, start;
      new;
      LargestIs(events[..], setsize, -1);
    }

    // aeCreateFileEvent
    method CreateFileEvent(fd: nat, mask: Mask, ok1: bool, ok2: bool) returns (ok: bool)
      modifies this`maxfd, this`api, events
      ensures (View(), ok) == Create(old(View()), fd, mask, ok1, ok2)
      ensures old(Good(View())) ==> (Good(View()) <==> old(Harmless(View(), fd, mask, ok1, ok2)))
      ensures old(Good(View())) ==>
        (ok <==> fd < events.Length && old(Accepted(api, events[..], fd, mask, ok1, ok2)))
      ensures forall x | 0 <= x < events.Length && (x != fd || !ok) :: events[x] == old(events[x])
      ensures ok ==> fd < events.Length && events[fd] == old(events[fd]).Or(mask)
    {
      ghost var s := View();
      if Good(s) {
        CreateExact(s, fd, mask, ok1, ok2);
        CreateAdds(s, fd, mask, ok1, ok2);
      }
      if fd >= events.Length {
        return false;
      }
      var (a, added) := ApiAdd(api, events[..], fd, mask, ok1, ok2);
      api := a;
      if !added {
        return false;
      }
      events[fd] := events[fd].Or(mask);
      if fd > maxfd {
        maxfd := fd;
      }
      ok := true;
    }

    // aeDeleteFileEvent
    method DeleteFileEvent(fd: nat, mask: Mask)
      requires Good(View())
      modifies this`maxfd, this`api, events
      ensures Good(View()) && View() == Delete(old(View()), fd, mask)
    {
      DeleteKeeps(View(), fd, mask);
      if fd >= events.Length || events[fd] == NONE {
        return;
      }
      events[fd] := events[fd].Minus(mask);
      if fd == maxfd && events[fd] == NONE {
        var j := maxfd - 1;
        while j >= 0 && events[j] == NONE
          invariant -1 <= j < fd && maxfd == fd
          invariant forall i | j < i < fd :: events[i] == NONE
        {
          j := j - 1;
        }
        LargestIs(events[..], fd, j);
        maxfd := j;
      }
      api := ApiDel(api, events[..], fd, mask);
    }

    // aeApiPoll of ae_select.c
    method PollSelect(readyR: set<nat>, readyW: set<nat>, fired: array<Fired>) returns (n: nat)
      requires Good(View()) && api.Select? && fired.Length == events.Length
      modifies fired
      ensures n <= fired.Length
      ensures var r, w := Seen(api.rfds, readyR, maxfd), Seen(api.wfds, readyW, maxfd);
        fired[..n] == if r == {} && w == {} then [] else Scan(events[..], maxfd + 1, r, w)
    {
      n := 0;
      var r, w := Seen(api.rfds, readyR, maxfd), Seen(api.wfds, readyW, maxfd);
      if r == {} && w == {} {
        return;
      }
      for j := 0 to maxfd + 1
        invariant n <= j && fired[..n] == Scan(events[..], j, r, w)
      {
        if events[j] == NONE {
          continue;
        }
        fired[n] := Fired(j, events[j].And(Mask(j in r, j in w)));
        n := n + 1;
      }
    }
  }
}
