/** Where an event port keeps its associations, as values. */
module PortPlaces {
  datatype Event = Readable | Writable

  type Mask = set<Event>

  /** Each fd with a non-empty mask is in exactly one place, the kernel or one pending slot, and
      that place holds exactly its mask. A slot of -1 is free. */
  ghost predicate InPlace(events: seq<Mask>, kernel: map<int, Mask>, fds: seq<int>, masks: seq<Mask>) {
    && |fds| == |masks| && Slots(events, kernel, fds, masks) && Kernel(events, kernel)
    && (forall fd :: 0 <= fd < |events| && events[fd] != {} ==> fd in kernel || fd in fds)
  }

  ghost predicate Slots(events: seq<Mask>, kernel: map<int, Mask>, fds: seq<int>, masks: seq<Mask>)
    requires |fds| == |masks|
  {
    && (forall i, j :: 0 <= i < j < |fds| && fds[i] != -1 ==> fds[i] != fds[j])
    && (forall i :: 0 <= i < |fds| && fds[i] != -1 ==>
      0 <= fds[i] < |events| && masks[i] == events[fds[i]] != {} && fds[i] !in kernel)
  }

  ghost predicate Kernel(events: seq<Mask>, kernel: map<int, Mask>) {
    forall fd :: fd in kernel ==> 0 <= fd < |events| && kernel[fd] == events[fd] != {}
  }

  lemma AddPending(events: seq<Mask>, kernel: map<int, Mask>, fds: seq<int>, masks: seq<Mask>, i: nat, m: Mask)
    requires InPlace(events, kernel, fds, masks) && i < |fds| && fds[i] != -1
    ensures InPlace(events[fds[i] := events[fds[i]] + m], kernel, fds, masks[i := masks[i] + (m + events[fds[i]])])
  {
  }

  lemma AddKernel(events: seq<Mask>, kernel: map<int, Mask>, fds: seq<int>, masks: seq<Mask>, fd: nat, m: Mask)
    requires InPlace(events, kernel, fds, masks) && fd < |events| && fd !in fds
    ensures InPlace(events[fd := events[fd] + m], kernel[fd := m + events[fd]], fds, masks) <==> m + events[fd] != {}
  {
    var kernel' := kernel[fd := m + events[fd]];
    assert fd in kernel';
  }

  lemma DeletePending(events: seq<Mask>, kernel: map<int, Mask>, fds: seq<int>, masks: seq<Mask>, i: nat, m: Mask)
    requires InPlace(events, kernel, fds, masks) && i < |fds| && fds[i] != -1
    ensures InPlace(events[fds[i] := events[fds[i]] - m], kernel,
      if masks[i] - m == {} then fds[i := -1] else fds, masks[i := masks[i] - m])
  {
    var fd, events' := fds[i], events[fds[i] := events[fds[i]] - m];
    var fds' := if masks[i] - m == {} then fds[i := -1] else fds;
    forall f | 0 <= f < |events'| && events'[f] != {} ensures f in kernel || f in fds' {
      if f !in kernel {
        var j :| 0 <= j < |fds| && fds[j] == f;
        assert fds'[j] == f;
      }
    }
  }

  lemma DeleteKernel(events: seq<Mask>, kernel: map<int, Mask>, fds: seq<int>, masks: seq<Mask>, fd: nat, m: Mask)
    requires InPlace(events, kernel, fds, masks) && fd < |events| && fd !in fds && events[fd] != {}
    ensures fd in kernel
    ensures
      var left := events[fd] - m;
      InPlace(events[fd := left], if left == {} then kernel - {fd} else kernel[fd := left], fds, masks)
  {
  }

  lemma Restore(events: seq<Mask>, kernel: map<int, Mask>, fds: seq<int>, masks: seq<Mask>, i: nat)
    requires InPlace(events, kernel, fds, masks) && i < |fds| && fds[i] != -1
    ensures InPlace(events, kernel[fds[i] := masks[i]], fds[i := -1], masks[i := {}])
  {
    var kernel', fds' := kernel[fds[i] := masks[i]], fds[i := -1];
    forall f | 0 <= f < |events| && events[f] != {} ensures f in kernel' || f in fds' {
      if f !in kernel' {
        var j :| 0 <= j < |fds| && fds[j] == f;
        assert fds'[j] == f;
      }
    }
  }

  lemma NonePending(events: seq<Mask>, kernel: map<int, Mask>, fds: seq<int>, masks: seq<Mask>)
    requires InPlace(events, kernel, fds, masks) && forall i :: 0 <= i < |fds| ==> fds[i] == -1
    ensures InPlace(events, kernel, [], [])
  {
  }

  /** What port_getn may return: distinct associated fds, each with the mask it was associated with. */
  ghost predicate Deliverable(kernel: map<int, Mask>, fds: seq<int>, masks: seq<Mask>) {
    && |fds| == |masks|
    && (forall i, j :: 0 <= i < j < |fds| ==> fds[i] != fds[j])
    && (forall i :: 0 <= i < |fds| ==> fds[i] in kernel && masks[i] == kernel[fds[i]])
  }

  /** The user data that comes with each event: the mask of its association. */
  function UserData(kernel: map<int, Mask>, fds: seq<int>): (masks: seq<Mask>)
    ensures |masks| == |fds|
  {
    seq(|fds|, i requires 0 <= i < |fds| => if fds[i] in kernel then kernel[fds[i]] else {})
  }

  lemma Associated(events: seq<Mask>, kernel: map<int, Mask>, fds: seq<int>)
    requires InPlace(events, kernel, [], [])
    requires forall i, j :: 0 <= i < j < |fds| ==> fds[i] != fds[j]
    requires forall i :: 0 <= i < |fds| ==> 0 <= fds[i] < |events| && events[fds[i]] != {}
    ensures Deliverable(kernel, fds, UserData(kernel, fds))
  {
  }

  lemma Deliver(events: seq<Mask>, kernel: map<int, Mask>, fds: seq<int>, masks: seq<Mask>)
    requires InPlace(events, kernel, [], []) && Deliverable(kernel, fds, masks)
    ensures InPlace(events, kernel - (set fd | fd in fds), fds, masks)
  {
  }

  /** The fds in the slots. */
  ghost function Held(fds: seq<int>): set<int> {
    set fd | fd in fds && fd != -1
  }

  lemma HeldWithout(events: seq<Mask>, kernel: map<int, Mask>, fds: seq<int>, masks: seq<Mask>, i: nat)
    requires InPlace(events, kernel, fds, masks) && i < |fds| && fds[i] != -1
    ensures Held(fds[i := -1]) == Held(fds) - {fds[i]}
  {
    var fds' := fds[i := -1];
    forall f | f in Held(fds) && f != fds[i] ensures f in fds' {
      var j :| 0 <= j < |fds| && fds[j] == f;
      assert fds'[j] == f;
    }
  }

  lemma HeldRegistered(events: seq<Mask>, kernel: map<int, Mask>, fds: seq<int>, masks: seq<Mask>, fd: nat)
    requires InPlace(events, kernel, fds, masks) && fd < |events| && events[fd] == {}
    ensures fd !in Held(fds)
  {
  }

  // ---------------------------------------------------------------- maxfd

  /** The greatest registered fd, or -1. */
  ghost predicate Greatest(events: seq<Mask>, maxfd: int) {
    && -1 <= maxfd < |events| && (maxfd >= 0 ==> events[maxfd] != {})
    && forall fd :: maxfd < fd < |events| ==> events[fd] == {}
  }
}

/** The event loop over an event port, ae.c and ae_evport.c. */
module EventPort {
  import opened PortPlaces

  const MAX_EVENT_BATCHSZ := 512

  /** What port_getn does: deliver events (fds and which conditions hold for them), report a
      timeout or an interruption, or fail. */
  datatype PortResult = Events(fds: seq<int>, conditions: seq<Mask>) | Nothing | Failed

  datatype Fired = Fired(fd: int, mask: Mask)

  function Reports(fds: seq<int>, conditions: seq<Mask>): seq<Fired>
    requires |fds| == |conditions|
  {
    seq(|fds|, i requires 0 <= i < |fds| => Fired(fds[i], conditions[i]))
  }

  class EventLoop {
    const setsize: nat
    const events: array<Mask>
    var maxfd: int
    var fired: seq<Fired>
    /** The kernel's associations with the port. */
    var kernel: map<int, Mask>
    var npending: nat
    const pendingFds: array<int>
    const pendingMasks: array<Mask>

    ghost predicate Shape()
      reads this
    {
      && events.Length == setsize && npending <= MAX_EVENT_BATCHSZ
      && pendingFds.Length == MAX_EVENT_BATCHSZ && pendingMasks.Length == MAX_EVENT_BATCHSZ
      && events != pendingMasks
    }

    ghost predicate Valid()
      reads this, events, pendingFds, pendingMasks
    {
      && Shape() && Greatest(events[..], maxfd)
      && InPlace(events[..], kernel, pendingFds[..npending], pendingMasks[..npending])
    }

    constructor (setsize: nat)
      ensures Valid()
      ensures this.setsize == setsize && maxfd == -1 && kernel == map[] && npending == 0
      ensures fresh(events) && fresh(pendingFds) && fresh(pendingMasks)
    {
      this.setsize := setsize;
      events := new Mask[setsize](_ => {});
      pendingFds := new int[MAX_EVENT_BATCHSZ](_ => -1);
      pendingMasks := new Mask[MAX_EVENT_BATCHSZ](_ => {});
      maxfd, fired, kernel, npending := -1, [], map[], 0;
    }

    /** aeApiLookupPending. */
    method LookupPending(fd: int) returns (pfd: int)
      requires Shape()
      ensures pfd == -1 ==> fd !in pendingFds[..npending]
      ensures pfd != -1 ==> 0 <= pfd < npending && pendingFds[pfd] == fd
    {
      for i := 0 to npending
        invariant fd !in pendingFds[..i]
      {
        if pendingFds[i] == fd { return i; }
      }
      return -1;
    }

    /** aeApiAddEvent, called before the event loop's own mask changes; `refused` says whether
        port_associate would fail. */
    method ApiAddEvent(fd: nat, mask: Mask, refused: bool) returns (rc: int)
      requires Shape() && fd < setsize && InPlace(events[..], kernel, pendingFds[..npending], pendingMasks[..npending])
      modifies `kernel, pendingMasks
      ensures rc == 0 || rc == -1
      ensures rc == -1 <==> refused && fd !in pendingFds[..npending]
      ensures rc == -1 ==> kernel == old(kernel) && pendingMasks[..] == old(pendingMasks[..])
      ensures rc == 0 ==>
        (InPlace(events[..][fd := events[fd] + mask], kernel, pendingFds[..npending], pendingMasks[..npending])
        <==> mask + events[fd] != {})
    {
      var fullmask := mask + events[fd];
      var pfd := LookupPending(fd);
      if pfd != -1 {
        assert pendingFds[..npending][pfd] == fd;
        AddPending(events[..], kernel, pendingFds[..npending], pendingMasks[..npending], pfd, mask);
        ghost var masks := pendingMasks[..npending];
        pendingMasks[pfd] := pendingMasks[pfd] + fullmask;
        assert pendingMasks[..npending] == masks[pfd := masks[pfd] + fullmask];
        return 0;
      }
      if refused { return -1; }
      AddKernel(events[..], kernel, pendingFds[..npending], pendingMasks[..npending], fd, mask);
      kernel := kernel[fd := fullmask];
      return 0;
    }

    /** aeCreateFileEvent. Registering leaves everything in place exactly when the fd ends up with
        a non-empty mask: an empty one would leave an association the event loop forgets. */
    method CreateFileEvent(fd: nat, mask: Mask, refused: bool) returns (ok: bool)
      requires Valid()
      modifies `kernel, `maxfd, events, pendingMasks
      ensures ok <==> fd < setsize && (!refused || fd in pendingFds[..npending])
      ensures !ok ==> Valid() && events[..] == old(events[..])
      ensures ok ==> events[..] == old(events[..])[fd := old(events[fd]) + mask]
      ensures ok ==> (Valid() <==> mask + old(events[fd]) != {})
    {
      if fd >= setsize { return false; }
      var rc := ApiAddEvent(fd, mask, refused);
      if rc == -1 {
        assert pendingMasks[..npending] == pendingMasks[..][..npending];
        return false;
      }
      events[fd] := events[fd] + mask;
      if fd > maxfd { maxfd := fd; }
      return true;
    }

    /** The scan for the new greatest fd. */
    method ScanDown(from: int) returns (j: int)
      requires -1 <= from < events.Length && forall fd :: from < fd < events.Length ==> events[fd] == {}
      ensures Greatest(events[..], j)
    {
      j := from;
      while j >= 0 && events[j] == {}
        invariant -1 <= j < events.Length && forall fd :: j < fd < events.Length ==> events[fd] == {}
      {
        j := j - 1;
      }
    }

    /** aeApiDelEvent, called after the event loop's own mask has changed from `was`. The only way
        to abort is that port_associate fails: port_dissociate is called on associated fds only. */
    method ApiDelEvent(fd: nat, mask: Mask, refused: bool, ghost was: seq<Mask>) returns (aborted: bool)
      requires Shape() && fd < setsize && |was| == setsize && was[fd] != {}
      requires InPlace(was, kernel, pendingFds[..npending], pendingMasks[..npending])
      requires events[..] == was[fd := was[fd] - mask]
      modifies `kernel, pendingFds, pendingMasks
      ensures events[..] == was[fd := was[fd] - mask]
      ensures aborted <==> refused && was[fd] - mask != {} && fd !in Held(old(pendingFds[..npending]))
      ensures !aborted ==> InPlace(events[..], kernel, pendingFds[..npending], pendingMasks[..npending])
      ensures Held(pendingFds[..npending])
        == Held(old(pendingFds[..npending])) - (if was[fd] - mask == {} then {fd} else {})
    {
      var pfd := LookupPending(fd);
      if pfd != -1 {
        ghost var fds, masks := pendingFds[..npending], pendingMasks[..npending];
        assert fds[pfd] == fd;
        DeletePending(was, kernel, fds, masks, pfd, mask);
        HeldWithout(was, kernel, fds, masks, pfd);
        pendingMasks[pfd] := pendingMasks[pfd] - mask;
        if pendingMasks[pfd] == {} { pendingFds[pfd] := -1; }
        assert pendingMasks[..npending] == masks[pfd := masks[pfd] - mask];
        assert pendingFds[..npending] == if masks[pfd] - mask == {} then fds[pfd := -1] else fds;
        return false;
      }
      DeleteKernel(was, kernel, pendingFds[..npending], pendingMasks[..npending], fd, mask);
      var fullmask := events[fd];
      if fullmask == {} {
        if fd !in kernel { return true; }
        kernel := kernel - {fd};
      } else {
        if refused { return true; }
        kernel := kernel[fd := fullmask];
      }
      return false;
    }

    /** aeDeleteFileEvent. */
    method DeleteFileEvent(fd: nat, mask: Mask, refused: bool) returns (aborted: bool)
      requires Valid()
      modifies `kernel, `maxfd, events, pendingFds, pendingMasks
      ensures events[..] == if fd < setsize then old(events[..])[fd := old(events[fd]) - mask] else old(events[..])
      ensures aborted <==>
        refused && fd < setsize && old(events[fd]) - mask != {} && fd !in Held(old(pendingFds[..npending]))
      ensures !aborted ==> Valid()
      ensures Held(pendingFds[..npending]) ==
        Held(old(pendingFds[..npending])) - (if fd < setsize && old(events[fd]) - mask == {} then {fd} else {})
    {
      if fd >= setsize { return false; }
      if events[fd] == {} {
        HeldRegistered(events[..], kernel, pendingFds[..npending], pendingMasks[..npending], fd);
        assert events[fd] - mask == {};
        assert events[..] == events[..][fd := events[fd] - mask];
        return false;
      }
      ghost var was := events[..];
      events[fd] := events[fd] - mask;
      if fd == maxfd && events[fd] == {} {
        maxfd := ScanDown(maxfd - 1);
      }
      assert Greatest(events[..], maxfd);
      aborted := ApiDelEvent(fd, mask, refused, was);
    }

    /** The first loop of aeApiPoll: put what is pending back into the kernel. */
    method Reassociate(refusals: set<int>) returns (aborted: bool)
      requires Shape() && InPlace(events[..], kernel, pendingFds[..npending], pendingMasks[..npending])
      modifies `kernel, `npending, pendingFds, pendingMasks
      ensures Shape() && events[..] == old(events[..])
      ensures aborted <==> refusals * Held(old(pendingFds[..npending])) != {}
      ensures !aborted ==> npending == 0 && InPlace(events[..], kernel, [], [])
    {
      ghost var fds := pendingFds[..npending];
      for i := 0 to npending
        invariant npending == old(npending) && Shape()
        invariant events[..] == old(events[..])
        invariant InPlace(events[..], kernel, pendingFds[..npending], pendingMasks[..npending])
        invariant forall k :: 0 <= k < i ==> pendingFds[k] == -1
        invariant forall k :: i <= k < npending ==> pendingFds[k] == fds[k]
        invariant forall k :: 0 <= k < i ==> fds[k] == -1 || fds[k] !in refusals
      {
        if pendingFds[i] != -1 {
          if pendingFds[i] in refusals {
            assert fds[i] in refusals * Held(fds);
            return true;
          }
          RestoreSlot(i);
        }
      }
      NonePending(events[..], kernel, pendingFds[..npending], pendingMasks[..npending]);
      npending := 0;
      assert pendingFds[..npending] == [] && pendingMasks[..npending] == [];
      return false;
    }

    method RestoreSlot(i: nat)
      requires Shape() && InPlace(events[..], kernel, pendingFds[..npending], pendingMasks[..npending])
      requires i < npending && pendingFds[i] != -1
      modifies `kernel, pendingFds, pendingMasks
      ensures InPlace(events[..], kernel, pendingFds[..npending], pendingMasks[..npending])
      ensures events[..] == old(events[..]) && pendingFds[..] == old(pendingFds[..])[i := -1]
    {
      ghost var fds, masks := pendingFds[..npending], pendingMasks[..npending];
      Restore(events[..], kernel, fds, masks, i);
      kernel := kernel[pendingFds[i] := pendingMasks[i]];
      pendingMasks[i] := {};
      pendingFds[i] := -1;
      assert pendingFds[..npending] == fds[i := -1] && pendingMasks[..npending] == masks[i := {}];
    }

    /** aeApiPoll: what was pending goes back to the kernel, and what the port delivers leaves the
        kernel and becomes pending. Only fds with a non-empty mask are associated by then, so only
        those can be delivered. */
    method Poll(result: PortResult, refusals: set<int>) returns (numevents: nat, aborted: bool)
      requires Valid()
      requires result.Events? ==>
        && |result.fds| == |result.conditions| <= MAX_EVENT_BATCHSZ
        && (forall i, j :: 0 <= i < j < |result.fds| ==> result.fds[i] != result.fds[j])
        && (forall i :: 0 <= i < |result.fds| ==> 0 <= result.fds[i] < setsize && events[result.fds[i]] != {})
      modifies `kernel, `npending, `fired, pendingFds, pendingMasks
      ensures events[..] == old(events[..])
      ensures aborted <==> result.Failed? || refusals * Held(old(pendingFds[..npending])) != {}
      ensures !aborted ==>
        Valid() && npending == numevents && pendingFds[..npending] == if result.Events? then result.fds else []
      ensures !aborted && result.Events? ==>
        numevents == |result.fds| && fired == Reports(result.fds, result.conditions)
    {
      numevents := 0;
      aborted := Reassociate(refusals);
      if aborted || result.Failed? { return 0, true; }
      if result.Nothing? { return; }
      var fds, masks := result.fds, UserData(kernel, result.fds);
      Associated(events[..], kernel, fds);
      Deliver(events[..], kernel, fds, masks);
      kernel := kernel - (set fd | fd in fds);
      numevents := |fds|;
      npending := numevents;
      RecordEvents(fds, masks, result.conditions);
    }

    method RecordEvents(fds: seq<int>, masks: seq<Mask>, conditions: seq<Mask>)
      requires Shape() && |fds| == |masks| == |conditions| == npending
      modifies `fired, pendingFds, pendingMasks
      ensures pendingFds[..npending] == fds && pendingMasks[..npending] == masks && events[..] == old(events[..])
      ensures fired == Reports(fds, conditions)
      ensures |fired| == |fds| && forall i :: 0 <= i < |fds| ==> fired[i] == Fired(fds[i], conditions[i])
    {
      fired := [];
      for i := 0 to npending
        invariant pendingFds[..i] == fds[..i] && pendingMasks[..i] == masks[..i] && events[..] == old(events[..])
        invariant |fired| == i && forall k :: 0 <= k < i ==> fired[k] == Fired(fds[k], conditions[k])
      {
        fired := fired + [Fired(fds[i], conditions[i])];
        pendingFds[i] := fds[i];
        pendingMasks[i] := masks[i];
      }
    }
  }

  // ---------------------------------------------------------------- runs

  datatype Request =
    | Create(fd: nat, mask: Mask, refused: bool)
    | Delete(fd: nat, mask: Mask, refused: bool)
    | Wait(result: PortResult, refusals: set<int>)

  /** What the event loop is asked to do: anything but register an fd that then has no event to wait
      for, with a kernel that delivers each associated fd at most once. */
  predicate Proper(events: seq<Mask>, r: Request) {
    match r
    case Create(fd, mask, refused) => fd >= |events| || events[fd] + mask != {} || refused
    case Delete(_, _, _) => true
    case Wait(result, _) => result.Events? ==>
      && |result.fds| == |result.conditions| <= MAX_EVENT_BATCHSZ
      && (forall i, j :: 0 <= i < j < |result.fds| ==> result.fds[i] != result.fds[j])
      && (forall i :: 0 <= i < |result.fds| ==> 0 <= result.fds[i] < |events| && events[result.fds[i]] != {})
  }

  datatype Answer = Created(ok: bool) | Removed | Reported(fired: seq<Fired>) | Ignored

  /** The course of a run as the requests determine it: the mask of each fd, the fds delivered by
      the last wait and not deleted since, whether the process lives, and the answers. */
  datatype Course = Course(masks: seq<Mask>, pending: set<int>, alive: bool, answers: seq<Answer>)

  ghost function Next(c: Course, r: Request): Course {
    if !c.alive then c
    else if !Proper(c.masks, r) then c.(answers := c.answers + [Ignored])
    else
      match r
      case Create(fd, mask, refused) =>
        // port_associate is called for fds that are not pending only
        var ok := fd < |c.masks| && (fd in c.pending || !refused);
        c.(masks := if ok then c.masks[fd := c.masks[fd] + mask] else c.masks, answers := c.answers + [Created(ok)])
      case Delete(fd, mask, refused) => Deleted(c, fd, mask, refused)
      case Wait(result, refusals) =>
        if result.Failed? || refusals * c.pending != {} then c.(alive := false)
        else if result.Nothing? then c.(pending := {}, answers := c.answers + [Reported([])])
        else c.(pending := Held(result.fds), answers := c.answers + [Reported(Reports(result.fds, result.conditions))])
  }

  ghost function Deleted(c: Course, fd: nat, mask: Mask, refused: bool): Course {
    if fd >= |c.masks| then c.(answers := c.answers + [Removed])
    else
      var left := c.masks[fd] - mask;
      if left != {} && fd !in c.pending && refused then c.(alive := false)
      else
        var pending := c.pending - (if left == {} then {fd} else {});
        c.(masks := c.masks[fd := left], pending := pending, answers := c.answers + [Removed])
  }

  ghost function After(setsize: nat, requests: seq<Request>): Course {
    if requests == [] then Course(seq(setsize, _ => {}), {}, true, [])
    else Next(After(setsize, requests[..|requests| - 1]), requests[|requests| - 1])
  }

  lemma {:induction false} DeadStaysDead(setsize: nat, requests: seq<Request>, i: nat)
    requires i <= |requests| && !After(setsize, requests[..i]).alive
    ensures After(setsize, requests) == After(setsize, requests[..i])
    decreases |requests|
  {
    if i == |requests| {
      assert requests[..i] == requests;
    } else {
      var shorter := requests[..|requests| - 1];
      assert shorter[..i] == requests[..i];
      DeadStaysDead(setsize, shorter, i);
    }
  }

  /** The loop is where the course says. */
  ghost predicate Follows(loop: EventLoop, answers: seq<Answer>, c: Course)
    reads loop, loop.events, loop.pendingFds, loop.pendingMasks
  {
    match c
    case Course(masks, pending, alive, answers') =>
      alive && loop.Valid() && loop.events[..] == masks && Held(loop.pendingFds[..loop.npending]) == pending
        && answers == answers'
  }

  method Serve(loop: EventLoop, r: Request, ghost c: Course, answers: seq<Answer>)
      returns (answer: Answer, aborted: bool)
    requires Follows(loop, answers, c) && Proper(loop.events[..], r)
    modifies loop, loop.events, loop.pendingFds, loop.pendingMasks
    ensures aborted == !Next(c, r).alive
    ensures aborted ==> Next(c, r).answers == answers
    ensures !aborted ==> Follows(loop, answers + [answer], Next(c, r))
  {
    aborted, answer := false, Removed;
    match r
    case Create(fd, mask, refused) =>
      var ok := loop.CreateFileEvent(fd, mask, refused);
      answer := Created(ok);
    case Delete(fd, mask, refused) =>
      aborted := loop.DeleteFileEvent(fd, mask, refused);
    case Wait(result, refusals) =>
      var n;
      n, aborted := loop.Poll(result, refusals);
      answer := Reported(if result.Events? then loop.fired else []);
  }

  /** Every run takes the course its requests call for: the same answers, an abort exactly where an
      association that cannot be lost is refused or the port fails, and after every step the masks
      and the pending fds of that course. Valid adds that each registered fd is in one place with
      its mask and that maxfd is the greatest of them. */
  method Run(setsize: nat, requests: seq<Request>) returns (loop: EventLoop, answers: seq<Answer>, aborted: bool)
    ensures aborted == !After(setsize, requests).alive
    ensures answers == After(setsize, requests).answers
    ensures !aborted ==> Follows(loop, answers, After(setsize, requests))
  {
    loop := new EventLoop(setsize);
    answers, aborted := [], false;
    for i := 0 to |requests|
      invariant fresh(loop) && fresh(loop.events) && fresh(loop.pendingFds) && fresh(loop.pendingMasks)
      invariant Follows(loop, answers, After(setsize, requests[..i]))
    {
      var r := requests[i];
      assert requests[..i + 1][..i] == requests[..i];
      if Proper(loop.events[..], r) {
        var answer;
        answer, aborted := Serve(loop, r, After(setsize, requests[..i]), answers);
        if aborted {
          DeadStaysDead(setsize, requests, i + 1);
          return;
        }
        answers := answers + [answer];
      } else {
        answers := answers + [Ignored];
      }
    }
    assert requests[..|requests|] == requests;
  }
}
