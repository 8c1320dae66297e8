/** The event queue: pending events sorted by time, and the loop that services those due.  A
    serviced event stays at the head of the list while its action runs, so what a callback
    queues at or before the time being serviced is cut off with it. */
module EventQueue {
  import opened Bits

  datatype Action = SetBit(bmap: nat, bitnum: nat) | ClearBit(bmap: nat, bitnum: nat)
                  | SetFlag(flag: nat, value: int) | AddOp(summand: nat, addend: int)
                  | Callback(fn: nat, arg: int)

  /** `serial` counts the events queued so far; the visible id is its low 32 bits. */
  datatype Event = Event(when: int, serial: nat, action: Action)

  datatype Request = Request(when: int, action: Action)

  /** What a callback queues, given the time it is told and the event it runs for.  No event
      runs twice, and its serial tells it from all others: the same function run again with the
      same argument may queue something else, as a callback that keeps state does. */
  type Handler = (int, Event) -> seq<Request>

  datatype Queue = Queue(pending: seq<Event>, next: nat)

  /** Queue identifiers are 32-bit unsigned; the first is 1. */
  function IdOf(e: Event): nat {
    e.serial % WORD32
  }

  function Start(): Queue {
    Queue([], 1)
  }

  function Requests(h: Handler, now: int, e: Event): seq<Request> {
    if e.action.Callback? then h(now, e) else []
  }

  // ----- queueing

  /** The insertion point: after the events strictly earlier. */
  function Place(es: seq<Event>, when: int): (i: nat)
    ensures i <= |es|
    ensures forall k :: 0 <= k < i ==> es[k].when < when
    ensures i < |es| ==> es[i].when >= when
  {
    if es == [] || es[0].when >= when then 0 else 1 + Place(es[1..], when)
  }

  function Inserted(es: seq<Event>, e: Event): (r: seq<Event>)
    ensures |r| == |es| + 1
  {
    var i := Place(es, e.when);
    es[..i] + [e] + es[i..]
  }

  function Enqueue(q: Queue, r: Request): Queue {
    Queue(Inserted(q.pending, Event(r.when, q.next, r.action)), q.next + 1)
  }

  function EnqueueAll(q: Queue, rs: seq<Request>): (p: Queue)
    ensures p.next == q.next + |rs|
  {
    if rs == [] then q else Enqueue(EnqueueAll(q, rs[..|rs| - 1]), rs[|rs| - 1])
  }

  /** The events made of requests, the first numbered n. */
  function Made(rs: seq<Request>, n: nat): (es: seq<Event>)
    ensures |es| == |rs| && forall k :: 0 <= k < |rs| ==> es[k] == Event(rs[k].when, n + k, rs[k].action)
  {
    seq(|rs|, k requires 0 <= k < |rs| => Event(rs[k].when, n + k, rs[k].action))
  }

  // ----- servicing

  /** Position of the event with a given serial number. */
  function PositionOf(es: seq<Event>, serial: nat): (i: int)
    ensures -1 <= i < |es|
    ensures i >= 0 ==> es[i].serial == serial && forall k :: 0 <= k < i ==> es[k].serial != serial
    ensures i == -1 ==> forall k :: 0 <= k < |es| ==> es[k].serial != serial
  {
    if es == [] then -1
    else if es[0].serial == serial then 0
    else var i := PositionOf(es[1..], serial); if i < 0 then -1 else i + 1
  }

  /** a comes before b: earlier, or at the same time but queued later. */
  predicate Before(a: Event, b: Event) {
    a.when < b.when || (a.when == b.when && a.serial > b.serial)
  }

  ghost predicate Sorted(es: seq<Event>) {
    forall i, j {:trigger Before(es[i], es[j])} :: 0 <= i < j < |es| ==> Before(es[i], es[j])
  }

  ghost predicate Numbered(es: seq<Event>, next: nat) {
    && (forall i :: 0 <= i < |es| ==> es[i].serial < next)
    && (forall i, j {:trigger es[i], es[j]} :: 0 <= i < j < |es| ==> es[i].serial != es[j].serial)
  }

  ghost predicate Ok(q: Queue) {
    Sorted(q.pending) && Numbered(q.pending, q.next)
  }

  lemma InsertedAt(es: seq<Event>, e: Event, k: nat)
    requires k <= |es|
    ensures var i := Place(es, e.when);
      Inserted(es, e)[k] == if k < i then es[k] else if k == i then e else es[k - 1]
  {
  }

  lemma InsertSorted(es: seq<Event>, e: Event)
    requires Sorted(es) && forall i :: 0 <= i < |es| ==> es[i].serial < e.serial
    ensures Sorted(Inserted(es, e))
  {
    var p, i := Inserted(es, e), Place(es, e.when);
    forall j, k | 0 <= j < k < |p| ensures Before(p[j], p[k]) {
      InsertedAt(es, e, j);
      InsertedAt(es, e, k);
      if j != i && k != i {
        assert Before(es[if j < i then j else j - 1], es[if k < i then k else k - 1]);
      } else if j == i && k > i + 1 {
        assert Before(es[i], es[k - 1]);
      }
    }
  }

  lemma InsertNumbered(es: seq<Event>, e: Event)
    requires Numbered(es, e.serial)
    ensures Numbered(Inserted(es, e), e.serial + 1)
  {
    var p := Inserted(es, e);
    forall j | 0 <= j < |p| ensures p[j].serial < e.serial + 1 {
      InsertedAt(es, e, j);
    }
    forall j, k | 0 <= j < k < |p| ensures p[j].serial != p[k].serial {
      InsertedAt(es, e, j);
      InsertedAt(es, e, k);
    }
  }

  /** Queueing keeps the pending events sorted and numbered apart. */
  lemma EnqueueOk(q: Queue, r: Request)
    requires Ok(q)
    ensures Ok(Enqueue(q, r))
  {
    InsertSorted(q.pending, Event(r.when, q.next, r.action));
    InsertNumbered(q.pending, Event(r.when, q.next, r.action));
  }

  lemma {:induction false} EnqueueAllOk(q: Queue, rs: seq<Request>)
    requires Ok(q)
    ensures Ok(EnqueueAll(q, rs))
  {
    if rs != [] {
      EnqueueAllOk(q, rs[..|rs| - 1]);
      EnqueueOk(EnqueueAll(q, rs[..|rs| - 1]), rs[|rs| - 1]);
    }
  }

  lemma InsertMultiset(es: seq<Event>, e: Event)
    ensures multiset(Inserted(es, e)) == multiset(es) + multiset{e}
  {
    var i := Place(es, e.when);
    assert es == es[..i] + es[i..];
  }

  lemma {:induction false} EnqueueAllMultiset(q: Queue, rs: seq<Request>)
    ensures multiset(EnqueueAll(q, rs).pending) == multiset(q.pending) + multiset(Made(rs, q.next))
  {
    if rs == [] {
      assert Made(rs, q.next) == [];
    } else {
      var ss, r := rs[..|rs| - 1], rs[|rs| - 1];
      EnqueueAllMultiset(q, ss);
      var p := EnqueueAll(q, ss);
      InsertMultiset(p.pending, Event(r.when, p.next, r.action));
      assert Made(rs, q.next) == Made(ss, q.next) + [Event(r.when, p.next, r.action)];
    }
  }

  // ----- servicing one event

  datatype Served = Served(q: Queue, lost: seq<Event>)

  /** The head's action runs, then the list restarts behind the head. */
  function ServeHead(q: Queue, h: Handler, now: int): Served
    requires q.pending != []
  {
    var e := q.pending[0];
    var p := EnqueueAll(q, Requests(h, now, e));
    var i := PositionOf(p.pending, e.serial);
    if i < 0 then Served(p, []) else Served(p.(pending := p.pending[i + 1..]), p.pending[..i])
  }

  lemma {:induction false} StaysPending(q: Queue, rs: seq<Request>, e: Event)
    requires e in q.pending
    ensures e in EnqueueAll(q, rs).pending
  {
    EnqueueAllMultiset(q, rs);
    assert e in multiset(q.pending);
    assert e in multiset(EnqueueAll(q, rs).pending);
  }

  lemma AtSerial(q: Queue, e: Event)
    requires Ok(q) && e in q.pending
    ensures var i := PositionOf(q.pending, e.serial); i >= 0 && q.pending[i] == e
  {
    var k :| 0 <= k < |q.pending| && q.pending[k] == e;
    var i := PositionOf(q.pending, e.serial);
  }

  /** What is before the serviced event when its action is done, and what stays. */
  lemma ServeParts(q: Queue, h: Handler, now: int)
    requires Ok(q) && q.pending != []
    ensures var e, s := q.pending[0], ServeHead(q, h, now);
      && EnqueueAll(q, Requests(h, now, e)).pending == s.lost + [e] + s.q.pending
      && s.q.next == q.next + |Requests(h, now, e)|
  {
    var e := q.pending[0];
    var p := EnqueueAll(q, Requests(h, now, e));
    StaysPending(q, Requests(h, now, e), e);
    EnqueueAllOk(q, Requests(h, now, e));
    AtSerial(p, e);
    SplitAt(p.pending, PositionOf(p.pending, e.serial));
  }

  lemma SplitAt(es: seq<Event>, i: nat)
    requires i < |es|
    ensures es == es[..i] + [es[i]] + es[i + 1..]
  {
  }

  /** Servicing an event leaves the queue in order, with nothing before the event serviced. */
  lemma ServeOk(q: Queue, h: Handler, now: int)
    requires Ok(q) && q.pending != []
    ensures var e, s := q.pending[0], ServeHead(q, h, now);
      && Ok(s.q)
      && (forall x :: x in s.lost ==> Before(x, e))
      && (forall x :: x in s.q.pending ==> Before(e, x))
  {
    var e, s := q.pending[0], ServeHead(q, h, now);
    var p := EnqueueAll(q, Requests(h, now, e));
    ServeParts(q, h, now);
    EnqueueAllOk(q, Requests(h, now, e));
    PartsSorted(s.lost, e, s.q.pending);
    TailNumbered(s.lost + [e], s.q.pending, p.next);
  }

  lemma PartsSorted(as': seq<Event>, e: Event, bs: seq<Event>)
    requires Sorted(as' + [e] + bs)
    ensures Sorted(bs)
    ensures forall x :: x in as' ==> Before(x, e)
    ensures forall x :: x in bs ==> Before(e, x)
  {
    var all, n := as' + [e] + bs, |as'|;
    forall i, j | 0 <= i < j < |bs| ensures Before(bs[i], bs[j]) {
      assert Before(all[n + 1 + i], all[n + 1 + j]);
    }
    forall x | x in as' ensures Before(x, e) {
      var i :| 0 <= i < |as'| && as'[i] == x;
      assert Before(all[i], all[n]);
    }
    forall x | x in bs ensures Before(e, x) {
      var i :| 0 <= i < |bs| && bs[i] == x;
      assert Before(all[n], all[n + 1 + i]);
    }
  }

  lemma TailNumbered(as': seq<Event>, bs: seq<Event>, next: nat)
    requires Numbered(as' + bs, next)
    ensures Numbered(bs, next)
  {
    var all, n := as' + bs, |as'|;
    forall i | 0 <= i < |bs| ensures bs[i].serial < next { assert all[n + i] == bs[i]; }
    forall i, j | 0 <= i < j < |bs| ensures bs[i].serial != bs[j].serial {
      assert all[n + i] == bs[i] && all[n + j] == bs[j];
    }
  }

  lemma ServeConserves(q: Queue, h: Handler, now: int)
    requires Ok(q) && q.pending != []
    ensures var e, s := q.pending[0], ServeHead(q, h, now);
      multiset(q.pending) + multiset(Made(Requests(h, now, e), q.next))
      == multiset{e} + multiset(s.lost) + multiset(s.q.pending)
  {
    ServeParts(q, h, now);
    EnqueueAllMultiset(q, Requests(h, now, q.pending[0]));
  }

  /** A callback's event is lost exactly when its time is not after that of the event being
      serviced. */
  lemma LostExactly(q: Queue, h: Handler, now: int, x: Event)
    requires Ok(q) && q.pending != []
    ensures var e := q.pending[0];
      x in ServeHead(q, h, now).lost <==>
        e.action.Callback? && x in Made(h(now, e), q.next) && x.when <= e.when
  {
    var e, s := q.pending[0], ServeHead(q, h, now);
    var made := Made(Requests(h, now, e), q.next);
    ServeConserves(q, h, now);
    ServeOk(q, h, now);
    if x in s.lost {
      assert x in multiset(s.lost) && x in multiset(q.pending) + multiset(made);
      if x in multiset(q.pending) { HeadFirst(q, x); }
    }
    if x in made && x.when <= e.when {
      assert x in multiset(made);
      assert x in multiset{e} + multiset(s.lost) + multiset(s.q.pending);
      assert q.pending[0].serial < q.next <= x.serial;
      assert x in s.q.pending ==> Before(e, x);
      assert x != e && x !in s.q.pending;
      assert x in multiset(s.lost);
    }
  }

  /** A callback that queues an event for the very time being serviced: the event is cut off
      with its own, unrun and no longer pending. */
  lemma SameTimeLost()
    ensures var q := Enqueue(Start(), Request(5, Callback(0, 0)));
      var h: Handler := (now, e: Event) => if e.serial == 1 then [Request(now, SetFlag(0, 1))] else [];
      && Ok(q) && Service(q, h, 5).made == [Event(5, 2, SetFlag(0, 1))]
      && Service(q, h, 5).fired == q.pending && Service(q, h, 5).q.pending == []
      && Service(q, h, 5).lost == [Event(5, 2, SetFlag(0, 1))]
  {
    var q := Enqueue(Start(), Request(5, Callback(0, 0)));
    var h: Handler := (now, e: Event) => if e.serial == 1 then [Request(now, SetFlag(0, 1))] else [];
    EnqueueOk(Start(), Request(5, Callback(0, 0)));
    hide Sorted, Numbered;
    var e, r := q.pending[0], Request(5, SetFlag(0, 1));
    assert Requests(h, 5, e) == [r];
    assert EnqueueAll(q, [r][..0]) == q;
    assert EnqueueAll(q, [r]) == Enqueue(q, r);
    assert Inserted(q.pending, Event(5, 2, r.action)) == [Event(5, 2, r.action), e];
    var p := Enqueue(q, r).pending;
    assert PositionOf(p, 1) == 1 by { assert p[1..][0].serial == 1; }
    assert ServeHead(q, h, 5).q.pending == [] && ServeHead(q, h, 5).lost == [Event(5, 2, r.action)];
  }

  lemma HeadFirst(q: Queue, x: Event)
    requires Ok(q) && x in q.pending
    ensures x == q.pending[0] || Before(q.pending[0], x)
  {
    var i :| 0 <= i < |q.pending| && q.pending[i] == x;
    assert i > 0 ==> Before(q.pending[0], q.pending[i]);
  }

  // ----- the service loop

  datatype Done = Done(q: Queue, fired: seq<Event>, made: seq<Event>, lost: seq<Event>)

  /** Time units from the head's time through now. */
  function TimeLeft(q: Queue, now: int): nat {
    if q.pending == [] || q.pending[0].when > now then 0 else now - q.pending[0].when + 1
  }

  function HeadSerial(q: Queue): nat {
    if q.pending == [] then 0 else q.pending[0].serial
  }

  /** Services the events due by now.  It ends whatever the callbacks queue: the events left
      after each one come strictly after it in the order. */
  function Service(q: Queue, h: Handler, now: int): Done
    requires Ok(q)
    decreases TimeLeft(q, now), HeadSerial(q)
  {
    if q.pending == [] || q.pending[0].when > now then Done(q, [], [], [])
    else
      var e, s := q.pending[0], ServeHead(q, h, now);
      ServeOk(q, h, now);
      assert s.q.pending != [] ==> Before(e, s.q.pending[0]);
      var d := Service(s.q, h, now);
      Done(d.q, [e] + d.fired, Made(Requests(h, now, e), q.next) + d.made, s.lost + d.lost)
  }

  lemma {:induction false} ServiceOk(q: Queue, h: Handler, now: int)
    requires Ok(q)
    ensures var d := Service(q, h, now);
      && Ok(d.q) && (forall x :: x in d.q.pending ==> x.when > now)
      && (forall x :: x in d.fired ==> x.when <= now)
    decreases TimeLeft(q, now), HeadSerial(q)
  {
    if q.pending == [] || q.pending[0].when > now {
      forall x | x in q.pending ensures x.when > now { HeadFirst(q, x); }
    } else {
      ServeOk(q, h, now);
      var s := ServeHead(q, h, now);
      assert s.q.pending != [] ==> Before(q.pending[0], s.q.pending[0]);
      ServiceOk(s.q, h, now);
    }
  }

  /** Everything fired comes after e in the order, if everything pending does. */
  lemma {:induction false} FiredAfter(q: Queue, h: Handler, now: int, e: Event)
    requires Ok(q) && forall x :: x in q.pending ==> Before(e, x)
    ensures forall x :: x in Service(q, h, now).fired ==> Before(e, x)
    decreases TimeLeft(q, now), HeadSerial(q)
  {
    if q.pending != [] && q.pending[0].when <= now {
      var c, s := q.pending[0], ServeHead(q, h, now);
      ServeOk(q, h, now);
      assert s.q.pending != [] ==> Before(c, s.q.pending[0]);
      AfterTransitive(e, c, s.q.pending);
      FiredAfter(s.q, h, now, e);
    }
  }

  lemma AfterTransitive(e: Event, c: Event, es: seq<Event>)
    requires Before(e, c) && forall x :: x in es ==> Before(c, x)
    ensures forall x :: x in es ==> Before(e, x)
  {
  }

  /** Main result: events fire in order of time, of equal times the last queued first. */
  lemma {:induction false} FiredInOrder(q: Queue, h: Handler, now: int)
    requires Ok(q)
    ensures Sorted(Service(q, h, now).fired)
    decreases TimeLeft(q, now), HeadSerial(q)
  {
    if q.pending != [] && q.pending[0].when <= now {
      var e, s := q.pending[0], ServeHead(q, h, now);
      ServeOk(q, h, now);
      assert s.q.pending != [] ==> Before(e, s.q.pending[0]);
      FiredInOrder(s.q, h, now);
      FiredAfter(s.q, h, now, e);
      SortedCons(e, Service(s.q, h, now).fired);
    }
  }

  lemma SortedCons(e: Event, es: seq<Event>)
    requires Sorted(es) && forall x :: x in es ==> Before(e, x)
    ensures Sorted([e] + es)
  {
    var all := [e] + es;
    forall i, j | 0 <= i < j < |all| ensures Before(all[i], all[j]) {
      assert all[j] == es[j - 1];
      assert i > 0 ==> Before(es[i - 1], es[j - 1]);
    }
  }

  /** Main result: what was pending or queued meanwhile has fired, is still pending, or is lost. */
  lemma {:induction false} ServiceConserves(q: Queue, h: Handler, now: int)
    requires Ok(q)
    ensures var d := Service(q, h, now);
      multiset(q.pending) + multiset(d.made) == multiset(d.fired) + multiset(d.q.pending) + multiset(d.lost)
    decreases TimeLeft(q, now), HeadSerial(q)
  {
    if q.pending != [] && q.pending[0].when <= now {
      var e, s := q.pending[0], ServeHead(q, h, now);
      ServeOk(q, h, now);
      assert s.q.pending != [] ==> Before(e, s.q.pending[0]);
      ServiceConserves(s.q, h, now);
      ServeConserves(q, h, now);
      var d := Service(s.q, h, now);
      SumUp(q.pending, Made(Requests(h, now, e), q.next), e, s.lost, s.q.pending, d.made, d.fired, d.q.pending, d.lost);
    }
  }

  lemma SumUp(es: seq<Event>, made: seq<Event>, e: Event, lost: seq<Event>, rest: seq<Event>,
              made': seq<Event>, fired': seq<Event>, rest': seq<Event>, lost': seq<Event>)
    requires multiset(es) + multiset(made) == multiset{e} + multiset(lost) + multiset(rest)
    requires multiset(rest) + multiset(made') == multiset(fired') + multiset(rest') + multiset(lost')
    ensures multiset(es) + multiset(made + made') == multiset([e] + fired') + multiset(rest') + multiset(lost + lost')
  {
    var l := multiset(es) + multiset(made + made');
    var r := multiset([e] + fired') + multiset(rest') + multiset(lost + lost');
    forall x ensures l[x] == r[x] {
      assert (multiset(es) + multiset(made))[x] == (multiset{e} + multiset(lost) + multiset(rest))[x];
      assert (multiset(rest) + multiset(made'))[x] == (multiset(fired') + multiset(rest') + multiset(lost'))[x];
    }
  }

  /** Every callback run by the loop queues only events strictly later than the one it serves. */
  predicate Timely(q: Queue, h: Handler, now: int)
    requires Ok(q)
    decreases TimeLeft(q, now), HeadSerial(q)
  {
    q.pending == [] || q.pending[0].when > now ||
      var e, s := q.pending[0], ServeHead(q, h, now);
      ServeOk(q, h, now);
      assert s.q.pending != [] ==> Before(e, s.q.pending[0]);
      && (forall x :: x in Requests(h, now, e) ==> x.when > e.when)
      && Timely(s.q, h, now)
  }

  lemma HeadTimely(q: Queue, h: Handler, now: int)
    requires Ok(q) && q.pending != []
    ensures ServeHead(q, h, now).lost == [] <==>
      forall x :: x in Requests(h, now, q.pending[0]) ==> x.when > q.pending[0].when
  {
    var e, s := q.pending[0], ServeHead(q, h, now);
    var rs := Requests(h, now, e);
    var made := Made(rs, q.next);
    if s.lost == [] {
      forall r | r in rs ensures r.when > e.when {
        var k :| 0 <= k < |rs| && rs[k] == r;
        LostExactly(q, h, now, made[k]);
        assert made[k] in made;
      }
    } else {
      LostExactly(q, h, now, s.lost[0]);
      var k :| 0 <= k < |made| && made[k] == s.lost[0];
      assert rs[k] in rs;
    }
  }

  /** Main result: no event is lost if and only if every callback is timely. */
  lemma {:induction false} NoneLost(q: Queue, h: Handler, now: int)
    requires Ok(q)
    ensures Service(q, h, now).lost == [] <==> Timely(q, h, now)
    decreases TimeLeft(q, now), HeadSerial(q)
  {
    if q.pending != [] && q.pending[0].when <= now {
      var s := ServeHead(q, h, now);
      ServeOk(q, h, now);
      assert s.q.pending != [] ==> Before(q.pending[0], s.q.pending[0]);
      HeadTimely(q, h, now);
      NoneLost(s.q, h, now);
    }
  }

  /** When callbacks are timely, exactly the events due fire, whether pending at first or
      queued meanwhile. */
  lemma FiredExactly(q: Queue, h: Handler, now: int, x: Event)
    requires Ok(q) && Timely(q, h, now)
    ensures var d := Service(q, h, now);
      x in d.fired <==> x.when <= now && (x in q.pending || x in d.made)
  {
    var d := Service(q, h, now);
    NoneLost(q, h, now);
    ServiceConserves(q, h, now);
    ServiceOk(q, h, now);
    assert x in multiset(q.pending) + multiset(d.made) <==> x in multiset(d.fired) + multiset(d.q.pending);
  }

  // ----- what callbacks are told

  /** What the callbacks among fired events ask for when told a time, in firing order. */
  function AskedFor(h: Handler, now: int, fired: seq<Event>): seq<Request> {
    if fired == [] then []
    else (if fired[0].action.Callback? then h(now, fired[0]) else []) + AskedFor(h, now, fired[1..])
  }

  lemma MadeConcat(rs: seq<Request>, ss: seq<Request>, n: nat)
    ensures Made(rs + ss, n) == Made(rs, n) + Made(ss, n + |rs|)
  {
  }

  lemma ServiceStep(q: Queue, h: Handler, now: int)
    requires Ok(q) && q.pending != [] && q.pending[0].when <= now
    ensures var e, s := q.pending[0], ServeHead(q, h, now);
      && Ok(s.q) && s.q.next == q.next + |Requests(h, now, e)|
      && (TimeLeft(s.q, now) < TimeLeft(q, now)
          || (TimeLeft(s.q, now) == TimeLeft(q, now) && HeadSerial(s.q) < HeadSerial(q)))
      && var d := Service(s.q, h, now);
         Service(q, h, now) == Done(d.q, [e] + d.fired, Made(Requests(h, now, e), q.next) + d.made, s.lost + d.lost)
  {
    var e, s := q.pending[0], ServeHead(q, h, now);
    ServeOk(q, h, now);
    ServeParts(q, h, now);
    assert s.q.pending != [] ==> Before(e, s.q.pending[0]);
    hide ServeHead, EnqueueAll, Sorted, Numbered, Requests;
  }

  lemma AskedCons(h: Handler, now: int, e: Event, es: seq<Event>)
    ensures AskedFor(h, now, [e] + es) == Requests(h, now, e) + AskedFor(h, now, es)
  {
    assert ([e] + es)[1..] == es;
  }

  /** Main result: the events made meanwhile are those that the fired callbacks ask for when told
      the time of service, numbered on in firing order. */
  lemma {:induction false} MadeExactly(q: Queue, h: Handler, now: int)
    requires Ok(q)
    ensures var d := Service(q, h, now);
      d.made == Made(AskedFor(h, now, d.fired), q.next) && d.q.next == q.next + |d.made|
    decreases TimeLeft(q, now), HeadSerial(q)
  {
    if q.pending == [] || q.pending[0].when > now {
      assert Service(q, h, now) == Done(q, [], [], []) && Made([], q.next) == [];
      return;
    }
    hide *;
    ServiceStep(q, h, now);
    var e, s := q.pending[0], ServeHead(q, h, now);
    MadeExactly(s.q, h, now);
    var d := Service(s.q, h, now);
    AskedCons(h, now, e, d.fired);
    MadeConcat(Requests(h, now, e), AskedFor(h, now, d.fired), q.next);
  }

  /** Handlers that agree at the time of service serve alike: no callback is told another. */
  lemma {:induction false} ToldNow(q: Queue, h: Handler, g: Handler, now: int)
    requires Ok(q) && forall e :: h(now, e) == g(now, e)
    ensures Service(q, h, now) == Service(q, g, now)
    decreases TimeLeft(q, now), HeadSerial(q)
  {
    if q.pending != [] && q.pending[0].when <= now {
      var e, s := q.pending[0], ServeHead(q, h, now);
      assert Requests(h, now, e) == Requests(g, now, e);
      ServeOk(q, h, now);
      assert s.q.pending != [] ==> Before(e, s.q.pending[0]);
      ToldNow(s.q, h, g, now);
    }
  }

  // ----- removing and executing by id

  function PositionById(es: seq<Event>, id: nat): (i: int)
    ensures -1 <= i < |es|
    ensures i >= 0 ==> IdOf(es[i]) == id && forall k :: 0 <= k < i ==> IdOf(es[k]) != id
    ensures i == -1 ==> forall k :: 0 <= k < |es| ==> IdOf(es[k]) != id
  {
    if es == [] then -1
    else if IdOf(es[0]) == id then 0
    else var i := PositionById(es[1..], id); if i < 0 then -1 else i + 1
  }

  /** Takes the first event with the id out of the queue, unrun. */
  function Remove(q: Queue, id: nat): (Queue, bool) {
    var i := PositionById(q.pending, id);
    if i < 0 then (q, false) else (q.(pending := q.pending[..i] + q.pending[i + 1..]), true)
  }

  /** Takes it out and runs it, with time 0; what it queues then is never lost. */
  function Execute(q: Queue, h: Handler, id: nat): (Queue, bool) {
    var i := PositionById(q.pending, id);
    if i < 0 then (q, false)
    else (EnqueueAll(Remove(q, id).0, Requests(h, 0, q.pending[i])), true)
  }

  lemma CutSorted(es: seq<Event>, i: nat, next: nat)
    requires i < |es| && Sorted(es) && Numbered(es, next)
    ensures Sorted(es[..i] + es[i + 1..]) && Numbered(es[..i] + es[i + 1..], next)
    ensures multiset(es) == multiset(es[..i] + es[i + 1..]) + multiset{es[i]}
  {
    var c := es[..i] + es[i + 1..];
    assert es == es[..i] + [es[i]] + es[i + 1..];
    forall j, k | 0 <= j < k < |c| ensures Before(c[j], c[k]) {
      assert Before(es[if j < i then j else j + 1], es[if k < i then k else k + 1]);
    }
    CutNumbered(es, i, next);
  }

  lemma CutNumbered(es: seq<Event>, i: nat, next: nat)
    requires i < |es| && Numbered(es, next)
    ensures Numbered(es[..i] + es[i + 1..], next)
  {
    var c := es[..i] + es[i + 1..];
    forall j | 0 <= j < |c| ensures c[j] == es[if j < i then j else j + 1] {}
  }

  /** Removal takes out one event with the id, if there is one, and nothing else. */
  lemma RemoveExact(q: Queue, id: nat)
    requires Ok(q)
    ensures var (p, found) := Remove(q, id);
      && Ok(p) && (found <==> exists e :: e in q.pending && IdOf(e) == id)
      && (!found ==> p == q)
      && (found ==> exists e :: IdOf(e) == id && multiset(q.pending) == multiset(p.pending) + multiset{e})
  {
    var i := PositionById(q.pending, id);
    if i >= 0 {
      CutSorted(q.pending, i, q.next);
      assert q.pending[i] in q.pending;
    }
  }

  /** An event is removed by its id while the pending events span fewer than 2^32 queueings. */
  lemma RemoveNamed(q: Queue, e: Event)
    requires Ok(q) && e in q.pending
    requires forall x :: x in q.pending ==> -WORD32 < x.serial - e.serial < WORD32
    ensures Remove(q, IdOf(e)).1 && multiset(q.pending) == multiset(Remove(q, IdOf(e)).0.pending) + multiset{e}
  {
    var k :| 0 <= k < |q.pending| && q.pending[k] == e;
    assert IdOf(q.pending[k]) == IdOf(e);
    var i := PositionById(q.pending, IdOf(e));
    assert q.pending[i] in q.pending;
    SameId(q.pending[i].serial, e.serial);
    AtSerial(q, e);
    AtSerial(q, q.pending[i]);
    CutSorted(q.pending, i, q.next);
  }

  lemma SameId(a: nat, b: nat)
    requires a % WORD32 == b % WORD32 && -WORD32 < a - b < WORD32
    ensures a == b
  {
  }

  /** Execution removes the event and adds what its action queues; nothing is lost. */
  lemma ExecuteExact(q: Queue, h: Handler, id: nat)
    requires Ok(q) && PositionById(q.pending, id) >= 0
    ensures var (p, found) := Execute(q, h, id);
      var e := q.pending[PositionById(q.pending, id)];
      && found && Ok(p)
      && multiset(q.pending) + multiset(Made(if e.action.Callback? then h(0, e) else [], q.next))
         == multiset(p.pending) + multiset{e}
  {
    var i := PositionById(q.pending, id);
    CutSorted(q.pending, i, q.next);
    var r := Remove(q, id).0;
    EnqueueAllOk(r, Requests(h, 0, q.pending[i]));
    EnqueueAllMultiset(r, Requests(h, 0, q.pending[i]));
  }

  /** An event executed by its id is told time 0, whatever its own time. */
  lemma ToldZero(q: Queue, h: Handler, g: Handler, id: nat)
    requires forall e :: h(0, e) == g(0, e)
    ensures Execute(q, h, id) == Execute(q, g, id)
  {
    var i := PositionById(q.pending, id);
    if i >= 0 { assert Requests(h, 0, q.pending[i]) == Requests(g, 0, q.pending[i]); }
  }
}
