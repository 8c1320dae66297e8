/** The event queue in place: pending and free descriptors on two linked lists. */
module EventQueueImpl {
  import opened Bits
  import opened EventQueue

  /** An event descriptor.  The original keeps only the wrapping id of the `serial`, which here
      also stands for what the callback of this event, and of no other, does. */
  class Desc {
    var next: Desc?
    var when: int
    var id: nat
    var action: Action
    var serial: nat

    constructor ()
      ensures next == null
    {
      next, when, id, action, serial := null, 0, 0, SetBit(0, 0), 0;
    }
  }

  function NextIn(c: seq<Desc>, k: int): Desc? {
    if 0 <= k + 1 < |c| then c[k + 1] else null
  }

  ghost predicate Differ(x: Desc, y: Desc) {
    x != y
  }

  ghost predicate Apart(c: seq<Desc>) {
    forall j, k {:trigger Differ(c[j], c[k])} :: 0 <= j < k < |c| ==> Differ(c[j], c[k])
  }

  /** The descriptors of c, none twice, are linked from head. */
  ghost predicate Linked(head: Desc?, c: seq<Desc>)
    reads c`next
  {
    && head == NextIn(c, -1) && Apart(c)
    && (forall k {:trigger c[k].next} :: 0 <= k < |c| ==> c[k].next == NextIn(c, k))
  }

  ghost function EventAt(x: Desc): Event
    reads x`when, x`serial, x`action
  {
    Event(x.when, x.serial, x.action)
  }

  ghost function Events(c: seq<Desc>): (es: seq<Event>)
    reads c
    ensures |es| == |c| && forall k :: 0 <= k < |c| ==> es[k] == EventAt(c[k])
  {
    seq(|c|, k requires 0 <= k < |c| reads c => EventAt(c[k]))
  }

  /** The visible ids are the low 32 bits of the serial numbers. */
  ghost predicate IdsMatch(c: seq<Desc>)
    reads c`id, c`serial
  {
    forall k {:trigger c[k].id} :: 0 <= k < |c| ==> c[k].id == c[k].serial % WORD32
  }

  /** c with x put in at position i. */
  function With(c: seq<Desc>, i: nat, x: Desc): (r: seq<Desc>)
    requires i <= |c|
    ensures |r| == |c| + 1
  {
    c[..i] + [x] + c[i..]
  }

  function Cut(c: seq<Desc>, i: nat): (r: seq<Desc>)
    requires i < |c|
    ensures |r| == |c| - 1
  {
    c[..i] + c[i + 1..]
  }

  lemma ApartTail(c: seq<Desc>)
    requires Apart(c) && c != []
    ensures Apart(c[1..]) && c[0] !in c[1..]
  {
    forall j, k | 0 <= j < k < |c[1..]| ensures Differ(c[1..][j], c[1..][k]) {
      assert Differ(c[j + 1], c[k + 1]);
    }
    forall k | 0 < k < |c| ensures c[0] != c[k] {
      assert Differ(c[0], c[k]);
    }
  }

  lemma OnlyThere(c: seq<Desc>, i: nat)
    requires Apart(c) && i < |c|
    ensures forall k :: 0 <= k < |c| && k != i ==> c[k] != c[i]
  {
    forall k | 0 <= k < |c| && k != i ensures c[k] != c[i] {
      if k < i { assert Differ(c[k], c[i]); } else { assert Differ(c[i], c[k]); }
    }
  }

  /** No descriptor is on both lists. */
  ghost predicate NoneShared(c: seq<Desc>, d: seq<Desc>) {
    forall x {:trigger x in c} {:trigger x in d} :: !(x in c && x in d)
  }

  class EventList {
    var pending: Desc?
    var free: Desc?
    var nextId: nat
    var count: nat
    ghost var pend: seq<Desc>
    ghost var spare: seq<Desc>

    ghost predicate Valid()
      reads this, pend, spare
    {
      && Linked(pending, pend) && Linked(free, spare) && NoneShared(pend, spare)
      && IdsMatch(pend) && nextId == count % WORD32
    }

    ghost function View(): Queue
      reads this, pend
    {
      Queue(Events(pend), count)
    }

    constructor ()
      ensures Valid() && View() == Start() && spare == []
    {
      pending, free, nextId := null, null, 1;
      pend, spare, count := [], [], 1;
    }

    /** Takes a descriptor off the free list, or makes one. */
    method TakeFree() returns (x: Desc)
      requires Valid()
      modifies this`free, this`spare
      ensures Valid() && x !in pend && x !in spare
      ensures if old(spare) == [] then fresh(x) && spare == [] else [x] + spare == old(spare)
    {
      if free == null {
        x := new Desc();
        return;
      }
      x := free;
      assert spare[0].next == NextIn(spare, 0);
      ApartTail(spare);
      free := free.next;
      spare := spare[1..];
      forall k | 0 <= k < |spare| ensures spare[k].next == NextIn(spare, k) {
        assert old(spare)[k + 1].next == NextIn(old(spare), k + 1);
      }
    }

    /** Walks to the insertion point for a time. */
    method FindPlace(when: int) returns (prev: Desc?, ghost i: nat)
      requires Valid()
      ensures i == Place(Events(pend), when) && prev == if i == 0 then null else pend[i - 1]
    {
      var ev := pending;
      prev, i := null, 0;
      while ev != null && ev.when < when
        invariant i <= |pend| && ev == NextIn(pend, i - 1)
        invariant prev == if i == 0 then null else pend[i - 1]
        invariant forall k :: 0 <= k < i ==> Events(pend)[k].when < when
        decreases |pend| - i
      {
        assert pend[i].next == NextIn(pend, i);
        assert Events(pend)[i] == EventAt(pend[i]);
        prev, ev := ev, ev.next;
        i := i + 1;
      }
      assert ev != null ==> Events(pend)[i] == EventAt(pend[i]);
      PlaceIs(Events(pend), when, i);
    }

    /** Links a descriptor in at position i, behind prev. */
    method InsertAfter(prev: Desc?, x: Desc, ghost i: nat)
      requires Linked(pending, pend) && x !in pend && i <= |pend|
      requires prev == if i == 0 then null else pend[i - 1]
      modifies this`pending, this`pend, pend`next, x`next
      ensures pend == With(old(pend), i, x) && Linked(pending, pend)
    {
      ghost var c := pend;
      if prev != null {
        assert c[i - 1].next == NextIn(c, i - 1);
        OnlyThere(c, i - 1);
        x.next := prev.next;
        prev.next := x;
      } else {
        x.next := pending;
        pending := x;
      }
      pend := With(c, i, x);
      WithLinks(c, i, x);
    }

    /** The same, with the free list untouched. */
    method InsertApart(prev: Desc?, x: Desc, ghost i: nat)
      requires Linked(pending, pend) && x !in pend && i <= |pend|
      requires prev == if i == 0 then null else pend[i - 1]
      requires Linked(free, spare) && x !in spare && NoneShared(pend, spare)
      modifies this`pending, this`pend, pend`next, x`next
      ensures pend == With(old(pend), i, x) && Linked(pending, pend)
      ensures Linked(free, spare) && NoneShared(pend, spare)
    {
      ghost var c := pend;
      InsertAfter(prev, x, i);
      WithMembers(c, i, x);
      forall k | 0 <= k < |spare| ensures spare[k].next == NextIn(spare, k) {
        assert spare[k] in spare && spare[k].next == old(spare[k].next);
      }
    }

    /** The descriptors held on either list. */
    ghost function Held(): set<Desc>
      reads this
    {
      Members(pend) + Members(spare)
    }

    /** Queues an event: no descriptor held is given up, and at most one is new. */
    method QueueEvent(when: int, action: Action) returns (id: nat)
      requires Valid()
      modifies this, Held()
      ensures Valid() && View() == Enqueue(old(View()), Request(when, action)) && id == old(count) % WORD32
      ensures old(Held()) <= Held() && fresh(Held() - old(Held())) && StillPending()
    {
      var x := NewDesc(when, action);
      id := x.id;
      ghost var c := pend;
      ghost var i := Insert(x);
      HeldWith(c, i, x, spare);
    }

    /** A free descriptor filled with the event data. */
    method NewDesc(when: int, action: Action) returns (x: Desc)
      requires Valid()
      modifies this`free, this`spare, this`nextId, this`count, spare
      ensures Valid() && x !in pend && x !in spare && count == old(count) + 1 && Events(pend) == old(Events(pend))
      ensures x.id == old(count) % WORD32 && EventAt(x) == Event(when, old(count), action)
      ensures if old(spare) == [] then fresh(x) && spare == [] else [x] + spare == old(spare)
    {
      ghost var es := Events(pend);
      x := TakeFree();
      Fill(x, when, action);
      assert Events(pend) == es;
    }

    /** Puts a descriptor where it belongs among the pending ones. */
    method Insert(x: Desc) returns (ghost i: nat)
      requires Valid() && x !in pend && x !in spare && x.id == x.serial % WORD32
      modifies this`pending, this`pend, pend`next, x`next
      ensures Valid() && i <= |old(pend)| && pend == With(old(pend), i, x)
      ensures Events(pend) == Inserted(old(Events(pend)), old(EventAt(x)))
    {
      ghost var c, es := pend, Events(pend);
      var prev, j := FindPlace(x.when);
      i := j;
      InsertApart(prev, x, i);
      assert Events(c) == es;
      WithEvents(c, i, x);
    }

    /** Plugs in the event data. */
    method Fill(x: Desc, when: int, action: Action)
      requires Valid() && x !in pend && x !in spare
      modifies this`nextId, this`count, x`when, x`id, x`action, x`serial
      ensures Valid() && count == old(count) + 1
      ensures x.id == old(count) % WORD32 && EventAt(x) == Event(when, old(count), action)
    {
      x.when, x.id, x.action, x.serial := when, nextId, action, count;
      nextId := (nextId + 1) % WORD32;
      count := count + 1;
    }

    /** What was pending still is, unchanged. */
    twostate predicate StillPending()
      reads this`pend, pend
    {
      forall y {:trigger y in pend} :: y in old(pend) ==> y in pend && EventAt(y) == old(EventAt(y))
    }

    /** Queues requests in turn, as a callback does. */
    method QueueAll(rs: seq<Request>)
      requires Valid()
      modifies this, Held()
      ensures Valid() && View() == EnqueueAll(old(View()), rs)
      ensures old(Held()) <= Held() && fresh(Held() - old(Held())) && StillPending()
      decreases |rs|
    {
      if rs != [] {
        QueueAll(rs[..|rs| - 1]);
        label between:
        ghost var h := Held();
        var id := QueueEvent(rs[|rs| - 1].when, rs[|rs| - 1].action);
        assert h <= Held() && fresh@between(Held() - h);
        forall y | y in old(pend) ensures y in pend && EventAt(y) == old(EventAt(y)) {
          assert old@between(y in pend) && old@between(EventAt(y)) == old(EventAt(y));
        }
      }
    }

    /** Runs the action of an event: a callback queues its requests. */
    method RunAction(h: Handler, now: int, e: Event)
      requires Valid()
      modifies this, Held()
      ensures Valid() && View() == EnqueueAll(old(View()), Requests(h, now, e))
      ensures old(Held()) <= Held() && fresh(Held() - old(Held())) && StillPending()
    {
      if e.action.Callback? { QueueAll(h(now, e)); }
    }

    /** Where the descriptor of an event is, once others may have been queued before it. */
    lemma FoundAt(x: Desc) returns (i: nat)
      requires Valid() && Ok(View()) && x in pend
      ensures i < |pend| && pend[i] == x && i == PositionOf(Events(pend), x.serial)
    {
      i :| 0 <= i < |pend| && pend[i] == x;
      assert Events(pend)[i] == EventAt(x);
      AtSerial(View(), Events(pend)[i]);
      assert Numbered(Events(pend), count);
    }

    /** Restarts the pending list behind entry i, whose descriptor becomes free. */
    method Restart(ev: Desc, ghost i: nat)
      requires Valid() && i < |pend| && pend[i] == ev
      modifies this`pending, this`pend, this`free, this`spare, ev`next
      ensures Valid() && pend == old(pend)[i + 1..] && spare == [ev] + old(spare)
      ensures Events(pend) == old(Events(pend))[i + 1..]
    {
      ghost var c, d := pend, spare;
      assert c[i].next == NextIn(c, i);
      OnlyThere(c, i);
      pending := ev.next;
      ev.next := free;
      free := ev;
      pend, spare := c[i + 1..], [ev] + d;
      BehindLinks(c, i, pending);
      FreeLinks(ev, d);
      SuffixMembers(c, i);
      assert forall k :: 0 <= k < |pend| ==> pend[k].id == c[k + 1 + i].id;
    }

    /** Services the event at the head of the list.  Its descriptor is kept, and so is every
        other one if no event is lost. */
    method ServeHead(h: Handler, now: int)
      requires Valid() && Ok(View()) && pending != null
      modifies this, Held()
      ensures Valid() && fresh(Held() - old(Held()))
      ensures old(View()).pending != [] && View() == EventQueue.ServeHead(old(View()), h, now).q
      ensures EventQueue.ServeHead(old(View()), h, now).lost == [] ==> old(Held()) <= Held()
    {
      ghost var q := View();
      var ev := pending;
      assert q.pending[0] == EventAt(ev) && pend[0] == ev;
      RunAction(h, now, Event(ev.when, ev.serial, ev.action));
      Release(ev, q, h, now);
    }

    /** Returns the serviced event to the free list, once its action has run. */
    method Release(ev: Desc, ghost q: Queue, ghost h: Handler, ghost now: int)
      requires Valid() && Ok(q) && q.pending != [] && View() == EnqueueAll(q, Requests(h, now, q.pending[0]))
      requires ev in pend && EventAt(ev) == q.pending[0]
      modifies this`pending, this`pend, this`free, this`spare, ev`next
      ensures Valid() && View() == EventQueue.ServeHead(q, h, now).q && Held() <= old(Held())
      ensures EventQueue.ServeHead(q, h, now).lost == [] ==> Held() == old(Held())
    {
      EnqueueAllOk(q, Requests(h, now, q.pending[0]));
      ghost var i := FoundAt(ev);
      ghost var c := pend;
      Restart(ev, i);
      HeldBehind(c, i, old(spare));
    }

    /** The head event is due. */
    ghost predicate Due(now: int)
      reads this, pend
    {
      pend != [] && pend[0].when <= now
    }

    /** Services the event at the head, the next after those fired since the queue was q. */
    method ServeNext(h: Handler, now: int, ghost q: Queue, ghost fired: seq<Event>) returns (ghost fired': seq<Event>)
      requires Valid() && Ok(View()) && Due(now) && Ok(q) && Along(q, View(), fired, h, now)
      modifies this, Held()
      ensures Valid() && fresh(Held() - old(Held())) && Ok(View())
      ensures Along(q, View(), fired', h, now) && Sooner(View(), old(View()), now)
      ensures Timely(q, h, now) ==> old(Held()) <= Held()
    {
      assert Events(pend)[0] == EventAt(pend[0]);
      fired' := fired + [EventAt(pend[0])];
      AlongNext(q, View(), fired, h, now);
      ServeHead(h, now);
    }

    /** Services the events due by now.  No descriptor is given up if every callback is timely. */
    method ServiceEvents(h: Handler, now: int) returns (ghost fired: seq<Event>)
      requires Valid() && Ok(View())
      modifies this, Held()
      ensures Valid() && Ok(View()) && View() == Service(old(View()), h, now).q
      ensures fired == Service(old(View()), h, now).fired
      ensures Timely(old(View()), h, now) ==> old(Held()) <= Held()
    {
      ghost var q := View();
      fired := [];
      AlongStart(q, h, now);
      while pending != null && pending.when <= now
        invariant Valid() && fresh(Held() - old(Held())) && Ok(View())
        invariant Along(q, View(), fired, h, now)
        invariant Timely(q, h, now) ==> old(Held()) <= Held()
        decreases TimeLeft(View(), now), HeadSerial(View())
      {
        fired := ServeNext(h, now, q, fired);
      }
      assert pend != [] ==> Events(pend)[0] == EventAt(pend[0]);
      AlongEnd(q, View(), fired, h, now);
    }

    /** Walks to the first pending event with an id. */
    method FindId(id: nat) returns (prev: Desc?, ev: Desc?, ghost i: int)
      requires Valid()
      ensures i == PositionById(Events(pend), id) && (ev == null <==> i < 0)
      ensures i >= 0 ==> ev == pend[i] && prev == if i == 0 then null else pend[i - 1]
    {
      prev, ev, i := null, pending, 0;
      while ev != null && ev.id != id
        invariant 0 <= i <= |pend| && ev == NextIn(pend, i - 1)
        invariant prev == if i == 0 then null else pend[i - 1]
        invariant forall k :: 0 <= k < i ==> IdOf(Events(pend)[k]) != id
        decreases |pend| - i
      {
        assert pend[i].next == NextIn(pend, i) && pend[i].id == pend[i].serial % WORD32;
        assert Events(pend)[i] == EventAt(pend[i]);
        prev, ev := ev, ev.next;
        i := i + 1;
      }
      assert ev != null ==> Events(pend)[i] == EventAt(pend[i]) && pend[i].id == pend[i].serial % WORD32;
      ByIdIs(Events(pend), id, i);
      if ev == null { i := -1; }
    }

    /** Takes entry i, behind prev, out of the pending list. */
    method UnlinkPending(prev: Desc?, ev: Desc, ghost i: nat)
      requires Linked(pending, pend) && i < |pend| && ev == pend[i] && prev == if i == 0 then null else pend[i - 1]
      modifies this`pending, this`pend, pend`next
      ensures pend == Cut(old(pend), i) && Linked(pending, pend)
    {
      ghost var c := pend;
      assert c[i].next == NextIn(c, i);
      if prev != null {
        OnlyThere(c, i - 1);
        prev.next := ev.next;
      } else {
        pending := ev.next;
      }
      pend := Cut(c, i);
      CutLinks(c, i, pending);
    }

    /** The same, with the free list untouched. */
    method Unlink(prev: Desc?, ev: Desc, ghost i: nat)
      requires Valid() && i < |pend| && ev == pend[i] && prev == if i == 0 then null else pend[i - 1]
      modifies this`pending, this`pend, pend`next
      ensures Valid() && pend == Cut(old(pend), i) && ev !in pend
      ensures Events(pend) == old(Events(pend))[..i] + old(Events(pend))[i + 1..]
    {
      ghost var c, es := pend, Events(pend);
      UnlinkPending(prev, ev, i);
      CutMembers(c, i);
      CutIds(c, i);
      assert Events(c) == es;
      CutEvents(c, i);
      forall k | 0 <= k < |spare| ensures spare[k].next == NextIn(spare, k) {
        assert spare[k] in spare && spare[k].next == old(spare[k].next);
      }
    }

    /** Puts a descriptor on the free list. */
    method Free(ev: Desc)
      requires Valid() && ev !in pend && ev !in spare
      modifies this`free, this`spare, ev`next
      ensures Valid() && spare == [ev] + old(spare) && Events(pend) == old(Events(pend))
    {
      ghost var d, es := spare, Events(pend);
      assert forall k :: 0 <= k < |pend| ==> pend[k] in pend;
      ev.next := free;
      free := ev;
      spare := [ev] + d;
      FreeLinks(ev, d);
      forall k | 0 <= k < |pend| ensures pend[k].next == NextIn(pend, k) {
        assert pend[k].next == old(pend[k].next);
      }
      assert Events(pend) == es;
    }

    /** Removes an event by id, unrun.  Every descriptor is kept. */
    method RemoveEvent(id: nat) returns (found: bool)
      requires Valid()
      modifies this, pend
      ensures Valid() && (View(), found) == Remove(old(View()), id) && Held() == old(Held())
    {
      var prev, ev, i := FindId(id);
      if ev == null { return false; }
      ghost var c, d := pend, spare;
      Unlink(prev, ev, i);
      Free(ev);
      HeldCut(c, i, d);
      return true;
    }

    /** Runs an event now, with time 0, and removes it.  No descriptor is given up. */
    method ExecuteEvent(h: Handler, id: nat) returns (found: bool)
      requires Valid()
      modifies this, Held()
      ensures Valid() && (View(), found) == Execute(old(View()), h, id) && old(Held()) <= Held()
    {
      var prev, ev, i := FindId(id);
      if ev == null { return false; }
      assert Events(pend)[i] == EventAt(ev);
      var e := Event(ev.when, ev.serial, ev.action);
      ghost var c, d := pend, spare;
      Unlink(prev, ev, i);
      HeldCut(c, i, d);
      RunAndFree(h, ev, e);
      return true;
    }

    /** Runs the action of an event that is off both lists, then frees its descriptor. */
    method RunAndFree(h: Handler, ev: Desc, e: Event)
      requires Valid() && ev !in Held()
      modifies this, Held(), ev
      ensures Valid() && View() == EnqueueAll(old(View()), Requests(h, 0, e))
      ensures old(Held()) + {ev} <= Held()
    {
      RunAction(h, 0, e);
      assert ev !in Held() by { assert old(ev !in Held()); }
      ghost var d := spare;
      Free(ev);
      assert Members(spare) == {ev} + Members(d);
    }
  }

  lemma {:induction false} ByIdIs(es: seq<Event>, id: nat, i: nat)
    requires i <= |es| && (forall k :: 0 <= k < i ==> IdOf(es[k]) != id) && (i < |es| ==> IdOf(es[i]) == id)
    ensures PositionById(es, id) == if i < |es| then i else -1
  {
    if i > 0 { ByIdIs(es[1..], id, i - 1); }
  }

  lemma CutIds(c: seq<Desc>, i: nat)
    requires i < |c| && IdsMatch(c)
    ensures IdsMatch(Cut(c, i))
  {
    var d := Cut(c, i);
    forall k | 0 <= k < |d| ensures d[k].id == d[k].serial % WORD32 {
      assert d[k] == c[if k < i then k else k + 1];
      assert c[if k < i then k else k + 1].id == d[k].serial % WORD32;
    }
  }

  lemma CutEvents(c: seq<Desc>, i: nat)
    requires i < |c|
    ensures Events(Cut(c, i)) == Events(c)[..i] + Events(c)[i + 1..]
  {
  }

  lemma CutMembers(c: seq<Desc>, i: nat)
    requires i < |c| && Apart(c)
    ensures c[i] !in Cut(c, i) && forall y :: y in Cut(c, i) ==> y in c
  {
    OnlyThere(c, i);
  }

  lemma CutLinks(c: seq<Desc>, i: nat, head: Desc?)
    requires i < |c| && Apart(c) && head == (if i == 0 then NextIn(c, 0) else c[0])
    requires forall k {:trigger c[k].next} :: 0 <= k < |c| && k != i ==>
      c[k].next == if k + 1 == i then NextIn(c, i) else NextIn(c, k)
    ensures Linked(head, Cut(c, i))
  {
    var d := Cut(c, i);
    forall k | 0 <= k < |d| ensures d[k].next == NextIn(d, k) {
      assert c[if k < i then k else k + 1].next == NextIn(d, k);
    }
    forall j, k | 0 <= j < k < |d| ensures Differ(d[j], d[k]) {
      assert Differ(c[if j < i then j else j + 1], c[if k < i then k else k + 1]);
    }
  }

  /** Servicing q has fired these events on the way to p. */
  ghost predicate Along(q: Queue, p: Queue, fired: seq<Event>, h: Handler, now: int)
    requires Ok(q) && Ok(p)
  {
    && Service(q, h, now).q == Service(p, h, now).q
    && Service(q, h, now).fired == fired + Service(p, h, now).fired
    && (Timely(q, h, now) ==> Timely(p, h, now))
  }

  /** The queue p has less left to service by now than q. */
  ghost predicate Sooner(p: Queue, q: Queue, now: int) {
    TimeLeft(p, now) < TimeLeft(q, now) || (TimeLeft(p, now) == TimeLeft(q, now) && HeadSerial(p) < HeadSerial(q))
  }

  lemma AlongStart(q: Queue, h: Handler, now: int)
    requires Ok(q)
    ensures Along(q, q, [], h, now)
  {
  }

  lemma AlongEnd(q: Queue, p: Queue, fired: seq<Event>, h: Handler, now: int)
    requires Ok(q) && Ok(p) && Along(q, p, fired, h, now) && (p.pending == [] || p.pending[0].when > now)
    ensures p == Service(q, h, now).q && fired == Service(q, h, now).fired
  {
  }

  lemma AlongNext(q: Queue, p: Queue, fired: seq<Event>, h: Handler, now: int)
    requires Ok(q) && Ok(p) && p.pending != [] && p.pending[0].when <= now && Along(q, p, fired, h, now)
    ensures var s := EventQueue.ServeHead(p, h, now);
      && Ok(s.q) && Along(q, s.q, fired + [p.pending[0]], h, now) && Sooner(s.q, p, now)
      && (Timely(q, h, now) ==> s.lost == [])
  {
    ServiceStep(p, h, now);
  }

  lemma ServiceStep(q: Queue, h: Handler, now: int)
    requires Ok(q) && q.pending != [] && q.pending[0].when <= now
    ensures var s := EventQueue.ServeHead(q, h, now);
      && Ok(s.q) && Service(q, h, now).q == Service(s.q, h, now).q
      && Service(q, h, now).fired == [q.pending[0]] + Service(s.q, h, now).fired
      && (Timely(q, h, now) ==> s.lost == [] && Timely(s.q, h, now))
      && Sooner(s.q, q, now)
  {
    ServeOk(q, h, now);
    HeadTimely(q, h, now);
    var s := EventQueue.ServeHead(q, h, now);
    assert s.q.pending != [] ==> Before(q.pending[0], s.q.pending[0]);
  }

  lemma HeldBehind(c: seq<Desc>, i: nat, d: seq<Desc>)
    requires i < |c|
    ensures Members(c[i + 1..]) + Members([c[i]] + d) <= Members(c) + Members(d)
    ensures i == 0 ==> Members(c[i + 1..]) + Members([c[i]] + d) == Members(c) + Members(d)
  {
    assert i == 0 ==> c == [c[0]] + c[1..];
  }

  lemma HeldCut(c: seq<Desc>, i: nat, d: seq<Desc>)
    requires i < |c|
    ensures Members(Cut(c, i)) + Members([c[i]] + d) == Members(c) + Members(d)
    ensures Members(Cut(c, i)) + Members(d) + {c[i]} == Members(c) + Members(d)
  {
    assert c == c[..i] + [c[i]] + c[i + 1..];
  }

  lemma SuffixMembers(c: seq<Desc>, i: nat)
    requires i < |c| && Apart(c)
    ensures c[i] !in c[i + 1..] && forall y :: y in c[i + 1..] ==> y in c
  {
    forall k | i < k < |c| ensures c[k] != c[i] { assert Differ(c[i], c[k]); }
  }

  lemma BehindLinks(c: seq<Desc>, i: nat, head: Desc?)
    requires i < |c| && Apart(c) && head == NextIn(c, i)
    requires forall k {:trigger c[k].next} :: 0 <= k < |c| && k != i ==> c[k].next == NextIn(c, k)
    ensures Linked(head, c[i + 1..])
  {
    var d := c[i + 1..];
    forall k | 0 <= k < |d| ensures d[k].next == NextIn(d, k) {
      assert c[k + i + 1].next == NextIn(c, k + i + 1);
    }
    forall j, k | 0 <= j < k < |d| ensures Differ(d[j], d[k]) {
      assert Differ(c[j + i + 1], c[k + i + 1]);
    }
  }

  lemma FreeLinks(x: Desc, d: seq<Desc>)
    requires x !in d && Linked(x.next, d)
    ensures Linked(x, [x] + d)
  {
    var e := [x] + d;
    forall k | 0 <= k < |e| ensures e[k].next == NextIn(e, k) {
      if k > 0 { assert d[k - 1].next == NextIn(d, k - 1); }
    }
    forall j, k | 0 <= j < k < |e| ensures Differ(e[j], e[k]) {
      if j > 0 { assert Differ(d[j - 1], d[k - 1]); } else { assert e[k] in d; }
    }
  }

  lemma WithLinks(c: seq<Desc>, i: nat, x: Desc)
    requires i <= |c| && Apart(c) && x !in c
    requires forall k {:trigger c[k].next} :: 0 <= k < |c| ==>
      c[k].next == if k + 1 == i then x else NextIn(c, k)
    requires x.next == NextIn(c, i - 1)
    ensures Linked(With(c, i, x)[0], With(c, i, x))
  {
    var d := With(c, i, x);
    forall k | 0 <= k < |d| ensures d[k].next == NextIn(d, k) {
      if k < i { assert d[k] == c[k]; } else if k > i { assert d[k] == c[k - 1]; }
    }
    forall j, k | 0 <= j < k < |d| ensures Differ(d[j], d[k]) {
      if j != i && k != i {
        assert Differ(c[if j < i then j else j - 1], c[if k < i then k else k - 1]);
      } else {
        assert d[if j == i then k else j] in c;
      }
    }
  }

  ghost function Members(c: seq<Desc>): set<Desc> {
    set x | x in c
  }

  lemma HeldWith(c: seq<Desc>, i: nat, x: Desc, d: seq<Desc>)
    requires i <= |c|
    ensures Members(With(c, i, x)) + Members(d) == Members(c) + Members([x] + d)
  {
    WithMembers(c, i, x);
  }

  lemma WithMembers(c: seq<Desc>, i: nat, x: Desc)
    requires i <= |c|
    ensures forall y :: y in With(c, i, x) <==> y in c || y == x
  {
    assert c == c[..i] + c[i..];
  }

  lemma WithEvents(c: seq<Desc>, i: nat, x: Desc)
    requires i <= |c|
    ensures Events(With(c, i, x)) == Events(c)[..i] + [EventAt(x)] + Events(c)[i..]
    ensures IdsMatch(c) && x.id == x.serial % WORD32 ==> IdsMatch(With(c, i, x))
  {
  }

  lemma {:induction false} PlaceIs(es: seq<Event>, when: int, i: nat)
    requires i <= |es| && (forall k :: 0 <= k < i ==> es[k].when < when) && (i < |es| ==> es[i].when >= when)
    ensures Place(es, when) == i
  {
    if i > 0 { PlaceIs(es[1..], when, i - 1); }
  }
}
