// The client and worker threads of POSIX/posix.c as a step system.
//
// One step is what a thread does while it holds a mutex, up to its release or to
// `pthread_cond_wait`.  The threads waiting on each condition variable are explicit:
// Asleep until a signal or a spurious wakeup (IEEE Std 1003.1, `pthread_cond_wait`), then
// Woken, and not Running before the loop condition was evaluated again.

module WorkerPool {
  import opened RingQueue
  import opened SeqFacts

  datatype Params = Params(capacity: nat, workers: nat, clients: nat, requests: nat)

  datatype Text = Blank | Says(client: nat, number: nat)

  datatype Request = Request(id: int, text: Text)

  /** The shutdown signal. */
  const PILL: Request := Request(-1, Blank)

  datatype Status = Running | Asleep | Woken

  datatype ClientPc =
    | Unborn
    | Next(number: nat)             // at the head of the loop
    | Putting(number: nat, id: int) // in `enqueue`
    | Finished

  datatype WorkerPc = Unstarted | Looping | Exited

  datatype MainPc =
    | Starting(next: nat)           // workers first, then clients
    | JoiningClients(next: nat)
    | Sending(sent: nat)
    | JoiningWorkers(next: nat)
    | Done

  datatype State = State(
    ring: Ring<Request>,
    producers: seq<Status>,         // the clients, then main, on `q_not_full`
    consumers: seq<Status>,         // the workers, on `q_not_empty`
    nextId: int,
    clients: seq<ClientPc>,
    workers: seq<WorkerPc>,
    main: MainPc,
    enqueued: seq<Request>,
    dequeued: seq<Request>)

  /** `wake` is the thread that the signal of the step wakes, if any thread is asleep. */
  datatype Step =
    | Main(wake: int)
    | Client(client: nat, wake: int)
    | Worker(worker: nat, wake: int)
    | SpuriousProducer(thread: nat)
    | SpuriousConsumer(thread: nat)

  ghost predicate ValidParams(p: Params) {
    p.capacity >= 1 && p.workers >= 1
  }

  function Init(p: Params): State {
    State(Ring(seq(p.capacity, _ => PILL), 0, 0, 0), seq(p.clients + 1, _ => Running), seq(p.workers, _ => Running), 1,
          seq(p.clients, _ => Unborn), seq(p.workers, _ => Unstarted), Starting(0), [], [])
  }

  // ----- condition variables -----

  predicate CanWake(st: seq<Status>, v: int) {
    Asleep !in st || (0 <= v < |st| && st[v] == Asleep)
  }

  /** `pthread_cond_signal` */
  function Signal(st: seq<Status>, v: int): (r: seq<Status>)
    requires CanWake(st, v)
    ensures |r| == |st|
  {
    if Asleep in st then st[v := Woken] else st
  }

  // ----- steps -----

  /** `enqueue` by thread t, up to the unlock or the wait. */
  function Enqueue(s: State, t: nat, r: Request, v: int): State
    requires WellFormed(s.ring) && t < |s.producers| && CanWake(s.consumers, v)
  {
    if s.ring.count == |s.ring.slots| then s.(producers := s.producers[t := Asleep])
    else s.(ring := Put(s.ring, r), producers := s.producers[t := Running],
            consumers := Signal(s.consumers, v), enqueued := s.enqueued + [r])
  }

  /** `dequeue` by worker w, and the test for the shutdown signal. */
  function Dequeue(s: State, w: nat, v: int): State
    requires WellFormed(s.ring) && w < |s.consumers| && w < |s.workers| && CanWake(s.producers, v)
  {
    if s.ring.count == 0 then s.(consumers := s.consumers[w := Asleep])
    else
      var r := First(s.ring);
      s.(ring := Take(s.ring), consumers := s.consumers[w := Running],
         producers := Signal(s.producers, v), dequeued := s.dequeued + [r],
         workers := if r.id == -1 then s.workers[w := Exited] else s.workers)
  }

  ghost predicate Shape(p: Params, s: State) {
    && WellFormed(s.ring) && |s.ring.slots| == p.capacity
    && |s.producers| == p.clients + 1 && |s.consumers| == |s.workers| == p.workers && |s.clients| == p.clients
    && match s.main
       case Starting(k) => k <= p.workers + p.clients
       case JoiningClients(k) => k <= p.clients
       case Sending(k) => k <= p.workers
       case JoiningWorkers(k) => k <= p.workers
       case Done => true
  }

  ghost predicate Enabled(p: Params, s: State, step: Step)
    requires Shape(p, s)
  {
    match step
    case Main(v) => (
      match s.main
      case Starting(_) => true
      case JoiningClients(k) => k == p.clients || s.clients[k].Finished?
      case Sending(k) => k == p.workers || (s.producers[p.clients] != Asleep && CanWake(s.consumers, v))
      case JoiningWorkers(k) => k == p.workers || s.workers[k].Exited?
      case Done => false)
    case Client(c, v) =>
      c < p.clients && (
        match s.clients[c]
        case Next(_) => true
        case Putting(_, _) => s.producers[c] != Asleep && CanWake(s.consumers, v)
        case _ => false)
    case Worker(w, v) =>
      w < p.workers && s.workers[w].Looping? && s.consumers[w] != Asleep && CanWake(s.producers, v)
    case SpuriousProducer(t) => t <= p.clients && s.producers[t] == Asleep
    case SpuriousConsumer(t) => t < p.workers && s.consumers[t] == Asleep
  }

  ghost function Apply(p: Params, s: State, step: Step): State
    requires Shape(p, s) && Enabled(p, s, step)
  {
    match step
    case Main(v) => ApplyMain(p, s, v)
    case Client(c, v) => ApplyClient(p, s, c, v)
    case Worker(w, v) => Dequeue(s, w, v)
    case SpuriousProducer(t) => s.(producers := s.producers[t := Woken])
    case SpuriousConsumer(t) => s.(consumers := s.consumers[t := Woken])
  }

  ghost function ApplyMain(p: Params, s: State, v: int): State
    requires Shape(p, s) && Enabled(p, s, Main(v))
  {
    match s.main
    case Starting(k) =>
      if k < p.workers then s.(workers := s.workers[k := Looping], main := Starting(k + 1))
      else if k < p.workers + p.clients then s.(clients := s.clients[k - p.workers := Next(0)], main := Starting(k + 1))
      else s.(main := JoiningClients(0))
    case JoiningClients(k) =>
      s.(main := if k < p.clients then JoiningClients(k + 1) else Sending(0))
    case Sending(k) =>
      if k == p.workers then s.(main := JoiningWorkers(0))
      else
        var s' := Enqueue(s, p.clients, PILL, v);
        if s.ring.count < p.capacity then s'.(main := Sending(k + 1)) else s'
    case JoiningWorkers(k) =>
      s.(main := if k < p.workers then JoiningWorkers(k + 1) else Done)
  }

  ghost function ApplyClient(p: Params, s: State, c: nat, v: int): State
    requires Shape(p, s) && Enabled(p, s, Client(c, v))
  {
    match s.clients[c]
    case Next(i) =>
      if i < p.requests then s.(clients := s.clients[c := Putting(i, s.nextId)], nextId := s.nextId + 1)
      else s.(clients := s.clients[c := Finished])
    case Putting(i, id) =>
      var s' := Enqueue(s, c, Request(id, Says(c, i)), v);
      if s.ring.count < p.capacity then s'.(clients := s.clients[c := Next(i + 1)]) else s'
  }

  // ----- runs -----

  /** s is reached from the start by these steps. */
  ghost predicate Reaches(p: Params, steps: seq<Step>, s: State)
    decreases |steps|
  {
    if steps == [] then s == Init(p)
    else exists before ::
      && Reaches(p, steps[..|steps| - 1], before)
      && Shape(p, before) && Enabled(p, before, steps[|steps| - 1]) && s == Apply(p, before, steps[|steps| - 1])
  }

  // ----- counting -----

  lemma {:induction false} CountAll<T>(s: seq<T>, x: T)
    ensures Count(s, x) == |s| <==> forall i :: 0 <= i < |s| ==> s[i] == x
  {
    if s != [] {
      var n := |s| - 1;
      CountIn(s[..n], x);
      CountAll(s[..n], x);
    }
  }

  lemma CountAppend<T>(s: seq<T>, y: T, x: T)
    ensures Count(s + [y], x) == Count(s, x) + if y == x then 1 else 0
  {
    assert (s + [y])[..|s|] == s;
  }

  // ----- no wakeup is lost -----

  /** A thread sleeps only while the woken threads can use up what there is. */
  ghost predicate NoLostWakeup(s: State) {
    && (Asleep in s.consumers ==> s.ring.count <= Count(s.consumers, Woken))
    && (Asleep in s.producers ==> |s.ring.slots| - s.ring.count <= Count(s.producers, Woken))
  }

  lemma SignalWakes(st: seq<Status>, v: int, room: int)
    requires CanWake(st, v) && (Asleep in st ==> room <= Count(st, Woken))
    ensures Asleep in Signal(st, v) ==> room + 1 <= Count(Signal(st, v), Woken)
  {
    if Asleep in st {
      CountUpdate(st, v, Woken, Woken);
    }
  }

  lemma RunWakes(st: seq<Status>, t: nat, room: int)
    requires t < |st| && st[t] != Asleep && (Asleep in st ==> room <= Count(st, Woken))
    ensures Asleep in st[t := Running] ==> room - 1 <= Count(st[t := Running], Woken)
  {
    CountUpdate(st, t, Running, Woken);
    if Asleep in st[t := Running] {
      var i :| 0 <= i < |st| && st[t := Running][i] == Asleep;
      assert st[i] == Asleep;
    }
  }

  lemma WakeOne(st: seq<Status>, t: nat, room: int)
    requires t < |st| && st[t] == Asleep && (Asleep in st ==> room <= Count(st, Woken))
    ensures Asleep in st[t := Woken] ==> room <= Count(st[t := Woken], Woken)
  {
    CountUpdate(st, t, Woken, Woken);
  }

  /** After an `enqueue` no wakeup is lost, and the request is behind the others. */
  lemma EnqueueKeeps(s: State, t: nat, r: Request, v: int)
    requires WellFormed(s.ring) && t < |s.producers| && CanWake(s.consumers, v) && s.producers[t] != Asleep
    requires NoLostWakeup(s) && s.enqueued == s.dequeued + Contents(s.ring)
    ensures var s' := Enqueue(s, t, r, v);
      WellFormed(s'.ring) && NoLostWakeup(s') && s'.enqueued == s'.dequeued + Contents(s'.ring)
  {
    if s.ring.count < |s.ring.slots| {
      PutAppends(s.ring, r);
      SignalWakes(s.consumers, v, s.ring.count);
      RunWakes(s.producers, t, |s.ring.slots| - s.ring.count);
      assert s.dequeued + (Contents(s.ring) + [r]) == s.enqueued + [r];
    }
  }

  lemma DequeueKeeps(s: State, w: nat, v: int)
    requires WellFormed(s.ring) && w < |s.consumers| && w < |s.workers| && CanWake(s.producers, v) && s.consumers[w] != Asleep
    requires NoLostWakeup(s) && s.enqueued == s.dequeued + Contents(s.ring)
    ensures var s' := Dequeue(s, w, v);
      WellFormed(s'.ring) && NoLostWakeup(s') && s'.enqueued == s'.dequeued + Contents(s'.ring)
  {
    if s.ring.count > 0 {
      TakeRemoves(s.ring);
      SignalWakes(s.producers, v, |s.ring.slots| - s.ring.count);
      RunWakes(s.consumers, w, s.ring.count);
      var s' := Dequeue(s, w, v);
      assert s'.dequeued + Contents(s'.ring) == s.dequeued + ([First(s.ring)] + Contents(Take(s.ring)));
    }
  }

  // ----- the invariant -----

  /** Only threads inside `enqueue` or `dequeue` wait. */
  ghost predicate StatusOk(p: Params, s: State)
    requires Shape(p, s)
  {
    && (forall w :: 0 <= w < p.workers && s.consumers[w] != Running ==> s.workers[w].Looping?)
    && (forall c :: 0 <= c < p.clients && s.producers[c] != Running ==> s.clients[c].Putting?)
    && (s.producers[p.clients] != Running ==> s.main.Sending? && s.main.sent < p.workers)
  }

  function BornBefore(p: Params, m: MainPc): nat {
    if m.Starting? then m.next else p.workers + p.clients
  }

  function JoinedClients(p: Params, m: MainPc): nat {
    match m
    case Starting(_) => 0
    case JoiningClients(k) => k
    case _ => p.clients
  }

  function JoinedWorkers(p: Params, m: MainPc): nat {
    match m
    case JoiningWorkers(k) => k
    case Done => p.workers
    case _ => 0
  }

  function Sent(p: Params, m: MainPc): nat {
    match m
    case Sending(k) => k
    case JoiningWorkers(_) => p.workers
    case Done => p.workers
    case _ => 0
  }

  /** What main started and joined, and how far the clients may be. */
  ghost predicate FlowOk(p: Params, s: State)
    requires Shape(p, s)
  {
    && (forall w :: 0 <= w < p.workers ==> (s.workers[w].Unstarted? <==> w >= BornBefore(p, s.main)))
    && (forall c :: 0 <= c < p.clients ==> (s.clients[c].Unborn? <==> p.workers + c >= BornBefore(p, s.main)))
    && (forall c :: 0 <= c < p.clients && c < JoinedClients(p, s.main) ==> s.clients[c].Finished?)
    && (forall w :: 0 <= w < p.workers && w < JoinedWorkers(p, s.main) ==> s.workers[w].Exited?)
    && (forall c :: 0 <= c < p.clients ==>
          match s.clients[c]
          case Next(i) => i <= p.requests
          case Putting(i, _) => i < p.requests
          case _ => true)
  }

  /** As many workers exited as shutdown signals were dequeued; the signals come last. */
  ghost predicate PillsOk(p: Params, s: State)
    requires Shape(p, s)
  {
    && Count(s.enqueued, PILL) == Sent(p, s.main)
    && Count(s.workers, Exited) == Count(s.dequeued, PILL)
    && (forall j, k :: 0 <= j < k < |s.enqueued| && s.enqueued[j] == PILL ==> s.enqueued[k] == PILL)
  }

  /** Request ids are positive, new, and no two requests share one. */
  ghost predicate IdsOk(p: Params, s: State)
    requires Shape(p, s)
  {
    && s.nextId >= 1
    && (forall j :: 0 <= j < |s.enqueued| ==> s.enqueued[j] == PILL || 1 <= s.enqueued[j].id < s.nextId)
    && (forall j, k :: 0 <= j < k < |s.enqueued| && s.enqueued[j].id == s.enqueued[k].id ==> s.enqueued[j] == PILL)
    && (forall c :: 0 <= c < p.clients && s.clients[c].Putting? ==> 1 <= s.clients[c].id < s.nextId)
    && (forall c, j :: 0 <= c < p.clients && s.clients[c].Putting? && 0 <= j < |s.enqueued| ==> s.enqueued[j].id != s.clients[c].id)
    && (forall c, d :: 0 <= c < d < p.clients && s.clients[c].Putting? && s.clients[d].Putting? ==> s.clients[c].id != s.clients[d].id)
  }

  /** The numbers of the requests of client c, in the order of the history h. */
  ghost function Numbers(h: seq<Request>, c: nat): seq<nat> {
    if h == [] then []
    else
      var r := h[|h| - 1];
      Numbers(h[..|h| - 1], c) + if r.text.Says? && r.text.client == c then [r.text.number] else []
  }

  lemma NumbersAppend(h: seq<Request>, r: Request, c: nat)
    ensures Numbers(h + [r], c) == Numbers(h, c) + if r.text.Says? && r.text.client == c then [r.text.number] else []
  {
    assert (h + [r])[..|h|] == h;
  }

  ghost function FirstNumbers(n: nat): seq<nat> {
    seq(n, i => i)
  }

  function DoneBy(p: Params, pc: ClientPc): nat {
    match pc
    case Unborn => 0
    case Next(i) => i
    case Putting(i, _) => i
    case Finished => p.requests
  }

  /** Every client enqueued its requests one by one, each once. */
  ghost predicate NumbersOk(p: Params, s: State)
    requires Shape(p, s)
  {
    forall c :: 0 <= c < p.clients ==> Numbers(s.enqueued, c) == FirstNumbers(DoneBy(p, s.clients[c]))
  }

  /** Holds in every reachable state. */
  ghost predicate Inv(p: Params, s: State) {
    && Shape(p, s) && StatusOk(p, s) && FlowOk(p, s) && NoLostWakeup(s)
    && s.enqueued == s.dequeued + Contents(s.ring)
    && PillsOk(p, s) && IdsOk(p, s) && NumbersOk(p, s)
  }

  lemma InitInv(p: Params)
    requires ValidParams(p)
    ensures Inv(p, Init(p))
  {
    var s := Init(p);
    InitParts(p, s);
    assert Contents(s.ring) == [];
  }

  lemma InitParts(p: Params, s: State)
    requires ValidParams(p) && s == Init(p)
    ensures Shape(p, s) && StatusOk(p, s) && FlowOk(p, s) && NoLostWakeup(s)
    ensures PillsOk(p, s) && IdsOk(p, s) && NumbersOk(p, s)
  {
    CountIn(s.workers, Exited);
  }

  lemma StepShape(p: Params, s: State, step: Step)
    requires Shape(p, s) && Enabled(p, s, step) && NoLostWakeup(s) && s.enqueued == s.dequeued + Contents(s.ring)
    ensures var s' := Apply(p, s, step);
      Shape(p, s') && NoLostWakeup(s') && s'.enqueued == s'.dequeued + Contents(s'.ring)
  {
    match step
    case Main(v) => MainShape(p, s, v);
    case Client(c, v) =>
      if s.clients[c].Putting? {
        EnqueueKeeps(s, c, Request(s.clients[c].id, Says(c, s.clients[c].number)), v);
      }
    case Worker(w, v) => DequeueKeeps(s, w, v);
    case SpuriousProducer(t) => WakeOne(s.producers, t, |s.ring.slots| - s.ring.count);
    case SpuriousConsumer(t) => WakeOne(s.consumers, t, s.ring.count);
  }

  lemma MainShape(p: Params, s: State, v: int)
    requires Shape(p, s) && Enabled(p, s, Main(v)) && NoLostWakeup(s) && s.enqueued == s.dequeued + Contents(s.ring)
    ensures var s' := ApplyMain(p, s, v);
      Shape(p, s') && NoLostWakeup(s') && s'.enqueued == s'.dequeued + Contents(s'.ring)
  {
    if s.main.Sending? && s.main.sent < p.workers {
      EnqueueKeeps(s, p.clients, PILL, v);
    }
  }

  lemma StepStatus(p: Params, s: State, step: Step)
    requires Inv(p, s) && Enabled(p, s, step) && Shape(p, Apply(p, s, step))
    ensures StatusOk(p, Apply(p, s, step))
  {
    match step
    case Main(v) => MainStatus(p, s, v);
    case Client(c, v) => ClientStatus(p, s, c, v);
    case Worker(w, v) => WorkerStatus(p, s, w, v);
    case SpuriousProducer(t) =>
    case SpuriousConsumer(t) =>
  }

  lemma MainStatus(p: Params, s: State, v: int)
    requires Shape(p, s) && Enabled(p, s, Main(v)) && StatusOk(p, s) && FlowOk(p, s) && Shape(p, ApplyMain(p, s, v))
    ensures StatusOk(p, ApplyMain(p, s, v))
  {
  }

  lemma ClientStatus(p: Params, s: State, c: nat, v: int)
    requires Shape(p, s) && Enabled(p, s, Client(c, v)) && StatusOk(p, s) && Shape(p, ApplyClient(p, s, c, v))
    ensures StatusOk(p, ApplyClient(p, s, c, v))
  {
  }

  lemma WorkerStatus(p: Params, s: State, w: nat, v: int)
    requires Shape(p, s) && Enabled(p, s, Worker(w, v)) && StatusOk(p, s) && Shape(p, Dequeue(s, w, v))
    ensures StatusOk(p, Dequeue(s, w, v))
  {
  }

  lemma StepFlow(p: Params, s: State, step: Step)
    requires Inv(p, s) && Enabled(p, s, step) && Shape(p, Apply(p, s, step))
    ensures FlowOk(p, Apply(p, s, step))
  {
    match step
    case Main(v) => MainFlow(p, s, v);
    case Client(c, v) => ClientFlow(p, s, c, v);
    case Worker(w, v) => WorkerFlow(p, s, w, v);
    case SpuriousProducer(t) =>
    case SpuriousConsumer(t) =>
  }

  lemma MainFlow(p: Params, s: State, v: int)
    requires Shape(p, s) && Enabled(p, s, Main(v)) && FlowOk(p, s) && Shape(p, ApplyMain(p, s, v))
    ensures FlowOk(p, ApplyMain(p, s, v))
  {
  }

  lemma ClientFlow(p: Params, s: State, c: nat, v: int)
    requires Shape(p, s) && Enabled(p, s, Client(c, v)) && FlowOk(p, s) && Shape(p, ApplyClient(p, s, c, v))
    ensures FlowOk(p, ApplyClient(p, s, c, v))
  {
  }

  lemma WorkerFlow(p: Params, s: State, w: nat, v: int)
    requires Shape(p, s) && Enabled(p, s, Worker(w, v)) && FlowOk(p, s) && Shape(p, Dequeue(s, w, v))
    ensures FlowOk(p, Dequeue(s, w, v))
  {
  }

  lemma StepPills(p: Params, s: State, step: Step)
    requires Inv(p, s) && Enabled(p, s, step) && Shape(p, Apply(p, s, step))
    ensures PillsOk(p, Apply(p, s, step))
  {
    match step
    case Main(v) => MainPills(p, s, v);
    case Client(c, v) => ClientPills(p, s, c, v);
    case Worker(w, v) => WorkerPills(p, s, w, v);
    case SpuriousProducer(t) =>
    case SpuriousConsumer(t) =>
  }

  lemma MainPills(p: Params, s: State, v: int)
    requires Shape(p, s) && Enabled(p, s, Main(v)) && FlowOk(p, s) && PillsOk(p, s) && Shape(p, ApplyMain(p, s, v))
    ensures PillsOk(p, ApplyMain(p, s, v))
  {
    match s.main
    case Starting(k) =>
      if k < p.workers {
        CountUpdate(s.workers, k, Looping, Exited);
      }
    case Sending(k) => CountAppend(s.enqueued, PILL, PILL);
    case _ =>
  }

  lemma ClientPills(p: Params, s: State, c: nat, v: int)
    requires Shape(p, s) && Enabled(p, s, Client(c, v)) && FlowOk(p, s) && PillsOk(p, s) && IdsOk(p, s)
    requires Shape(p, ApplyClient(p, s, c, v))
    ensures PillsOk(p, ApplyClient(p, s, c, v))
  {
    if s.clients[c].Putting? {
      CountAppend(s.enqueued, Request(s.clients[c].id, Says(c, s.clients[c].number)), PILL);
      CountIn(s.enqueued, PILL);
    }
  }

  lemma WorkerPills(p: Params, s: State, w: nat, v: int)
    requires Shape(p, s) && Enabled(p, s, Worker(w, v)) && PillsOk(p, s) && IdsOk(p, s)
    requires s.enqueued == s.dequeued + Contents(s.ring) && Shape(p, Dequeue(s, w, v))
    ensures PillsOk(p, Dequeue(s, w, v))
  {
    if s.ring.count > 0 {
      var r := First(s.ring);
      TakeRemoves(s.ring);
      assert r == s.enqueued[|s.dequeued|];
      CountUpdate(s.workers, w, Exited, Exited);
      CountAppend(s.dequeued, r, PILL);
    }
  }

  lemma StepIds(p: Params, s: State, step: Step)
    requires Inv(p, s) && Enabled(p, s, step) && Shape(p, Apply(p, s, step))
    ensures IdsOk(p, Apply(p, s, step))
  {
    match step
    case Main(v) => MainIds(p, s, v);
    case Client(c, v) => ClientIds(p, s, c, v);
    case Worker(w, v) =>
    case SpuriousProducer(t) =>
    case SpuriousConsumer(t) =>
  }

  lemma MainIds(p: Params, s: State, v: int)
    requires Shape(p, s) && Enabled(p, s, Main(v)) && FlowOk(p, s) && IdsOk(p, s) && Shape(p, ApplyMain(p, s, v))
    ensures IdsOk(p, ApplyMain(p, s, v))
  {
  }

  lemma ClientIds(p: Params, s: State, c: nat, v: int)
    requires Shape(p, s) && Enabled(p, s, Client(c, v)) && IdsOk(p, s) && Shape(p, ApplyClient(p, s, c, v))
    ensures IdsOk(p, ApplyClient(p, s, c, v))
  {
    if s.clients[c].Putting? {
      ClientPutsId(p, s, c, v);
    }
  }

  lemma ClientPutsId(p: Params, s: State, c: nat, v: int)
    requires Shape(p, s) && Enabled(p, s, Client(c, v)) && IdsOk(p, s) && Shape(p, ApplyClient(p, s, c, v))
    requires s.clients[c].Putting?
    ensures IdsOk(p, ApplyClient(p, s, c, v))
  {
    var s' := ApplyClient(p, s, c, v);
    if s.ring.count < p.capacity {
      assert s'.enqueued == s.enqueued + [Request(s.clients[c].id, Says(c, s.clients[c].number))];
      assert forall d :: 0 <= d < p.clients && s'.clients[d].Putting? ==> s'.clients[d] == s.clients[d] && d != c;
    }
  }

  lemma StepNumbers(p: Params, s: State, step: Step)
    requires Inv(p, s) && Enabled(p, s, step) && Shape(p, Apply(p, s, step))
    ensures NumbersOk(p, Apply(p, s, step))
  {
    match step
    case Main(v) => MainNumbers(p, s, v);
    case Client(c, v) => ClientNumbers(p, s, c, v);
    case Worker(w, v) =>
    case SpuriousProducer(t) =>
    case SpuriousConsumer(t) =>
  }

  lemma MainNumbers(p: Params, s: State, v: int)
    requires Shape(p, s) && Enabled(p, s, Main(v)) && NumbersOk(p, s) && FlowOk(p, s) && Shape(p, ApplyMain(p, s, v))
    ensures NumbersOk(p, ApplyMain(p, s, v))
  {
    var s' := ApplyMain(p, s, v);
    forall c | 0 <= c < p.clients ensures Numbers(s'.enqueued, c) == FirstNumbers(DoneBy(p, s'.clients[c])) {
      NumbersAppend(s.enqueued, PILL, c);
    }
  }

  lemma ClientNumbers(p: Params, s: State, c: nat, v: int)
    requires Shape(p, s) && Enabled(p, s, Client(c, v)) && NumbersOk(p, s) && FlowOk(p, s) && Shape(p, ApplyClient(p, s, c, v))
    ensures NumbersOk(p, ApplyClient(p, s, c, v))
  {
    var s' := ApplyClient(p, s, c, v);
    if s.clients[c].Putting? {
      var i := s.clients[c].number;
      assert FirstNumbers(i) + [i] == FirstNumbers(i + 1);
      forall d | 0 <= d < p.clients ensures Numbers(s'.enqueued, d) == FirstNumbers(DoneBy(p, s'.clients[d])) {
        NumbersAppend(s.enqueued, Request(s.clients[c].id, Says(c, i)), d);
      }
    }
  }

  lemma StepInv(p: Params, s: State, step: Step)
    requires Inv(p, s) && Enabled(p, s, step)
    ensures Inv(p, Apply(p, s, step))
  {
    StepShape(p, s, step);
    StepStatus(p, s, step);
    StepFlow(p, s, step);
    StepPills(p, s, step);
    StepIds(p, s, step);
    StepNumbers(p, s, step);
  }

  /** The invariant holds after every run, spurious wakeups included. */
  lemma {:induction false} ReachesInv(p: Params, steps: seq<Step>, s: State)
    requires ValidParams(p) && Reaches(p, steps, s)
    ensures Inv(p, s)
    decreases |steps|
  {
    if steps == [] {
      InitInv(p);
    } else {
      var n := |steps| - 1;
      var before :| Reaches(p, steps[..n], before)
        && Shape(p, before) && Enabled(p, before, steps[n]) && s == Apply(p, before, steps[n]);
      ReachesInv(p, steps[..n], before);
      StepInv(p, before, steps[n]);
    }
  }

  // ----- what follows -----

  lemma {:induction false} CountSplit<T>(a: seq<T>, b: seq<T>, x: T)
    ensures Count(a + b, x) == Count(a, x) + Count(b, x)
  {
    if b == [] {
      assert a + b == a;
    } else {
      var n := |b| - 1;
      assert (a + b)[..|a| + n] == a + b[..n];
      CountSplit(a, b[..n], x);
    }
  }

  lemma Sleeper(st: seq<Status>) returns (v: int)
    ensures CanWake(st, v)
  {
    if Asleep in st {
      v :| 0 <= v < |st| && st[v] == Asleep;
    } else {
      v := 0;
    }
  }

  /** A worker that sleeps beside a request leaves a woken one. */
  lemma ConsumerAwake(p: Params, s: State) returns (w: nat)
    requires Shape(p, s) && StatusOk(p, s) && FlowOk(p, s) && NoLostWakeup(s) && !s.main.Starting?
    requires s.ring.count > 0 && Count(s.workers, Exited) < p.workers
    ensures w < p.workers && s.workers[w].Looping? && s.consumers[w] != Asleep
  {
    CountAll(s.workers, Exited);
    w :| 0 <= w < p.workers && s.workers[w] != Exited;
    assert s.workers[w].Looping?;
    if s.consumers[w] == Asleep {
      CountIn(s.consumers, Woken);
      w :| 0 <= w < p.workers && s.consumers[w] == Woken;
    }
  }

  /** Producers that all sleep do so because the queue is full. */
  lemma ProducersFull(p: Params, s: State, t: nat)
    requires Shape(p, s) && NoLostWakeup(s) && t <= p.clients && s.producers[t] == Asleep
    requires forall c :: 0 <= c <= p.clients ==> s.producers[c] != Woken
    ensures s.ring.count == p.capacity
  {
    CountIn(s.producers, Woken);
  }

  /** A worker that has not exited still has a shutdown signal to come. */
  lemma PillWaits(p: Params, s: State, k: nat)
    requires Shape(p, s) && PillsOk(p, s) && s.enqueued == s.dequeued + Contents(s.ring)
    requires s.main.JoiningWorkers? && k < p.workers && !s.workers[k].Exited?
    ensures s.ring.count > 0 && Count(s.workers, Exited) < p.workers
  {
    CountAll(s.workers, Exited);
    CountIn(s.workers, Exited);
    CountSplit(s.dequeued, Contents(s.ring), PILL);
    CountIn(Contents(s.ring), PILL);
  }

  lemma PillsToCome(p: Params, s: State)
    requires Shape(p, s) && PillsOk(p, s) && s.enqueued == s.dequeued + Contents(s.ring) && Sent(p, s.main) < p.workers
    ensures Count(s.workers, Exited) < p.workers
  {
    CountSplit(s.dequeued, Contents(s.ring), PILL);
  }

  /** Until main is done, some thread can go on without a spurious wakeup. */
  lemma SomeThreadGoesOn(p: Params, s: State) returns (step: Step)
    requires ValidParams(p) && Inv(p, s) && !s.main.Done?
    ensures Enabled(p, s, step) && !Spurious(step)
  {
    var v := Sleeper(s.consumers);
    var u := Sleeper(s.producers);
    if s.main.Starting? {
      return Main(v);
    }
    if c :| 0 <= c < p.clients && (s.clients[c].Next? || (s.clients[c].Putting? && s.producers[c] != Asleep)) {
      return Client(c, v);
    }
    if Enabled(p, s, Main(v)) {
      return Main(v);
    }
    if s.main.JoiningWorkers? {
      PillWaits(p, s, s.main.next);
    } else {
      PillsToCome(p, s);
      ProducersFull(p, s, if s.main.Sending? then p.clients else s.main.next);
    }
    var w := ConsumerAwake(p, s);
    return Worker(w, u);
  }

  /** No reachable state has all unfinished threads blocked. */
  lemma NoDeadlock(p: Params, steps: seq<Step>, s: State)
    requires ValidParams(p) && Reaches(p, steps, s) && !s.main.Done?
    ensures Shape(p, s) && exists step :: Enabled(p, s, step) && !Spurious(step)
  {
    ReachesInv(p, steps, s);
    var step := SomeThreadGoesOn(p, s);
  }

  /** In every run: the queue is first in, first out, ids are distinct and never that of the
      shutdown signal, and the waiting threads satisfy NoLostWakeup. */
  lemma Fifo(p: Params, steps: seq<Step>, s: State)
    requires ValidParams(p) && Reaches(p, steps, s)
    ensures WellFormed(s.ring) && s.enqueued == s.dequeued + Contents(s.ring) && NoLostWakeup(s)
    ensures forall j, k :: 0 <= j < k < |s.enqueued| && s.enqueued[j].id == s.enqueued[k].id ==> s.enqueued[j] == PILL
    ensures forall j :: 0 <= j < |s.enqueued| && s.enqueued[j].id == -1 ==> s.enqueued[j] == PILL
  {
    ReachesInv(p, steps, s);
  }

  lemma {:induction false} NoNumbers(h: seq<Request>, c: nat)
    requires forall j :: 0 <= j < |h| ==> h[j] == PILL
    ensures Numbers(h, c) == []
  {
    if h != [] {
      assert h[|h| - 1] == PILL;
      NoNumbers(h[..|h| - 1], c);
    }
  }

  lemma {:induction false} NumbersSplit(a: seq<Request>, b: seq<Request>, c: nat)
    ensures Numbers(a + b, c) == Numbers(a, c) + Numbers(b, c)
  {
    if b == [] {
      assert a + b == a;
    } else {
      var n := |b| - 1;
      assert (a + b)[..|a| + n] == a + b[..n];
      NumbersSplit(a, b[..n], c);
    }
  }

  /** Behind a shutdown signal there are only shutdown signals. */
  lemma RestIsPills(enqueued: seq<Request>, dequeued: seq<Request>, rest: seq<Request>)
    requires enqueued == dequeued + rest && PILL in dequeued
    requires forall j, k :: 0 <= j < k < |enqueued| && enqueued[j] == PILL ==> enqueued[k] == PILL
    ensures forall i :: 0 <= i < |rest| ==> rest[i] == PILL
    ensures Count(enqueued, PILL) > 0
    ensures forall c :: Numbers(dequeued, c) == Numbers(enqueued, c)
    ensures Count(enqueued, PILL) == Count(dequeued, PILL) ==> rest == []
  {
    var j :| 0 <= j < |dequeued| && dequeued[j] == PILL;
    assert enqueued[j] == PILL;
    forall i | 0 <= i < |rest| ensures rest[i] == PILL {
      assert enqueued[|dequeued| + i] == rest[i];
    }
    CountIn(enqueued, PILL);
    forall c ensures Numbers(dequeued, c) == Numbers(enqueued, c) {
      NumbersSplit(dequeued, rest, c);
      NoNumbers(rest, c);
    }
    CountSplit(dequeued, rest, PILL);
    CountAll(rest, PILL);
  }

  lemma ClientsFinished(p: Params, s: State)
    requires Shape(p, s) && FlowOk(p, s) && PillsOk(p, s) && NumbersOk(p, s) && Count(s.enqueued, PILL) > 0
    ensures forall c :: 0 <= c < p.clients ==> s.clients[c].Finished? && Numbers(s.enqueued, c) == FirstNumbers(p.requests)
  {
  }

  /** Once a worker received a shutdown signal, every request of every client was
      dequeued, exactly once and in its order; only shutdown signals are left. */
  lemma ShutdownComesLast(p: Params, steps: seq<Step>, s: State)
    requires ValidParams(p) && Reaches(p, steps, s) && PILL in s.dequeued
    ensures forall c :: 0 <= c < p.clients ==> Numbers(s.dequeued, c) == FirstNumbers(p.requests)
    ensures WellFormed(s.ring) && forall i :: 0 <= i < |Contents(s.ring)| ==> Contents(s.ring)[i] == PILL
  {
    ReachesInv(p, steps, s);
    RestIsPills(s.enqueued, s.dequeued, Contents(s.ring));
    ClientsFinished(p, s);
  }

  /** At the end all threads have exited and everything enqueued was dequeued. */
  lemma AtTheEnd(p: Params, steps: seq<Step>, s: State)
    requires ValidParams(p) && Reaches(p, steps, s) && s.main.Done?
    ensures |s.workers| == p.workers && (forall w :: 0 <= w < p.workers ==> s.workers[w].Exited?)
    ensures |s.clients| == p.clients && (forall c :: 0 <= c < p.clients ==> s.clients[c].Finished?)
    ensures s.dequeued == s.enqueued && forall c :: 0 <= c < p.clients ==> Numbers(s.dequeued, c) == FirstNumbers(p.requests)
  {
    ReachesInv(p, steps, s);
    AllPillsTaken(p, s);
    RestIsPills(s.enqueued, s.dequeued, Contents(s.ring));
    ClientsFinished(p, s);
  }

  lemma AllPillsTaken(p: Params, s: State)
    requires Shape(p, s) && FlowOk(p, s) && PillsOk(p, s) && s.main.Done? && p.workers > 0
    ensures Count(s.enqueued, PILL) == Count(s.dequeued, PILL) && PILL in s.dequeued
  {
    CountAll(s.workers, Exited);
    CountIn(s.dequeued, PILL);
  }

  // ----- ids in order -----

  function ProducedBy(p: Params, pc: ClientPc): nat {
    match pc
    case Unborn => 0
    case Next(i) => i
    case Putting(i, _) => i + 1
    case Finished => p.requests
  }

  /** How many requests the clients have made so far. */
  ghost function Produced(p: Params, pcs: seq<ClientPc>): nat {
    if pcs == [] then 0 else Produced(p, pcs[..|pcs| - 1]) + ProducedBy(p, pcs[|pcs| - 1])
  }

  lemma {:induction false} ProducedUpdate(p: Params, pcs: seq<ClientPc>, c: nat, pc: ClientPc)
    requires c < |pcs|
    ensures Produced(p, pcs[c := pc]) == Produced(p, pcs) - ProducedBy(p, pcs[c]) + ProducedBy(p, pc)
  {
    var n := |pcs| - 1;
    assert pcs[c := pc][..n] == if c < n then pcs[..n][c := pc] else pcs[..n];
    if c < n {
      ProducedUpdate(p, pcs[..n], c, pc);
    }
  }

  lemma {:induction false} ProducedAll(p: Params, pcs: seq<ClientPc>, pc: ClientPc)
    requires forall c :: 0 <= c < |pcs| ==> pcs[c] == pc
    ensures Produced(p, pcs) == |pcs| * ProducedBy(p, pc)
  {
    if pcs != [] {
      ProducedAll(p, pcs[..|pcs| - 1], pc);
    }
  }

  lemma StepProduced(p: Params, s: State, step: Step)
    requires Shape(p, s) && Enabled(p, s, step) && FlowOk(p, s) && s.nextId == 1 + Produced(p, s.clients)
    ensures Apply(p, s, step).nextId == 1 + Produced(p, Apply(p, s, step).clients)
  {
    match step
    case Main(v) => MainProduced(p, s, v);
    case Client(c, v) => ClientProduced(p, s, c, v);
    case _ =>
  }

  lemma MainProduced(p: Params, s: State, v: int)
    requires Shape(p, s) && Enabled(p, s, Main(v)) && FlowOk(p, s) && s.nextId == 1 + Produced(p, s.clients)
    ensures ApplyMain(p, s, v).nextId == 1 + Produced(p, ApplyMain(p, s, v).clients)
  {
    if s.main.Starting? && p.workers <= s.main.next < p.workers + p.clients {
      ProducedUpdate(p, s.clients, s.main.next - p.workers, Next(0));
    }
  }

  lemma ClientProduced(p: Params, s: State, c: nat, v: int)
    requires Shape(p, s) && Enabled(p, s, Client(c, v)) && FlowOk(p, s) && s.nextId == 1 + Produced(p, s.clients)
    ensures ApplyClient(p, s, c, v).nextId == 1 + Produced(p, ApplyClient(p, s, c, v).clients)
  {
    match s.clients[c]
    case Next(i) => ProducedUpdate(p, s.clients, c, if i < p.requests then Putting(i, s.nextId) else Finished);
    case Putting(i, _) => ProducedUpdate(p, s.clients, c, Next(i + 1));
  }

  /** `next_request_id` counts the requests made. */
  lemma {:induction false} NextIdCounts(p: Params, steps: seq<Step>, s: State)
    requires ValidParams(p) && Reaches(p, steps, s)
    ensures s.nextId == 1 + Produced(p, s.clients)
    decreases |steps|
  {
    if steps == [] {
      ProducedAll(p, s.clients, Unborn);
    } else {
      var before, step := steps[..|steps| - 1], steps[|steps| - 1];
      var s0 :| Reaches(p, before, s0) && Shape(p, s0) && Enabled(p, s0, step) && s == Apply(p, s0, step);
      NextIdCounts(p, before, s0);
      ReachesInv(p, before, s0);
      StepProduced(p, s0, step);
    }
  }

  /** So the requests are numbered 1, 2, 3 and on in the order in which they are made. */
  lemma NumberedInOrder(p: Params, steps: seq<Step>, s: State, c: nat, v: int)
    requires ValidParams(p) && Reaches(p, steps, s) && Shape(p, s) && Enabled(p, s, Client(c, v))
    requires s.clients[c].Next? && s.clients[c].number < p.requests
    ensures Apply(p, s, Client(c, v)).clients[c] == Putting(s.clients[c].number, 1 + Produced(p, s.clients))
  {
    NextIdCounts(p, steps, s);
  }

  /** At the end as many ids were handed out as there were requests to make. */
  lemma IdsAtTheEnd(p: Params, steps: seq<Step>, s: State)
    requires ValidParams(p) && Reaches(p, steps, s) && s.main.Done?
    ensures s.nextId == 1 + p.clients * p.requests
  {
    AtTheEnd(p, steps, s);
    NextIdCounts(p, steps, s);
    ProducedAll(p, s.clients, Finished);
  }

  // ----- termination -----

  function ClientRank(p: Params, pc: ClientPc, st: Status): int {
    match pc
    case Unborn => 8 * p.requests + 1
    case Next(i) => 8 * (p.requests - i) + 1
    case Putting(i, _) => 8 * (p.requests - i) - if st == Asleep then 1 else 0
    case Finished => 0
  }

  function WorkerRank(pc: WorkerPc, st: Status): int {
    if pc == Exited || st == Asleep then 0 else 1
  }

  function MainRank(p: Params, m: MainPc, st: Status): int {
    match m
    case Starting(k) => p.workers + p.clients - k + p.clients + 9 * p.workers + 4
    case JoiningClients(k) => p.clients - k + 9 * p.workers + 3
    case Sending(k) => 8 * (p.workers - k) + p.workers + 2 - if st == Asleep then 1 else 0
    case JoiningWorkers(k) => p.workers - k + 1
    case Done => 0
  }

  ghost function ClientRanks(p: Params, pcs: seq<ClientPc>, st: seq<Status>): int
    requires |st| >= |pcs|
  {
    if pcs == [] then 0
    else
      var n := |pcs| - 1;
      ClientRanks(p, pcs[..n], st) + ClientRank(p, pcs[n], st[n])
  }

  ghost function WorkerRanks(pcs: seq<WorkerPc>, st: seq<Status>): int
    requires |st| >= |pcs|
  {
    if pcs == [] then 0
    else
      var n := |pcs| - 1;
      WorkerRanks(pcs[..n], st) + WorkerRank(pcs[n], st[n])
  }

  /** Goes down with every step but a spurious wakeup. */
  ghost function Measure(p: Params, s: State): int
    requires Shape(p, s)
  {
    ClientRanks(p, s.clients, s.producers) + WorkerRanks(s.workers, s.consumers)
    + MainRank(p, s.main, s.producers[p.clients]) + 3 * s.ring.count
  }

  lemma {:induction false} ClientRanksUpdate(p: Params, pcs: seq<ClientPc>, st: seq<Status>, c: nat, pc: ClientPc, x: Status)
    requires |st| >= |pcs| && c < |st|
    ensures c < |pcs| ==>
      ClientRanks(p, pcs[c := pc], st[c := x]) == ClientRanks(p, pcs, st) - ClientRank(p, pcs[c], st[c]) + ClientRank(p, pc, x)
    ensures c >= |pcs| ==> ClientRanks(p, pcs, st[c := x]) == ClientRanks(p, pcs, st)
  {
    if pcs != [] {
      var n := |pcs| - 1;
      ClientRanksUpdate(p, pcs[..n], st, c, pc, x);
      if c < n {
        assert pcs[c := pc][..n] == pcs[..n][c := pc];
      } else if c == n {
        assert pcs[c := pc][..n] == pcs[..n];
      }
    }
  }

  lemma {:induction false} WorkerRanksUpdate(pcs: seq<WorkerPc>, st: seq<Status>, w: nat, pc: WorkerPc, x: Status)
    requires |st| >= |pcs| && w < |st|
    ensures w < |pcs| ==>
      WorkerRanks(pcs[w := pc], st[w := x]) == WorkerRanks(pcs, st) - WorkerRank(pcs[w], st[w]) + WorkerRank(pc, x)
    ensures w >= |pcs| ==> WorkerRanks(pcs, st[w := x]) == WorkerRanks(pcs, st)
  {
    if pcs != [] {
      var n := |pcs| - 1;
      WorkerRanksUpdate(pcs[..n], st, w, pc, x);
      if w < n {
        assert pcs[w := pc][..n] == pcs[..n][w := pc];
      } else if w == n {
        assert pcs[w := pc][..n] == pcs[..n];
      }
    }
  }

  ghost predicate Spurious(step: Step) {
    step.SpuriousProducer? || step.SpuriousConsumer?
  }

  /** Producer t at a new place, with a new status. */
  lemma ProducerMoves(p: Params, s: State, c: nat, pc: ClientPc, x: Status)
    requires Shape(p, s) && c < p.clients
    ensures ClientRanks(p, s.clients[c := pc], s.producers[c := x])
         == ClientRanks(p, s.clients, s.producers) - ClientRank(p, s.clients[c], s.producers[c]) + ClientRank(p, pc, x)
  {
    ClientRanksUpdate(p, s.clients, s.producers, c, pc, x);
  }

  lemma MainMoves(p: Params, s: State, x: Status)
    requires Shape(p, s)
    ensures ClientRanks(p, s.clients, s.producers[p.clients := x]) == ClientRanks(p, s.clients, s.producers)
  {
    ClientRanksUpdate(p, s.clients, s.producers, p.clients, Unborn, x);
  }

  /** A wakeup adds one. */
  lemma WakeConsumer(p: Params, s: State, w: nat)
    requires Shape(p, s) && StatusOk(p, s) && w < p.workers && s.consumers[w] == Asleep
    ensures WorkerRanks(s.workers, s.consumers[w := Woken]) == WorkerRanks(s.workers, s.consumers) + 1
  {
    WorkerRanksUpdate(s.workers, s.consumers, w, s.workers[w], Woken);
    assert s.workers[w := s.workers[w]] == s.workers;
  }

  lemma WakeProducer(p: Params, s: State, t: nat)
    requires Shape(p, s) && StatusOk(p, s) && t <= p.clients && s.producers[t] == Asleep
    ensures var st := s.producers[t := Woken];
      ClientRanks(p, s.clients, st) + MainRank(p, s.main, st[p.clients])
      == ClientRanks(p, s.clients, s.producers) + MainRank(p, s.main, s.producers[p.clients]) + 1
  {
    if t < p.clients {
      ClientRanksUpdate(p, s.clients, s.producers, t, s.clients[t], Woken);
      assert s.clients[t := s.clients[t]] == s.clients;
    } else {
      MainMoves(p, s, Woken);
    }
  }

  lemma ClientDecreases(p: Params, s: State, c: nat, v: int)
    requires Shape(p, s) && StatusOk(p, s) && FlowOk(p, s) && Enabled(p, s, Client(c, v))
    requires Shape(p, ApplyClient(p, s, c, v))
    ensures Measure(p, ApplyClient(p, s, c, v)) < Measure(p, s)
  {
    var s' := ApplyClient(p, s, c, v);
    match s.clients[c]
    case Next(i) =>
      ProducerMoves(p, s, c, s'.clients[c], Running);
      assert s.producers[c := Running] == s.producers;
    case Putting(i, id) =>
      if s.ring.count < p.capacity {
        ProducerMoves(p, s, c, Next(i + 1), Running);
        if Asleep in s.consumers {
          WakeConsumer(p, s, v);
        }
      } else {
        ProducerMoves(p, s, c, s.clients[c], Asleep);
        assert s.clients[c := s.clients[c]] == s.clients;
      }
  }

  lemma WorkerDecreases(p: Params, s: State, w: nat, v: int)
    requires Shape(p, s) && StatusOk(p, s) && Enabled(p, s, Worker(w, v)) && Shape(p, Dequeue(s, w, v))
    ensures Measure(p, Dequeue(s, w, v)) < Measure(p, s)
  {
    if s.ring.count == 0 {
      WorkerRanksUpdate(s.workers, s.consumers, w, s.workers[w], Asleep);
      assert s.workers[w := s.workers[w]] == s.workers;
    } else {
      WorkerRanksUpdate(s.workers, s.consumers, w, Exited, Running);
      WorkerRanksUpdate(s.workers, s.consumers, w, Looping, Running);
      assert s.workers[w := Looping] == s.workers;
      if Asleep in s.producers {
        WakeProducer(p, s, v);
      }
    }
  }

  lemma MainDecreases(p: Params, s: State, v: int)
    requires Shape(p, s) && StatusOk(p, s) && FlowOk(p, s) && Enabled(p, s, Main(v)) && Shape(p, ApplyMain(p, s, v))
    ensures Measure(p, ApplyMain(p, s, v)) < Measure(p, s)
  {
    match s.main
    case Starting(k) =>
      if k < p.workers {
        WorkerRanksUpdate(s.workers, s.consumers, k, Looping, s.consumers[k]);
        assert s.consumers[k := s.consumers[k]] == s.consumers;
      } else if k < p.workers + p.clients {
        var c := k - p.workers;
        ProducerMoves(p, s, c, Next(0), s.producers[c]);
        assert s.producers[c := s.producers[c]] == s.producers;
      }
    case Sending(k) =>
      if k < p.workers {
        MainMoves(p, s, Asleep);
        MainMoves(p, s, Running);
        if Asleep in s.consumers {
          WakeConsumer(p, s, v);
        }
      }
    case _ =>
  }

  /** Every step but a spurious wakeup lowers the measure; a spurious wakeup adds one. */
  lemma StepDecreases(p: Params, s: State, step: Step)
    requires Inv(p, s) && Enabled(p, s, step) && Shape(p, Apply(p, s, step))
    ensures !Spurious(step) ==> Measure(p, Apply(p, s, step)) < Measure(p, s)
    ensures Spurious(step) ==> Measure(p, Apply(p, s, step)) == Measure(p, s) + 1
  {
    match step
    case Main(v) => MainDecreases(p, s, v);
    case Client(c, v) => ClientDecreases(p, s, c, v);
    case Worker(w, v) => WorkerDecreases(p, s, w, v);
    case SpuriousProducer(t) => WakeProducer(p, s, t);
    case SpuriousConsumer(t) => WakeConsumer(p, s, t);
  }

  lemma {:induction false} RanksNatural(p: Params, pcs: seq<ClientPc>, st: seq<Status>)
    requires |st| >= |pcs|
    requires forall c :: 0 <= c < |pcs| ==> ClientRank(p, pcs[c], st[c]) >= 0
    ensures ClientRanks(p, pcs, st) >= 0
  {
    if pcs != [] {
      RanksNatural(p, pcs[..|pcs| - 1], st);
    }
  }

  lemma {:induction false} WorkerRanksNatural(pcs: seq<WorkerPc>, st: seq<Status>)
    requires |st| >= |pcs|
    ensures WorkerRanks(pcs, st) >= 0
  {
    if pcs != [] {
      WorkerRanksNatural(pcs[..|pcs| - 1], st);
    }
  }

  lemma MeasureNatural(p: Params, s: State)
    requires Shape(p, s) && FlowOk(p, s) && StatusOk(p, s)
    ensures Measure(p, s) >= 0
  {
    RanksNatural(p, s.clients, s.producers);
    WorkerRanksNatural(s.workers, s.consumers);
  }

  ghost function SpuriousIn(steps: seq<Step>): nat {
    if steps == [] then 0
    else SpuriousIn(steps[..|steps| - 1]) + if Spurious(steps[|steps| - 1]) then 1 else 0
  }

  /** How many steps a run can take. */
  function Bound(p: Params): nat {
    p.clients * (8 * p.requests + 3) + 11 * p.workers + 4
  }

  lemma {:induction false} InitRanks(p: Params, n: nat, st: seq<Status>)
    requires |st| >= n && forall i :: 0 <= i < n ==> st[i] == Running
    ensures ClientRanks(p, seq(n, _ => Unborn), st) == n * (8 * p.requests + 1)
    ensures WorkerRanks(seq(n, _ => Unstarted), st) == n
  {
    if n > 0 {
      InitRanks(p, n - 1, st);
      assert seq(n, _ => Unborn)[..n - 1] == seq(n - 1, _ => Unborn);
      assert seq(n, _ => Unstarted)[..n - 1] == seq(n - 1, _ => Unstarted);
      assert n * (8 * p.requests + 1) == (n - 1) * (8 * p.requests + 1) + (8 * p.requests + 1);
    }
  }

  lemma InitMeasure(p: Params)
    requires ValidParams(p)
    ensures Shape(p, Init(p)) && Measure(p, Init(p)) == Bound(p)
  {
    var s := Init(p);
    InitRanks(p, p.clients, s.producers);
    InitRanks(p, p.workers, s.consumers);
    assert p.clients * (8 * p.requests + 3) == p.clients * (8 * p.requests + 1) + 2 * p.clients;
  }

  /** A run with so many spurious wakeups has at most Bound plus twice as many steps. */
  lemma {:induction false} RunsEnd(p: Params, steps: seq<Step>, s: State)
    requires ValidParams(p) && Reaches(p, steps, s)
    ensures Shape(p, s) && |steps| + Measure(p, s) <= Bound(p) + 2 * SpuriousIn(steps)
    ensures |steps| <= Bound(p) + 2 * SpuriousIn(steps)
    decreases |steps|
  {
    ReachesInv(p, steps, s);
    MeasureNatural(p, s);
    if steps == [] {
      InitMeasure(p);
    } else {
      var n := |steps| - 1;
      var before :| Reaches(p, steps[..n], before)
        && Shape(p, before) && Enabled(p, before, steps[n]) && s == Apply(p, before, steps[n]);
      ReachesInv(p, steps[..n], before);
      RunsEnd(p, steps[..n], before);
      StepDecreases(p, before, steps[n]);
    }
  }

  /** Without spurious wakeups, a run that cannot be continued has ended well: all workers
      exited. */
  lemma StuckOnlyAtTheEnd(p: Params, steps: seq<Step>, s: State)
    requires ValidParams(p) && Reaches(p, steps, s) && Shape(p, s)
    requires forall step :: Enabled(p, s, step) ==> Spurious(step)
    ensures s.main.Done? && |s.workers| == p.workers && forall w :: 0 <= w < p.workers ==> s.workers[w].Exited?
  {
    if !s.main.Done? {
      NoDeadlock(p, steps, s);
    } else {
      AtTheEnd(p, steps, s);
    }
  }
}
