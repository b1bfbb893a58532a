/**
 * The worker slot pool of src/event_bus_worker.c: a fixed array of
 * MAX_NB_WORKERS slots, a slot being free while its thread handle is NULL.
 */
module EventWorker {
  import opened Common
  import opened BusState

  /** A FreeRTOS task handle: NULL, or the task that `xTaskCreate` created. */
  datatype Handle = Null | Task(id: nat)

  /** `struct event_bus_worker`: the thread name buffer, the bus it delivers for,
      its own copy of the message, and the thread handle. */
  datatype Worker = Worker(name: seq<char>, bus: Bus?, msg: Msg, threadHdl: Handle)

  /** A slot after `memset(&workers[i], 0, sizeof(struct event_bus_worker))`. */
  function ZeroWorker(): Worker
  {
    Worker(Zeros(EVT_WORKER_MAX_NAME_LEN), null, Msg(0, NULL, NULL), Null)
  }

  predicate IsFree(w: Worker)
  {
    w.threadHdl == Null
  }

  /** The lowest-index free slot, if any. */
  function FirstFree(ws: seq<Worker>): (r: Option<nat>)
    ensures r.Some? ==> r.value < |ws| && IsFree(ws[r.value])
    ensures r.Some? ==> forall j :: 0 <= j < r.value ==> !IsFree(ws[j])
    ensures r.None? <==> forall j :: 0 <= j < |ws| ==> !IsFree(ws[j])
  {
    if ws == [] then None
    else if IsFree(ws[0]) then Some(0)
    else
      match FirstFree(ws[1..])
      case None => assert forall j :: 1 <= j < |ws| ==> ws[j] == ws[1..][j - 1]; None
      case Some(k) => assert forall j :: 1 <= j < k + 1 ==> ws[j] == ws[1..][j - 1]; Some(k + 1)
  }

  /** The text `sprintf(name, "worker_%d_th", k)` produces, for a one-digit `k`. */
  function WorkerName(k: nat): (s: seq<char>)
    requires k < 10
    ensures |s| == 11 && '\0' !in s
  {
    "worker_" + [(48 + k) as char] + "_th"
  }

  /** A slot after the worker thread has finished: handle cleared, name zeroed. */
  function Released(w: Worker): (r: Worker)
    ensures IsFree(r) && r.name == Zeros(EVT_WORKER_MAX_NAME_LEN) && CString(r.name) == []
    ensures r.bus == w.bus && r.msg == w.msg
  {
    w.(threadHdl := Null, name := Zeros(EVT_WORKER_MAX_NAME_LEN))
  }

  /** Every slot's name buffer has its declared size. */
  predicate NamesSized(ws: seq<Worker>)
  {
    forall i :: 0 <= i < |ws| ==> |ws[i].name| == EVT_WORKER_MAX_NAME_LEN
  }

  datatype StartOutcome = StartOutcome(code: int, workers: seq<Worker>)

  /** What event_worker_start does to the slots, given whether xTaskCreate
      succeeded (`Some(task)`) or failed (`None`). */
  function StartOn(ws: seq<Worker>, bus: Bus, msg: Msg, created: Option<nat>): (o: StartOutcome)
    requires |ws| <= 10 && NamesSized(ws)
    ensures |o.workers| == |ws| && NamesSized(o.workers)
    ensures FirstFree(ws).None? ==> o.code == 0 && o.workers == ws
    ensures FirstFree(ws).Some? ==>
      var k := FirstFree(ws).value;
      && (forall j :: 0 <= j < |ws| && j != k ==> o.workers[j] == ws[j])
      && o.workers[k].bus == bus
      && o.workers[k].msg == msg
      && CString(o.workers[k].name) == WorkerName(k)
      && (o.code == -1 <==> created.None?)
      && (o.code == 0 <==> created.Some?)
      && (IsFree(o.workers[k]) <==> created.None?)
  {
    match FirstFree(ws)
    case None => StartOutcome(0, ws)
    case Some(k) =>
      var claimed := ws[k].(bus := bus, name := StrCpy(ws[k].name, WorkerName(k)), msg := msg);
      match created
      case None => StartOutcome(-1, ws[k := claimed])
      case Some(t) => StartOutcome(0, ws[k := claimed.(threadHdl := Task(t))])
  }

  /** The subscriber slots whose event id is `eventId`, in ascending order:
      the callbacks the worker thread invokes. */
  function MatchingSlots(subs: seq<Sub>, eventId: u32): (r: seq<nat>)
    ensures forall k :: 0 <= k < |r| ==> r[k] < |subs| && subs[r[k]].eventId == eventId
    ensures forall i :: 0 <= i < |subs| && subs[i].eventId == eventId ==> i in r
    ensures forall k1, k2 :: 0 <= k1 < k2 < |r| ==> r[k1] < r[k2]
  {
    if subs == [] then []
    else
      var n := |subs| - 1;
      var front := MatchingSlots(subs[..n], eventId);
      assert forall i :: 0 <= i < n ==> subs[..n][i] == subs[i];
      front + (if subs[n].eventId == eventId then [n] else [])
  }

  /** Slots past `subNb` that are still zeroed never match a non-zero event id,
      so scanning the whole table or only the registered prefix gives the same calls. */
  lemma {:induction false} MatchingIgnoresEmptySlots(subs: seq<Sub>, subNb: nat, nameMaxLen: nat, eventId: u32)
    requires subNb <= |subs|
    requires forall i :: subNb <= i < |subs| ==> subs[i] == ZeroSub(nameMaxLen)
    requires eventId != 0
    ensures MatchingSlots(subs, eventId) == MatchingSlots(subs[..subNb], eventId)
  {
    if |subs| > subNb {
      var n := |subs| - 1;
      assert subs[..n][..subNb] == subs[..subNb];
      MatchingIgnoresEmptySlots(subs[..n], subNb, nameMaxLen, eventId);
    } else {
      assert subs[..subNb] == subs;
    }
  }

  /** Publishing event id 0 reaches the first never-registered slot, whose
      callback pointer is NULL. */
  lemma ZeroEventReachesEmptySlot(subs: seq<Sub>, subNb: nat, nameMaxLen: nat)
    requires subNb < |subs|
    requires forall i :: subNb <= i < |subs| ==> subs[i] == ZeroSub(nameMaxLen)
    ensures subNb in MatchingSlots(subs, 0) && subs[subNb].cb == NULL
  {
  }

  /** The static `workers[]` array. */
  class WorkerPool {
    const workers: array<Worker>

    ghost predicate Valid()
      reads this, workers
    {
      workers.Length == MAX_NB_WORKERS && NamesSized(workers[..])
    }

    /** Static storage starts zeroed. */
    constructor ()
      ensures Valid() && fresh(workers)
      ensures forall i :: 0 <= i < MAX_NB_WORKERS ==> workers[i] == ZeroWorker()
    {
      workers := new Worker[MAX_NB_WORKERS](_ => ZeroWorker());
    }

    /** event_worker_init: zero every slot, so all are free; always succeeds. */
    method Init(bus: Bus) returns (r: int)
      requires workers.Length == MAX_NB_WORKERS
      modifies workers
      ensures Valid() && r == 0
      ensures forall i :: 0 <= i < MAX_NB_WORKERS ==> workers[i] == ZeroWorker()
      ensures FirstFree(workers[..]) == Some(0)
    {
      var i := 0;
      while i < MAX_NB_WORKERS
        invariant i <= MAX_NB_WORKERS
        invariant forall j :: 0 <= j < i ==> workers[j] == ZeroWorker()
      {
        workers[i] := ZeroWorker();
        i := i + 1;
      }
      return 0;
    }

    /** event_worker_start: claim the lowest free slot, copy the bus and the
        message in and start its thread; with no free slot, drop the delivery. */
    method Start(bus: Bus, msg: Msg, wait: bool, created: Option<nat>) returns (r: int)
      requires Valid()
      modifies workers
      ensures Valid()
      ensures r == StartOn(old(workers[..]), bus, msg, created).code
      ensures workers[..] == StartOn(old(workers[..]), bus, msg, created).workers
    {
      var i := 0;
      while i < MAX_NB_WORKERS
        invariant i <= MAX_NB_WORKERS
        invariant forall j :: 0 <= j < i ==> !IsFree(workers[j])
        invariant workers[..] == old(workers[..])
      {
        if workers[i].threadHdl == Null {
          assert FirstFree(old(workers[..])) == Some(i);
          workers[i] := workers[i].(bus := bus);
          workers[i] := workers[i].(name := StrCpy(workers[i].name, WorkerName(i)));
          workers[i] := workers[i].(msg := msg);
          if created.None? {
            return -1;
          }
          workers[i] := workers[i].(threadHdl := Task(created.value));
          return 0;
        }
        i := i + 1;
      }
      return 0;
    }

    /** event_worker_thread for slot `k`: call, in slot order, every entry of the
        bus's whole table whose event id matches, then release the slot.
        `invoked` records the slot index of each call. */
    method Run(k: nat) returns (invoked: seq<nat>)
      requires Valid() && k < MAX_NB_WORKERS
      requires workers[k].bus != null && workers[k].bus.subscribers.Length == MAX_NB_SUBSCRIBERS
      modifies workers
      ensures Valid()
      ensures invoked == MatchingSlots(old(workers[k].bus.subscribers[..]), old(workers[k].msg.eventId))
      ensures workers[..] == old(workers[..])[k := Released(old(workers[k]))]
    {
      var bus := workers[k].bus;
      var msg := workers[k].msg;
      invoked := [];
      var i := 0;
      while i < MAX_NB_SUBSCRIBERS
        invariant i <= MAX_NB_SUBSCRIBERS
        invariant invoked == MatchingSlots(bus.subscribers[..i], msg.eventId)
      {
        assert bus.subscribers[..i + 1][..i] == bus.subscribers[..i];
        if bus.subscribers[i].eventId == msg.eventId {
          invoked := invoked + [i];
        }
        i := i + 1;
      }
      assert bus.subscribers[..MAX_NB_SUBSCRIBERS] == bus.subscribers[..];
      workers[k] := workers[k].(threadHdl := Null);
      workers[k] := workers[k].(name := Zeros(EVT_WORKER_MAX_NAME_LEN));
    }

    /** The worker thread as evidently intended: only the `subNb` registered
        entries are scanned, so no empty slot is ever called. */
    method RunRegistered(k: nat) returns (invoked: seq<nat>)
      requires Valid() && k < MAX_NB_WORKERS
      requires workers[k].bus != null && workers[k].bus.Valid()
      modifies workers
      ensures Valid()
      ensures invoked == MatchingSlots(old(workers[k].bus.Registered()), old(workers[k].msg.eventId))
      ensures forall j :: 0 <= j < |invoked| ==> invoked[j] < old(workers[k].bus.subNb)
      ensures workers[..] == old(workers[..])[k := Released(old(workers[k]))]
    {
      var bus := workers[k].bus;
      var msg := workers[k].msg;
      invoked := [];
      var i := 0;
      while i < bus.subNb
        invariant i <= bus.subNb
        invariant invoked == MatchingSlots(bus.subscribers[..i], msg.eventId)
      {
        assert bus.subscribers[..i + 1][..i] == bus.subscribers[..i];
        if bus.subscribers[i].eventId == msg.eventId {
          invoked := invoked + [i];
        }
        i := i + 1;
      }
      workers[k] := workers[k].(threadHdl := Null);
      workers[k] := workers[k].(name := Zeros(EVT_WORKER_MAX_NAME_LEN));
    }
  }

  /** A slot released by the worker thread is free again, so the next start
      claims it or a lower one. */
  lemma ReleaseMakesSlotAvailable(ws: seq<Worker>, k: nat)
    requires k < |ws|
    ensures FirstFree(ws[k := Released(ws[k])]).Some?
    ensures FirstFree(ws[k := Released(ws[k])]).value <= k
  {
    var ws' := ws[k := Released(ws[k])];
    assert IsFree(ws'[k]);
  }
}
