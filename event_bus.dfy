/**
 * The bus operations of src/event_bus.c: initialisation, subscription into the
 * fixed subscriber table, and publication through the worker pool.
 */
module EventBus {
  import opened Common
  import opened BusState
  import opened EventWorker

  /** The bytes the name copy of event_bus_subscribe writes from the start of the
      name buffer, as written: `strncpy` of MAX_LEN-1 characters when the name is
      longer than MAX_LEN, otherwise `strcpy`, which also writes the terminator. */
  function NameCopyAsWritten(name: seq<char>, maxLen: nat): (w: seq<char>)
    requires maxLen > 0 && '\0' !in name
    ensures |w| > maxLen <==> |name| == maxLen
    ensures |name| > maxLen ==> w == name[..maxLen - 1]
    ensures |name| <= maxLen ==> CString(w) == name
  {
    if |name| > maxLen then name[..maxLen - 1]
    else StrCpy(name + ['\0'], name)
  }

  /** A name of exactly MAX_LEN characters makes the copy write one byte past
      the end of the name buffer. */
  lemma NameOverflowAsWritten(maxLen: nat)
    requires maxLen > 0
    ensures exists name :: '\0' !in name && |name| == maxLen && |NameCopyAsWritten(name, maxLen)| == maxLen + 1
  {
    var name := seq(maxLen, _ => 'a');
    assert '\0' !in name;
    assert |NameCopyAsWritten(name, maxLen)| == maxLen + 1;
  }

  /** The name buffer of a new subscriber, with the bound corrected to `>=`:
      zero-filled, then an exact copy of a name shorter than the buffer, or its
      first MAX_LEN-1 characters; always NUL-terminated inside the buffer. */
  function StoreName(name: seq<char>, maxLen: nat): (buf: seq<char>)
    requires maxLen > 0 && '\0' !in name
    ensures |buf| == maxLen && buf[maxLen - 1] == '\0'
    ensures |name| < maxLen ==> CString(buf) == name
    ensures |name| >= maxLen ==> CString(buf) == name[..maxLen - 1]
    ensures forall i :: |CString(buf)| <= i < maxLen ==> buf[i] == '\0'
  {
    var n := if |name| >= maxLen then maxLen - 1 else |name|;
    var buf := name[..n] + Zeros(maxLen - n);
    CStringUnique(buf, name[..n]);
    buf
  }

  /** On every name the as-written copy handles without overflowing, the
      corrected copy leaves the same buffer contents. */
  lemma StoreNameAgreesAsWritten(name: seq<char>, maxLen: nat)
    requires maxLen > 0 && '\0' !in name && |name| != maxLen
    ensures |NameCopyAsWritten(name, maxLen)| <= maxLen
    ensures StoreName(name, maxLen) ==
            NameCopyAsWritten(name, maxLen) + Zeros(maxLen)[|NameCopyAsWritten(name, maxLen)|..]
  {
  }

  datatype SubOutcome = SubOutcome(code: int, registered: seq<Sub>)

  /** event_bus_subscribe on the registered entries: capacity check first, then
      the duplicate check by callback identity, then the append. */
  function SubscribeOn(reg: seq<Sub>, entry: Sub): (o: SubOutcome)
    ensures o.code == EVT_BUS_MEM_ERR <==> |reg| >= MAX_NB_SUBSCRIBERS
    ensures o.code == EVT_BUS_MEM_ERR || o.code == EVT_BUS_ERR_OK
    ensures o.registered == reg || o.registered == reg + [entry]
    ensures o.registered != reg <==> |reg| < MAX_NB_SUBSCRIBERS && !Registers(reg, entry.cb)
    ensures Registers(reg, entry.cb) ==> o.registered == reg
    ensures |reg| <= MAX_NB_SUBSCRIBERS && DistinctCallbacks(reg) ==>
              |o.registered| <= MAX_NB_SUBSCRIBERS && DistinctCallbacks(o.registered)
  {
    if |reg| >= MAX_NB_SUBSCRIBERS then SubOutcome(EVT_BUS_MEM_ERR, reg)
    else if Registers(reg, entry.cb) then SubOutcome(EVT_BUS_ERR_OK, reg)
    else SubOutcome(EVT_BUS_ERR_OK, reg + [entry])
  }

  /** Subscribing a callback a second time, for any event id, argument or name,
      changes nothing and succeeds unless the table is full. */
  lemma SubscribeIdempotent(reg: seq<Sub>, first: Sub, again: Sub)
    requires again.cb == first.cb
    ensures var o := SubscribeOn(reg, first);
            var o' := SubscribeOn(o.registered, again);
            o'.registered == o.registered &&
            (o'.code == EVT_BUS_ERR_OK <==> |o.registered| < MAX_NB_SUBSCRIBERS)
  {
    var o := SubscribeOn(reg, first);
    if o.registered != reg {
      assert o.registered[|reg|].cb == again.cb;
    }
  }

  /** event_bus_init: empty the table, zero every slot, record the application
      context and initialise the worker pool. */
  method Init(bus: Bus, pool: WorkerPool, appCtx: Ptr) returns (r: int)
    requires bus.nameMaxLen > 0 && bus.subscribers.Length == MAX_NB_SUBSCRIBERS
    requires pool.workers.Length == MAX_NB_WORKERS
    modifies bus, bus.subscribers, pool.workers
    ensures bus.Valid() && bus.subNb == 0 && bus.appCtx == appCtx && bus.Registered() == []
    ensures forall i :: 0 <= i < MAX_NB_SUBSCRIBERS ==> bus.subscribers[i] == ZeroSub(bus.nameMaxLen)
    ensures pool.Valid() && forall i :: 0 <= i < MAX_NB_WORKERS ==> IsFree(pool.workers[i])
    ensures forall i :: 0 <= i < MAX_NB_WORKERS ==> pool.workers[i] == ZeroWorker()
    ensures r == EVT_BUS_ERR_OK
  {
    bus.subNb := 0;
    bus.appCtx := appCtx;
    var i := 0;
    while i < MAX_NB_SUBSCRIBERS
      invariant i <= MAX_NB_SUBSCRIBERS
      invariant bus.subNb == 0 && bus.appCtx == appCtx
      invariant forall j :: 0 <= j < i ==> bus.subscribers[j] == ZeroSub(bus.nameMaxLen)
    {
      bus.subscribers[i] := ZeroSub(bus.nameMaxLen);
      i := i + 1;
    }
    var w := pool.Init(bus);
    if w != 0 {
      return EVT_WORKER_ERR;
    }
    return 0;
  }

  /** event_bus_subscribe. */
  method Subscribe(bus: Bus, name: seq<char>, eventId: u32, arg: Ptr, cb: Ptr) returns (r: int)
    requires bus.Valid() && '\0' !in name
    modifies bus`subNb, bus.subscribers
    ensures bus.Valid()
    ensures var o := SubscribeOn(old(bus.Registered()), Sub(eventId, arg, cb, StoreName(name, bus.nameMaxLen)));
            r == o.code && bus.Registered() == o.registered
    ensures old(bus.subNb) >= MAX_NB_SUBSCRIBERS || Registers(old(bus.Registered()), cb) ==>
              bus.subNb == old(bus.subNb) && bus.subscribers[..] == old(bus.subscribers[..])
    ensures old(bus.subNb) < MAX_NB_SUBSCRIBERS && !Registers(old(bus.Registered()), cb) ==>
              bus.subNb == old(bus.subNb) + 1 &&
              bus.subscribers[..] == old(bus.subscribers[..])[old(bus.subNb) := Sub(eventId, arg, cb, StoreName(name, bus.nameMaxLen))]
  {
    if bus.subNb >= MAX_NB_SUBSCRIBERS {
      return EVT_BUS_MEM_ERR;
    }
    var i := 0;
    while i < bus.subNb
      invariant i <= bus.subNb
      invariant forall j :: 0 <= j < i ==> bus.subscribers[j].cb != cb
    {
      if cb == bus.subscribers[i].cb {
        assert bus.Registered()[i].cb == cb;
        return 0;
      }
      i := i + 1;
    }
    assert !Registers(bus.Registered(), cb);
    ghost var before := bus.subscribers[..];
    var n := bus.subNb;
    bus.subscribers[n] := Sub(eventId, arg, cb, StoreName(name, bus.nameMaxLen));
    bus.subNb := bus.subNb + 1;
    assert bus.Registered() == before[..n] + [bus.subscribers[n]];
    return EVT_BUS_ERR_OK;
  }

  /** event_bus_publish: pack the event id, the bus's application context and
      the data into a message and hand it to the worker pool. The result is
      always 0, whether or not a worker took the message. */
  method Publish(bus: Bus, pool: WorkerPool, eventId: u32, data: Ptr, created: Option<nat>) returns (r: int)
    requires pool.Valid()
    modifies pool.workers
    ensures pool.Valid()
    ensures pool.workers[..] == StartOn(old(pool.workers[..]), bus, Msg(eventId, bus.appCtx, data), created).workers
    ensures r == EVT_BUS_ERR_OK
  {
    var msg := Msg(eventId, bus.appCtx, data);
    var started := pool.Start(bus, msg, false, created);
    return 0;
  }
}
