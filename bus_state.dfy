/**
 * The bus context (`struct event_bus_ctx`), its subscriber records and the
 * message a publication carries.
 */
module BusState {
  import opened Common

  /** One entry of the subscriber table: `struct event_bus_sub` plus the name
      buffer that event_bus.c writes. */
  datatype Sub = Sub(eventId: u32, arg: Ptr, cb: Ptr, name: seq<char>)

  /** `struct event_bus_msg`. */
  datatype Msg = Msg(eventId: u32, appCtx: Ptr, data: Ptr)

  /** A subscriber slot after `memset(..., 0, sizeof(struct event_bus_sub))`. */
  function ZeroSub(nameMaxLen: nat): Sub
  {
    Sub(0, NULL, NULL, Zeros(nameMaxLen))
  }

  /** Some registered entry carries callback `cb`. */
  predicate Registers(reg: seq<Sub>, cb: Ptr)
  {
    exists j :: 0 <= j < |reg| && reg[j].cb == cb
  }

  /** No callback is registered twice. */
  predicate DistinctCallbacks(reg: seq<Sub>)
  {
    forall i, j :: 0 <= i < j < |reg| ==> reg[i].cb != reg[j].cb
  }

  class Bus {
    /** EVT_SUB_NAME_MAX_LEN: the size of a subscriber's name buffer. */
    const nameMaxLen: nat
    /** The fixed table `subscribers[MAX_NB_SUBSCRIBERS]`. */
    const subscribers: array<Sub>
    var subNb: nat
    var appCtx: Ptr

    /** The table holds at most MAX_NB_SUBSCRIBERS entries with distinct
        callbacks; the slots past `subNb` are still zeroed. */
    ghost predicate Valid()
      reads this, subscribers
    {
      && nameMaxLen > 0
      && subscribers.Length == MAX_NB_SUBSCRIBERS
      && subNb <= MAX_NB_SUBSCRIBERS
      && DistinctCallbacks(subscribers[..subNb])
      && (forall i :: 0 <= i < subNb ==> |subscribers[i].name| == nameMaxLen)
      && (forall i :: subNb <= i < MAX_NB_SUBSCRIBERS ==> subscribers[i] == ZeroSub(nameMaxLen))
    }

    /** The entries registered so far, in subscription order. */
    ghost function Registered(): seq<Sub>
      reads this, subscribers
      requires Valid()
    {
      subscribers[..subNb]
    }

    /** Storage for a bus; its contents mean nothing until event_bus_init runs. */
    constructor (nameMaxLen: nat)
      requires nameMaxLen > 0
      ensures this.nameMaxLen == nameMaxLen
      ensures subscribers.Length == MAX_NB_SUBSCRIBERS && fresh(subscribers)
    {
      this.nameMaxLen := nameMaxLen;
      subscribers := new Sub[MAX_NB_SUBSCRIBERS];
    }
  }
}
