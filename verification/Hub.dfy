/** The `Hub` of server.go: one-slot channels and a broadcast that never blocks. */
module Hubs {
  /** `chan struct{}` with capacity one. */
  class Channel {
    var full: bool

    constructor ()
      ensures !full
    {
      full := false;
    }

    /** `select { case ch <- struct{}{}: default: }` */
    method TrySend()
      modifies this
      ensures full
    {
      if !full {
        full := true;
      }
    }

    /** `<-ch`, if there is something to receive. */
    method TryReceive() returns (received: bool)
      modifies this
      ensures received == old(full) && !full
    {
      received := full;
      full := false;
    }
  }

  class Hub {
    var subs: set<Channel>

    constructor ()
      ensures subs == {}
    {
      subs := {};
    }

    /** Fills the slot of every subscriber, whatever the order; a full slot stays full. */
    method Notify()
      modifies subs
      ensures forall ch :: ch in subs ==> ch.full
    {
      var rest := subs;
      while rest != {}
        invariant rest <= subs
        invariant forall ch :: ch in subs - rest ==> ch.full
      {
        var ch :| ch in rest;
        ch.TrySend();
        rest := rest - {ch};
      }
    }

    method Subscribe() returns (ch: Channel)
      modifies this
      ensures fresh(ch) && !ch.full && subs == old(subs) + {ch}
    {
      ch := new Channel();
      subs := subs + {ch};
    }

    method Unsubscribe(ch: Channel)
      modifies this
      ensures subs == old(subs) - {ch}
    {
      subs := subs - {ch};
    }
  }

  /** One run of `serveEventSource`: the first event goes out before the subscription, every later one
      empties the slot. */
  class EventStream {
    const hub: Hub
    var ch: Channel?
    var events: nat

    constructor (h: Hub)
      ensures hub == h && ch == null && events == 1
    {
      hub, ch, events := h, null, 1;
    }

    method Start()
      requires ch == null
      modifies this`ch, hub
      ensures ch != null && fresh(ch) && !ch.full && hub.subs == old(hub.subs) + {ch}
    {
      ch := hub.Subscribe();
    }

    /** However many notifications came, one event tells of them. */
    method Wake()
      requires ch != null
      modifies this`events, ch
      ensures events == old(events) + (if old(ch.full) then 1 else 0) && !ch.full
    {
      var received := ch.TryReceive();
      if received {
        events := events + 1;
      }
    }

    method Close()
      requires ch != null
      modifies hub
      ensures hub.subs == old(hub.subs) - {ch}
    {
      hub.Unsubscribe(ch);
    }
  }
}
