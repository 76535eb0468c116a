/** Inbound delivery as a state machine: recipients, DATA, the bounded queue and its draining, interleaved in any order
    with each other and with changes of the registry. One step of a DATA handles one recipient; draining, which every
    JMAP request does without a lock, takes an item, finds its store and puts it there in three steps. Anything can
    happen between two steps. */
module Delivery {
  import opened Text

  /** Capacity of bufCh. */
  const CAPACITY := 256

  /** The message that DATA number data offers for an account. */
  datatype Item = Item(data: nat, account: string)

  datatype Offer = Offer(item: Item, kept: bool)

  /** An item a drainer has taken from the queue, by its number among all items taken, and its store once that is found.
      A store is the object the handler's map pointed at. */
  datatype Held = Held(serial: nat, item: Item, store: Option<nat>)

  /** A handled item: put into a store, or dropped because its account had none. */
  datatype Drained = Drained(serial: nat, item: Item, store: Option<nat>)

  /** An SMTP session: its accepted recipients and, while DATA runs, the DATA's number and how many recipients it has
      handled. */
  datatype Session = Session(to: seq<string>, data: Option<nat>, handled: nat)

  /** aliases, stores, contents and queue are the program's; holds has the item of each drainer at work, in the order
      they were taken; the rest is history. resolved holds, for each DATA, what its recipients resolved to, in order. */
  datatype System = System(aliases: map<string, string>, stores: map<string, nat>, contents: seq<seq<Item>>,
                           queue: seq<Item>, holds: seq<Held>, sessions: map<nat, Session>, offers: seq<Offer>,
                           drained: seq<Drained>, resolved: seq<seq<string>>)

  datatype Step =
    | Rcpt(session: nat, to: string)
    | Reset(session: nat)
    | StartData(session: nat)
    | DeliverNext(session: nat)
    | EndData(session: nat)
    | Take
    | Find(drainer: nat)
    | Put(drainer: nat)
    | Accounts(aliases: map<string, string>, removed: set<string>)
    | NewStore(account: string)

  /** s.h.aliases[rcpt]: the empty string when the alias is gone. */
  function Resolve(aliases: map<string, string>, rcpt: string): string {
    if rcpt in aliases then aliases[rcpt] else ""
  }

  function SessionOf(s: System, id: nat): Session {
    if id in s.sessions then s.sessions[id] else Session([], None, 0)
  }

  function WithSession(s: System, id: nat, x: Session): System {
    s.(sessions := s.sessions[id := x])
  }

  /** bufferEmail */
  function Offered(s: System, item: Item): System {
    if |s.queue| < CAPACITY then s.(queue := s.queue + [item], offers := s.offers + [Offer(item, true)])
    else s.(offers := s.offers + [Offer(item, false)])
  }

  /** One turn of the recipient loop in Data. */
  function Handled(s: System, id: nat, n: nat): System
    requires n < |s.resolved| && SessionOf(s, id).handled < |SessionOf(s, id).to|
  {
    var x := SessionOf(s, id);
    var primary := Resolve(s.aliases, x.to[x.handled]);
    var t := if primary in s.resolved[n] then s else Offered(s, Item(n, primary));
    t.(sessions := t.sessions[id := x.(handled := x.handled + 1)], resolved := t.resolved[n := t.resolved[n] + [primary]])
  }

  /** The receive of drainBuffer. */
  function Taken(s: System): System
    requires s.queue != []
  {
    s.(queue := s.queue[1..], holds := s.holds + [Held(|s.drained| + |s.holds|, s.queue[0], None)])
  }

  function Without(holds: seq<Held>, i: nat): seq<Held>
    requires i < |holds|
  {
    holds[..i] + holds[i + 1..]
  }

  /** The i-th drainer is done with its item. */
  function Done(s: System, i: nat): System
    requires i < |s.holds|
  {
    var h := s.holds[i];
    s.(holds := Without(s.holds, i), drained := s.drained + [Drained(h.serial, h.item, h.store)])
  }

  /** The lookup of h.stores: without a store the item is dropped. */
  function Looked(s: System, i: nat): System
    requires i < |s.holds|
  {
    var h := s.holds[i];
    if h.item.account in s.stores
    then s.(holds := s.holds[i := h.(store := Some(s.stores[h.item.account]))])
    else Done(s, i)
  }

  /** store.Put, on the store found. */
  function PutIn(s: System, i: nat, store: nat): System
    requires i < |s.holds| && store < |s.contents|
  {
    Done(s, i).(contents := s.contents[store := s.contents[store] + [s.holds[i].item]])
  }

  function Next(s: System, step: Step): System {
    match step
    case Rcpt(id, to) =>
      var x := SessionOf(s, id);
      if x.data.None? && Lower(to) in s.aliases then WithSession(s, id, x.(to := x.to + [Lower(to)])) else s
    case Reset(id) => if SessionOf(s, id).data.None? then WithSession(s, id, Session([], None, 0)) else s
    case StartData(id) =>
      var x := SessionOf(s, id);
      if x.data.None? && x.to != []
      then WithSession(s, id, Session(x.to, Some(|s.resolved|), 0)).(resolved := s.resolved + [[]]) else s
    case DeliverNext(id) =>
      var x := SessionOf(s, id);
      if x.data.Some? && x.data.value < |s.resolved| && x.handled < |x.to| then Handled(s, id, x.data.value) else s
    case EndData(id) =>
      var x := SessionOf(s, id);
      if x.handled == |x.to| then WithSession(s, id, x.(data := None)) else s
    case Take => if s.queue == [] then s else Taken(s)
    case Find(i) => if i < |s.holds| && s.holds[i].store.None? then Looked(s, i) else s
    case Put(i) =>
      if i < |s.holds| && s.holds[i].store.Some? && s.holds[i].store.value < |s.contents|
      then PutIn(s, i, s.holds[i].store.value) else s
    case Accounts(aliases, removed) => s.(aliases := aliases, stores := s.stores - removed)
    case NewStore(account) => s.(stores := s.stores[account := |s.contents|], contents := s.contents + [[]])
  }

  function Run(s: System, steps: seq<Step>): System
    decreases |steps|
  {
    if steps == [] then s else Run(Next(s, steps[0]), steps[1..])
  }

  /** Nothing queued or held, no session, empty stores. */
  predicate Fresh(s: System) {
    s.queue == [] && s.holds == [] && s.sessions == map[] && s.offers == [] && s.drained == [] && s.resolved == [] &&
    (forall o | 0 <= o < |s.contents| :: s.contents[o] == []) && forall a | a in s.stores :: s.stores[a] < |s.contents|
  }

  // ----- reading the history -------------------------------------------------

  function Kept(offers: seq<Offer>): seq<Item> {
    if offers == [] then []
    else Kept(offers[..|offers| - 1]) + (if offers[|offers| - 1].kept then [offers[|offers| - 1].item] else [])
  }

  function Dropped(offers: seq<Offer>): seq<Item> {
    if offers == [] then []
    else Dropped(offers[..|offers| - 1]) + (if offers[|offers| - 1].kept then [] else [offers[|offers| - 1].item])
  }

  function Items(offers: seq<Offer>): seq<Item> {
    if offers == [] then [] else Items(offers[..|offers| - 1]) + [offers[|offers| - 1].item]
  }

  function Out(drained: seq<Drained>): (r: seq<Item>)
    ensures |r| == |drained|
  {
    if drained == [] then [] else Out(drained[..|drained| - 1]) + [drained[|drained| - 1].item]
  }

  function HeldItems(holds: seq<Held>): seq<Item> {
    seq(|holds|, i requires 0 <= i < |holds| => holds[i].item)
  }

  function Placed(drained: seq<Drained>): seq<Item> {
    if drained == [] then []
    else Placed(drained[..|drained| - 1]) + (if drained[|drained| - 1].store.Some? then [drained[|drained| - 1].item] else [])
  }

  function Orphaned(drained: seq<Drained>): seq<Item> {
    if drained == [] then []
    else Orphaned(drained[..|drained| - 1]) + (if drained[|drained| - 1].store.Some? then [] else [drained[|drained| - 1].item])
  }

  /** What was put into one store, in order. */
  function PutInto(drained: seq<Drained>, o: nat): seq<Item> {
    if drained == [] then []
    else PutInto(drained[..|drained| - 1], o)
         + (if drained[|drained| - 1].store == Some(o) then [drained[|drained| - 1].item] else [])
  }

  /** The accounts one DATA offered a message for, in order. */
  function OfferedBy(items: seq<Item>, data: nat): seq<string> {
    if items == [] then []
    else OfferedBy(items[..|items| - 1], data)
         + (if items[|items| - 1].data == data then [items[|items| - 1].account] else [])
  }

  /** Each value once, at its first occurrence. */
  function Dedup(xs: seq<string>): seq<string> {
    if xs == [] then []
    else
      var front, last := xs[..|xs| - 1], xs[|xs| - 1];
      Dedup(front) + (if last in front then [] else [last])
  }
}
