/** Conservation and order of inbound delivery, over every interleaving. */
module DeliveryProof {
  import opened Text
  import opened Delivery

  /** Of what was kept, some is out, some is held, and the rest is queued, in order; and the queue is bounded. */
  ghost predicate QueueInv(queue: seq<Item>, held: seq<Item>, kept: seq<Item>, out: seq<Item>) {
    |queue| <= CAPACITY && multiset(kept) == multiset(out) + multiset(held) + multiset(queue) &&
    |out| + |held| <= |kept| && kept[|out| + |held|..] == queue
  }

  /** A serial is the place of the item among those kept; the drainers' items are in that order. */
  ghost predicate SerialInv(holds: seq<Held>, drained: seq<Drained>, kept: seq<Item>) {
    (forall i | 0 <= i < |holds| :: Numbered(holds[i].serial, holds[i].item, kept, |drained| + |holds|)) &&
    (forall i | 0 <= i < |drained| :: Numbered(drained[i].serial, drained[i].item, kept, |drained| + |holds|)) &&
    (forall i, j | 0 <= i < j < |holds| :: holds[i].serial < holds[j].serial)
  }

  predicate Numbered(serial: nat, item: Item, kept: seq<Item>, taken: nat) {
    serial < taken && serial < |kept| && kept[serial] == item
  }

  /** A store holds what was put into it, in order. */
  ghost predicate StoreInv(stores: map<string, nat>, contents: seq<seq<Item>>, holds: seq<Held>, drained: seq<Drained>) {
    (forall o | 0 <= o < |contents| :: contents[o] == PutInto(drained, o)) &&
    (forall o | o >= |contents| :: PutInto(drained, o) == []) &&
    (forall a | a in stores :: stores[a] < |contents|) &&
    (forall i | 0 <= i < |holds| && holds[i].store.Some? :: holds[i].store.value < |contents|)
  }

  /** Each DATA has offered one item per distinct primary its recipients resolved to, in first-occurrence order. */
  ghost predicate DataInv(offers: seq<Offer>, resolved: seq<seq<string>>) {
    (forall i | 0 <= i < |offers| :: offers[i].item.data < |resolved|) &&
    (forall n | 0 <= n < |resolved| :: OfferedBy(Items(offers), n) == Dedup(resolved[n]))
  }

  ghost predicate SessionInv(sessions: map<nat, Session>, n: nat) {
    forall id | id in sessions && sessions[id].data.Some? :: sessions[id].data.value < n
  }

  ghost predicate Inv(s: System) {
    QueueInv(s.queue, HeldItems(s.holds), Kept(s.offers), Out(s.drained)) &&
    SerialInv(s.holds, s.drained, Kept(s.offers)) &&
    StoreInv(s.stores, s.contents, s.holds, s.drained) && DataInv(s.offers, s.resolved) &&
    SessionInv(s.sessions, |s.resolved|)
  }

  lemma FreshInv(s: System)
    requires Fresh(s)
    ensures Inv(s)
  {
    assert Kept(s.offers) == [] && Out(s.drained) == [] && Items(s.offers) == [] && HeldItems(s.holds) == [];
    forall o: nat ensures PutInto(s.drained, o) == [] {}
    hide Kept, Out, Items, PutInto;
  }

  lemma OfferSnoc(offers: seq<Offer>, o: Offer)
    ensures Kept(offers + [o]) == Kept(offers) + (if o.kept then [o.item] else [])
    ensures Dropped(offers + [o]) == Dropped(offers) + (if o.kept then [] else [o.item])
    ensures Items(offers + [o]) == Items(offers) + [o.item]
  {
  }

  lemma DrainSnoc(drained: seq<Drained>, d: Drained)
    ensures Out(drained + [d]) == Out(drained) + [d.item]
    ensures Placed(drained + [d]) == Placed(drained) + (if d.store.Some? then [d.item] else [])
    ensures Orphaned(drained + [d]) == Orphaned(drained) + (if d.store.Some? then [] else [d.item])
  {
  }

  lemma PutSnoc(drained: seq<Drained>, d: Drained, o: nat)
    ensures PutInto(drained + [d], o) == PutInto(drained, o) + (if d.store == Some(o) then [d.item] else [])
  {
  }

  lemma OfferedBySnoc(items: seq<Item>, i: Item, n: nat)
    ensures OfferedBy(items + [i], n) == OfferedBy(items, n) + (if i.data == n then [i.account] else [])
  {
  }

  lemma DedupSnoc(xs: seq<string>, x: string)
    ensures Dedup(xs + [x]) == Dedup(xs) + (if x in xs then [] else [x])
  {
  }

  lemma {:induction false} NoneOffered(offers: seq<Offer>, n: nat)
    requires forall i | 0 <= i < |offers| :: offers[i].item.data < n
    ensures OfferedBy(Items(offers), n) == []
  {
    if offers != [] {
      var front, last := offers[..|offers| - 1], offers[|offers| - 1];
      NoneOffered(front, n);
      assert offers == front + [last];
      OfferSnoc(front, last);
      OfferedBySnoc(Items(front), last.item, n);
    }
  }

  lemma StartKeepsData(offers: seq<Offer>, resolved: seq<seq<string>>)
    requires DataInv(offers, resolved)
    ensures DataInv(offers, resolved + [[]])
  {
    NoneOffered(offers, |resolved|);
  }

  lemma SkipKeepsData(offers: seq<Offer>, resolved: seq<seq<string>>, n: nat, primary: string)
    requires DataInv(offers, resolved) && n < |resolved| && primary in resolved[n]
    ensures DataInv(offers, resolved[n := resolved[n] + [primary]])
  {
  }

  lemma OfferKeepsData(offers: seq<Offer>, resolved: seq<seq<string>>, n: nat, primary: string, kept: bool)
    requires DataInv(offers, resolved) && n < |resolved| && primary !in resolved[n]
    ensures DataInv(offers + [Offer(Item(n, primary), kept)], resolved[n := resolved[n] + [primary]])
  {
  }

  // ----- offering ------------------------------------------------------------

  lemma KeptGrows(queue: seq<Item>, holds: seq<Held>, drained: seq<Drained>, kept: seq<Item>, out: seq<Item>, item: Item)
    requires QueueInv(queue, HeldItems(holds), kept, out) && SerialInv(holds, drained, kept) && |queue| < CAPACITY
    ensures QueueInv(queue + [item], HeldItems(holds), kept + [item], out) && SerialInv(holds, drained, kept + [item])
  {
    var n := |out| + |holds|;
    assert (kept + [item])[n..] == kept[n..] + [item];
  }

  lemma OfferInv(s: System, item: Item)
    requires QueueInv(s.queue, HeldItems(s.holds), Kept(s.offers), Out(s.drained))
    requires SerialInv(s.holds, s.drained, Kept(s.offers))
    ensures var t := Offered(s, item);
            QueueInv(t.queue, HeldItems(t.holds), Kept(t.offers), Out(t.drained)) &&
            SerialInv(t.holds, t.drained, Kept(t.offers))
  {
    hide Kept, Out, QueueInv, SerialInv, HeldItems;
    OfferSnoc(s.offers, Offer(item, |s.queue| < CAPACITY));
    if |s.queue| < CAPACITY {
      KeptGrows(s.queue, s.holds, s.drained, Kept(s.offers), Out(s.drained), item);
    } else {
      assert Kept(s.offers) + [] == Kept(s.offers);
    }
  }

  lemma HandledInv(s: System, id: nat, n: nat)
    requires Inv(s) && n < |s.resolved| && SessionOf(s, id).handled < |SessionOf(s, id).to|
    requires SessionOf(s, id).data == Some(n)
    ensures Inv(Handled(s, id, n))
  {
    hide Kept, Out, QueueInv, SerialInv, StoreInv, DataInv, Resolve;
    var x := SessionOf(s, id);
    var primary := Resolve(s.aliases, x.to[x.handled]);
    if primary in s.resolved[n] {
      SkipKeepsData(s.offers, s.resolved, n, primary);
    } else {
      OfferKeepsData(s.offers, s.resolved, n, primary, |s.queue| < CAPACITY);
      OfferInv(s, Item(n, primary));
    }
  }

  // ----- draining ------------------------------------------------------------

  lemma TakenQueue(queue: seq<Item>, held: seq<Item>, kept: seq<Item>, out: seq<Item>)
    requires QueueInv(queue, held, kept, out) && queue != []
    ensures QueueInv(queue[1..], held + [queue[0]], kept, out) && kept[|out| + |held|] == queue[0]
  {
    var n := |out| + |held|;
    assert queue == [queue[0]] + queue[1..];
    assert kept[n..][0] == kept[n] && kept[n..][1..] == kept[n + 1..];
  }

  lemma TakenSerials(holds: seq<Held>, drained: seq<Drained>, kept: seq<Item>, item: Item)
    requires SerialInv(holds, drained, kept)
    requires var n := |drained| + |holds|; n < |kept| && kept[n] == item
    ensures SerialInv(holds + [Held(|drained| + |holds|, item, None)], drained, kept)
  {
  }

  lemma TakenInv(s: System)
    requires Inv(s) && s.queue != []
    ensures Inv(Taken(s))
  {
    hide Kept, Out, QueueInv, SerialInv, PutInto, DataInv, SessionInv;
    var item := s.queue[0];
    TakenLength(s);
    TakenQueue(s.queue, HeldItems(s.holds), Kept(s.offers), Out(s.drained));
    TakenSerials(s.holds, s.drained, Kept(s.offers), item);
    assert HeldItems(Taken(s).holds) == HeldItems(s.holds) + [item];
  }

  lemma TakenLength(s: System)
    requires Inv(s) && s.queue != []
    ensures |s.drained| + |s.holds| < |Kept(s.offers)|
  {
    hide Kept, Out, SerialInv, StoreInv, DataInv, SessionInv;
  }

  lemma WithoutItems(holds: seq<Held>, i: nat)
    requires i < |holds|
    ensures multiset(HeldItems(holds)) == multiset(HeldItems(Without(holds, i))) + multiset{holds[i].item}
  {
    var items := HeldItems(holds);
    assert items == items[..i] + [items[i]] + items[i + 1..];
    assert HeldItems(Without(holds, i)) == items[..i] + items[i + 1..];
  }

  lemma DoneQueue(queue: seq<Item>, holds: seq<Held>, kept: seq<Item>, out: seq<Item>, i: nat)
    requires QueueInv(queue, HeldItems(holds), kept, out) && i < |holds|
    ensures QueueInv(queue, HeldItems(Without(holds, i)), kept, out + [holds[i].item])
  {
    WithoutItems(holds, i);
  }

  lemma DoneSerials(holds: seq<Held>, drained: seq<Drained>, kept: seq<Item>, i: nat)
    requires SerialInv(holds, drained, kept) && i < |holds|
    ensures SerialInv(Without(holds, i), drained + [Drained(holds[i].serial, holds[i].item, holds[i].store)], kept)
  {
  }

  lemma DoneKeeps(s: System, i: nat)
    requires QueueInv(s.queue, HeldItems(s.holds), Kept(s.offers), Out(s.drained))
    requires SerialInv(s.holds, s.drained, Kept(s.offers)) && i < |s.holds|
    ensures var t := Done(s, i);
            QueueInv(t.queue, HeldItems(t.holds), Kept(t.offers), Out(t.drained)) &&
            SerialInv(t.holds, t.drained, Kept(t.offers))
  {
    hide Kept, Out, QueueInv, SerialInv, HeldItems, Without;
    var h := s.holds[i];
    DrainSnoc(s.drained, Drained(h.serial, h.item, h.store));
    DoneQueue(s.queue, s.holds, Kept(s.offers), Out(s.drained), i);
    DoneSerials(s.holds, s.drained, Kept(s.offers), i);
  }

  lemma FoundSerials(holds: seq<Held>, drained: seq<Drained>, kept: seq<Item>, i: nat, o: nat)
    requires SerialInv(holds, drained, kept) && i < |holds|
    ensures SerialInv(holds[i := holds[i].(store := Some(o))], drained, kept)
    ensures HeldItems(holds[i := holds[i].(store := Some(o))]) == HeldItems(holds)
  {
  }

  lemma LookedInv(s: System, i: nat)
    requires Inv(s) && i < |s.holds| && s.holds[i].store.None?
    ensures Inv(Looked(s, i))
  {
    hide Kept, Out, QueueInv, SerialInv, PutInto, DataInv, SessionInv;
    var h := s.holds[i];
    if h.item.account in s.stores {
      FoundSerials(s.holds, s.drained, Kept(s.offers), i, s.stores[h.item.account]);
    } else {
      DoneKeeps(s, i);
      DoneStores(s, i, s.contents);
    }
  }

  lemma DoneStores(s: System, i: nat, contents: seq<seq<Item>>)
    requires i < |s.holds| && StoreInv(s.stores, s.contents, s.holds, s.drained) && |contents| == |s.contents|
    requires forall o | 0 <= o < |contents| ::
               contents[o] == s.contents[o] + (if s.holds[i].store == Some(o) then [s.holds[i].item] else [])
    ensures StoreInv(s.stores, contents, Done(s, i).holds, Done(s, i).drained)
  {
    hide PutInto;
    var h := s.holds[i];
    var d := Drained(h.serial, h.item, h.store);
    forall o: nat ensures PutInto(s.drained + [d], o) == PutInto(s.drained, o) + (if d.store == Some(o) then [d.item] else []) {
      PutSnoc(s.drained, d, o);
    }
  }

  lemma PutInv(s: System, i: nat, o: nat)
    requires Inv(s) && i < |s.holds| && s.holds[i].store == Some(o) && o < |s.contents|
    ensures Inv(PutIn(s, i, o))
  {
    hide Kept, Out, QueueInv, SerialInv, PutInto, DataInv, SessionInv;
    DoneKeeps(s, i);
    DoneStores(s, i, PutIn(s, i, o).contents);
  }

  lemma SessionKeepsInv(s: System, id: nat, x: Session)
    requires Inv(s) && (x.data.Some? ==> x.data.value < |s.resolved|)
    ensures Inv(WithSession(s, id, x))
  {
    hide Kept, Out, QueueInv, SerialInv, StoreInv, DataInv;
  }

  lemma StartKeepsInv(s: System, id: nat)
    requires Inv(s)
    ensures Inv(Next(s, StartData(id)))
  {
    hide Kept, Out, QueueInv, SerialInv, StoreInv, DataInv;
    StartKeepsData(s.offers, s.resolved);
  }

  lemma NewStoreInv(s: System, account: string)
    requires Inv(s)
    ensures Inv(Next(s, NewStore(account)))
  {
    hide Kept, Out, PutInto, DataInv, SessionInv;
    assert PutInto(s.drained, |s.contents|) == [];
  }

  lemma AccountsKeepInv(s: System, aliases: map<string, string>, removed: set<string>)
    requires Inv(s)
    ensures Inv(Next(s, Accounts(aliases, removed)))
  {
    hide Kept, Out, QueueInv, SerialInv, PutInto, DataInv, SessionInv;
  }

  lemma StepInv(s: System, step: Step)
    requires Inv(s)
    ensures Inv(Next(s, step))
  {
    hide Kept, Out, QueueInv, SerialInv, StoreInv, DataInv, HeldItems, Handled, Taken, Looked, PutIn;
    match step
    case Rcpt(id, to) =>
      var x := SessionOf(s, id);
      SessionKeepsInv(s, id, x.(to := x.to + [Lower(to)]));
    case Reset(id) => SessionKeepsInv(s, id, Session([], None, 0));
    case StartData(id) => StartKeepsInv(s, id);
    case DeliverNext(id) =>
      var x := SessionOf(s, id);
      if x.data.Some? && x.data.value < |s.resolved| && x.handled < |x.to| {
        HandledInv(s, id, x.data.value);
      }
    case EndData(id) => SessionKeepsInv(s, id, SessionOf(s, id).(data := None));
    case Take =>
      if s.queue != [] {
        TakenInv(s);
      }
    case Find(i) =>
      if i < |s.holds| && s.holds[i].store.None? {
        LookedInv(s, i);
      }
    case Put(i) =>
      if i < |s.holds| && s.holds[i].store.Some? && s.holds[i].store.value < |s.contents| {
        PutInv(s, i, s.holds[i].store.value);
      }
    case Accounts(aliases, removed) => AccountsKeepInv(s, aliases, removed);
    case NewStore(account) => NewStoreInv(s, account);
  }

  lemma {:induction false} RunInv(s: System, steps: seq<Step>)
    requires Inv(s)
    ensures Inv(Run(s, steps))
    decreases |steps|
  {
    if steps != [] {
      StepInv(s, steps[0]);
      RunInv(Next(s, steps[0]), steps[1..]);
    }
  }

  // ----- conservation --------------------------------------------------------

  lemma {:induction false} OffersSplit(offers: seq<Offer>)
    ensures multiset(Items(offers)) == multiset(Kept(offers)) + multiset(Dropped(offers))
  {
    if offers != [] {
      OffersSplit(offers[..|offers| - 1]);
    }
  }

  lemma {:induction false} DrainedSplit(drained: seq<Drained>)
    ensures multiset(Out(drained)) == multiset(Placed(drained)) + multiset(Orphaned(drained))
  {
    if drained != [] {
      DrainedSplit(drained[..|drained| - 1]);
    }
  }

  /** Everything offered is somewhere, once. */
  ghost predicate Conserved(s: System) {
    multiset(Items(s.offers)) == multiset(Placed(s.drained)) + multiset(Orphaned(s.drained)) + multiset(Dropped(s.offers))
                                 + multiset(HeldItems(s.holds)) + multiset(s.queue)
  }

  lemma QueueConserves(s: System)
    requires QueueInv(s.queue, HeldItems(s.holds), Kept(s.offers), Out(s.drained))
    ensures Conserved(s)
  {
    hide Kept, Out, Items, Placed, Orphaned, Dropped, HeldItems;
    OffersSplit(s.offers);
    DrainedSplit(s.drained);
  }

  lemma QueueIsLast(queue: seq<Item>, held: seq<Item>, kept: seq<Item>, out: seq<Item>)
    requires QueueInv(queue, held, kept, out)
    ensures |queue| <= 256 && |queue| <= |kept| && queue == kept[|kept| - |queue|..]
  {
  }

  /** The queue is bounded and holds what was kept last, in order. */
  predicate Waiting(s: System) {
    |s.queue| <= 256 && |s.queue| <= |Kept(s.offers)| && s.queue == Kept(s.offers)[|Kept(s.offers)| - |s.queue|..]
  }

  /** Every store holds exactly what was put into it, in that order. */
  predicate Stored(s: System) {
    forall o | 0 <= o < |s.contents| :: s.contents[o] == PutInto(s.drained, o)
  }

  lemma Reached(s0: System, steps: seq<Step>)
    requires Fresh(s0)
    ensures Inv(Run(s0, steps))
  {
    FreshInv(s0);
    RunInv(s0, steps);
  }

  lemma InvConserves(s: System)
    requires Inv(s)
    ensures Conserved(s) && Waiting(s) && Stored(s)
  {
    hide Kept, Out, PutInto, HeldItems, SerialInv, DataInv, SessionInv, QueueInv, Conserved;
    QueueConserves(s);
    QueueIsLast(s.queue, HeldItems(s.holds), Kept(s.offers), Out(s.drained));
  }

  /** Conservation over every interleaving: whatever is offered is in a store, orphaned, dropped, held by a drainer or still
      queued, with its multiplicity; the queue never exceeds 256, what is queued is what was kept last, in order; and a
      store holds exactly what was put into it. */
  lemma Conservation(s0: System, steps: seq<Step>)
    requires Fresh(s0)
    ensures Conserved(Run(s0, steps)) && Waiting(Run(s0, steps)) && Stored(Run(s0, steps))
  {
    hide *;
    Reached(s0, steps);
    InvConserves(Run(s0, steps));
  }

  // ----- first occurrences ---------------------------------------------------

  lemma {:induction false} DedupMembers(xs: seq<string>, x: string)
    ensures x in Dedup(xs) <==> x in xs
  {
    if xs != [] {
      DedupMembers(xs[..|xs| - 1], x);
      DedupMembers(xs[..|xs| - 1], xs[|xs| - 1]);
      assert xs == xs[..|xs| - 1] + [xs[|xs| - 1]];
    }
  }

  /** x first occurs in xs at k. */
  predicate First(xs: seq<string>, x: string, k: int) {
    0 <= k < |xs| && xs[k] == x && x !in xs[..k]
  }

  /** The values of Dedup are in the order of their first occurrences, so none is there twice. */
  lemma {:induction false} DedupOrder(xs: seq<string>, i: nat, j: nat) returns (k: nat, l: nat)
    requires i < j < |Dedup(xs)|
    ensures First(xs, Dedup(xs)[i], k) && First(xs, Dedup(xs)[j], l) && k < l
  {
    var front, last := xs[..|xs| - 1], xs[|xs| - 1];
    if j < |Dedup(front)| {
      k, l := DedupOrder(front, i, j);
      assert xs[..k] == front[..k] && xs[..l] == front[..l];
    } else {
      k := DedupFirst(front, i);
      l := |xs| - 1;
      assert xs[..k] == front[..k];
    }
  }

  lemma {:induction false} DedupFirst(xs: seq<string>, i: nat) returns (k: nat)
    requires i < |Dedup(xs)|
    ensures First(xs, Dedup(xs)[i], k)
  {
    var front := xs[..|xs| - 1];
    if i < |Dedup(front)| {
      k := DedupFirst(front, i);
      assert xs[..k] == front[..k];
    } else {
      k := |xs| - 1;
    }
  }

  // ----- one DATA ------------------------------------------------------------

  /** Each DATA, over every interleaving, has offered exactly one message per distinct primary its recipients resolved
      to, in the order of first occurrence. */
  lemma DataOffers(s0: System, steps: seq<Step>, n: nat, account: string)
    requires Fresh(s0) && n < |Run(s0, steps).resolved|
    ensures var s := Run(s0, steps);
            OfferedBy(Items(s.offers), n) == Dedup(s.resolved[n]) &&
            (account in OfferedBy(Items(s.offers), n) <==> account in s.resolved[n])
  {
    Reached(s0, steps);
    hide Kept, Out, QueueInv, SerialInv, StoreInv, Items, OfferedBy, Dedup, Run;
    DedupMembers(Run(s0, steps).resolved[n], account);
  }

  function Primaries(aliases: map<string, string>, to: seq<string>): seq<string> {
    seq(|to|, i requires 0 <= i < |to| => Resolve(aliases, to[i]))
  }

  function Turns(id: nat, k: nat): seq<Step> {
    seq(k, i => DeliverNext(id))
  }

  lemma OneTurn(s: System, id: nat, n: nat)
    requires id in s.sessions && s.sessions[id].data == Some(n) && n < |s.resolved|
    requires s.sessions[id].handled < |s.sessions[id].to|
    ensures var x, t := s.sessions[id], Next(s, DeliverNext(id));
            id in t.sessions && t.sessions[id] == x.(handled := x.handled + 1) && t.aliases == s.aliases &&
            t.resolved == s.resolved[n := s.resolved[n] + [Resolve(s.aliases, x.to[x.handled])]]
  {
  }

  lemma PrimariesCons(aliases: map<string, string>, to: seq<string>, i: nat, j: nat)
    requires i < j <= |to|
    ensures Primaries(aliases, to[i..j]) == [Resolve(aliases, to[i])] + Primaries(aliases, to[i + 1..j])
  {
  }

  lemma RunTurns(s: System, id: nat, k: nat)
    requires k > 0
    ensures Run(s, Turns(id, k)) == Run(Next(s, DeliverNext(id)), Turns(id, k - 1))
  {
    assert Turns(id, k)[1..] == Turns(id, k - 1);
  }

  lemma Regroup(a: seq<string>, p: string, b: seq<string>)
    ensures (a + [p]) + b == a + ([p] + b)
  {
  }

  /** A DATA that nothing interrupts resolves its recipients, up to the j-th, with the aliases it started with. */
  lemma {:induction false} AloneResolves(s: System, id: nat, n: nat, j: nat)
    requires id in s.sessions && s.sessions[id].data == Some(n) && n < |s.resolved|
    requires s.sessions[id].handled <= j <= |s.sessions[id].to|
    ensures var x, t := s.sessions[id], Run(s, Turns(id, j - s.sessions[id].handled));
            |t.resolved| == |s.resolved| &&
            t.resolved[n] == s.resolved[n] + Primaries(s.aliases, x.to[x.handled..j])
    decreases j - s.sessions[id].handled
  {
    var x := s.sessions[id];
    var i := x.handled;
    if i == j {
      assert s.resolved[n] + Primaries(s.aliases, x.to[i..i]) == s.resolved[n];
    } else {
      RunTurns(s, id, j - i);
      OneTurn(s, id, n);
      AloneResolves(Next(s, DeliverNext(id)), id, n, j);
      PrimariesCons(s.aliases, x.to, i, j);
      Regroup(s.resolved[n], Resolve(s.aliases, x.to[i]), Primaries(s.aliases, x.to[i + 1..j]));
    }
  }

  lemma AloneFrom(s: System, id: nat, n: nat)
    requires Inv(s) && |s.resolved| == n + 1 && s.resolved[n] == []
    requires id in s.sessions && s.sessions[id].data == Some(n) && s.sessions[id].handled == 0
    ensures var to := s.sessions[id].to;
            var t := Run(s, Turns(id, |to|));
            |t.resolved| == n + 1 && OfferedBy(Items(t.offers), n) == Dedup(Primaries(s.aliases, to))
  {
    hide Kept, Out, QueueInv, SerialInv, StoreInv, SessionInv, Items, OfferedBy, Dedup, Run;
    var to := s.sessions[id].to;
    RunInv(s, Turns(id, |to|));
    AloneResolves(s, id, n, |to|);
    assert to[0..|to|] == to;
    assert [] + Primaries(s.aliases, to) == Primaries(s.aliases, to);
  }

  /** A DATA that starts now and is not interrupted offers one message per distinct primary of its recipient list. */
  predicate OffersAlone(s: System, id: nat) {
    var to := SessionOf(s, id).to;
    var t := Run(Next(s, StartData(id)), Turns(id, |to|));
    |t.resolved| == |s.resolved| + 1 && OfferedBy(Items(t.offers), |s.resolved|) == Dedup(Primaries(s.aliases, to))
  }

  lemma StartsAlone(s: System, id: nat)
    requires Inv(s) && SessionOf(s, id).data.None? && SessionOf(s, id).to != []
    ensures OffersAlone(s, id)
  {
    hide Inv, Items, OfferedBy, Dedup, Run, Primaries, Turns;
    StepInv(s, StartData(id));
    AloneFrom(Next(s, StartData(id)), id, |s.resolved|);
  }

  lemma AloneOffers(s0: System, steps: seq<Step>, id: nat)
    requires Fresh(s0)
    ensures var s := Run(s0, steps); SessionOf(s, id).data.None? && SessionOf(s, id).to != [] ==> OffersAlone(s, id)
  {
    hide *;
    Reached(s0, steps);
    if SessionOf(Run(s0, steps), id).data.None? && SessionOf(Run(s0, steps), id).to != [] {
      StartsAlone(Run(s0, steps), id);
    }
  }
}
