/** Order of inbound delivery: kept exactly while no drainer overtakes another that holds an item of the same account. */
module DeliveryOrder {
  import opened Text
  import opened Delivery
  import opened DeliveryProof

  // ----- overtaking ----------------------------------------------------------

  /** Does an earlier drainer hold an item of the same account as the i-th? */
  predicate Earlier(holds: seq<Held>, i: nat)
    requires i < |holds|
  {
    exists j | 0 <= j < i :: holds[j].item.account == holds[i].item.account
  }

  /** A drainer is done with an item of the account while an earlier one still holds one. */
  predicate Overtakes(s: System, step: Step, account: string) {
    match step
    case Find(i) => i < |s.holds| && s.holds[i].store.None? && s.holds[i].item.account !in s.stores && Passes(s.holds, i, account)
    case Put(i) =>
      i < |s.holds| && s.holds[i].store.Some? && s.holds[i].store.value < |s.contents| && Passes(s.holds, i, account)
    case _ => false
  }

  predicate Passes(holds: seq<Held>, i: nat, account: string)
    requires i < |holds|
  {
    holds[i].item.account == account && Earlier(holds, i)
  }

  ghost predicate Overtaken(s: System, steps: seq<Step>, account: string)
    decreases |steps|
  {
    steps != [] && (Overtakes(s, steps[0], account) || Overtaken(Next(s, steps[0]), steps[1..], account))
  }

  // ----- inversions ----------------------------------------------------------

  datatype Mark = Mark(serial: nat, account: string)

  function DrainedMarks(drained: seq<Drained>): seq<Mark> {
    seq(|drained|, i requires 0 <= i < |drained| => Mark(drained[i].serial, drained[i].item.account))
  }

  function HeldMarks(holds: seq<Held>): seq<Mark> {
    seq(|holds|, i requires 0 <= i < |holds| => Mark(holds[i].serial, holds[i].item.account))
  }

  /** Items by the order they are done with, then those still held in the order they were taken. */
  function Line(s: System): seq<Mark> {
    DrainedMarks(s.drained) + HeldMarks(s.holds)
  }

  predicate Crossed(line: seq<Mark>, p: int, q: int, account: string) {
    0 <= p < q < |line| && line[p].account == account == line[q].account && line[p].serial > line[q].serial
  }

  /** Two items of the account, the one that was kept later done with first. */
  ghost predicate Inverted(line: seq<Mark>, account: string) {
    exists p, q :: Crossed(line, p, q, account)
  }

  /** From place d on, serials increase. */
  predicate Rising(line: seq<Mark>, d: nat) {
    forall p, q | d <= p < q < |line| :: line[p].serial < line[q].serial
  }

  /** The item at place k moves up to place d. */
  function MovedUp(line: seq<Mark>, d: nat, k: nat): seq<Mark>
    requires d <= k < |line|
  {
    line[..d] + [line[k]] + line[d..k] + line[k + 1..]
  }

  function NewPlace(d: nat, k: nat, p: nat): nat {
    if p == k then d else if d <= p < k then p + 1 else p
  }

  lemma MovedAt(line: seq<Mark>, d: nat, k: nat, p: nat)
    requires d <= k < |line| && p < |line|
    ensures NewPlace(d, k, p) < |MovedUp(line, d, k)| == |line| && MovedUp(line, d, k)[NewPlace(d, k, p)] == line[p]
  {
  }

  lemma OldPlace(d: nat, k: nat, n: nat, p: nat) returns (o: nat)
    requires d <= k < n && p < n
    ensures o < n && NewPlace(d, k, o) == p
  {
    o := if p == d then k else if d < p <= k then p - 1 else p;
  }

  lemma MoveInverts(line: seq<Mark>, d: nat, k: nat, account: string)
    requires d <= k < |line| && Rising(line, d)
    ensures Inverted(MovedUp(line, d, k), account) <==>
            Inverted(line, account) ||
            (line[k].account == account && exists j | d <= j < k :: line[j].account == account)
  {
    hide MovedUp, Inverted;
    var moved := MovedUp(line, d, k);
    if Inverted(moved, account) {
      InversionBefore(line, d, k, account);
    }
    if Inverted(line, account) {
      InversionAfter(line, d, k, account);
    }
    if j :| line[k].account == account && d <= j < k && line[j].account == account {
      MovedAt(line, d, k, j);
      MovedAt(line, d, k, k);
      CrossedInverts(moved, d, j + 1, account);
    }
  }

  lemma CrossedInverts(line: seq<Mark>, p: int, q: int, account: string)
    requires Crossed(line, p, q, account)
    ensures Inverted(line, account)
  {
  }

  lemma InversionBefore(line: seq<Mark>, d: nat, k: nat, account: string)
    requires d <= k < |line| && Rising(line, d) && Inverted(MovedUp(line, d, k), account)
    ensures Inverted(line, account) ||
            (line[k].account == account && exists j | d <= j < k :: line[j].account == account)
  {
    hide MovedUp;
    var moved := MovedUp(line, d, k);
    MovedAt(line, d, k, k);
    var p, q :| Crossed(moved, p, q, account);
    var a := OldPlace(d, k, |line|, p);
    var b := OldPlace(d, k, |line|, q);
    MovedAt(line, d, k, a);
    MovedAt(line, d, k, b);
    if a < b {
      assert Crossed(line, a, b, account);
    } else {
      assert a == k && d <= b < k;
    }
  }

  lemma InversionAfter(line: seq<Mark>, d: nat, k: nat, account: string)
    requires d <= k < |line| && Rising(line, d) && Inverted(line, account)
    ensures Inverted(MovedUp(line, d, k), account)
  {
    hide MovedUp;
    var p, q :| Crossed(line, p, q, account);
    MovedAt(line, d, k, p);
    MovedAt(line, d, k, q);
    assert Crossed(MovedUp(line, d, k), NewPlace(d, k, p), NewPlace(d, k, q), account);
  }

  lemma AppendInverts(line: seq<Mark>, m: Mark, account: string)
    requires forall p | 0 <= p < |line| :: line[p].serial < m.serial
    ensures Inverted(line + [m], account) <==> Inverted(line, account)
  {
    if p, q :| Crossed(line + [m], p, q, account) {
      assert Crossed(line, p, q, account);
    }
    if p, q :| Crossed(line, p, q, account) {
      assert Crossed(line + [m], p, q, account);
    }
  }

  // ----- steps ---------------------------------------------------------------

  lemma LineRises(s: System)
    requires SerialInv(s.holds, s.drained, Kept(s.offers))
    ensures Rising(Line(s), |s.drained|) && forall p | 0 <= p < |Line(s)| :: Line(s)[p].serial < |s.drained| + |s.holds|
  {
    hide Kept;
  }

  lemma MovedParts(d: seq<Mark>, h: seq<Mark>, i: nat)
    requires i < |h|
    ensures MovedUp(d + h, |d|, |d| + i) == (d + [h[i]]) + (h[..i] + h[i + 1..])
  {
  }

  lemma MarksWithout(holds: seq<Held>, i: nat)
    requires i < |holds|
    ensures HeldMarks(Without(holds, i)) == HeldMarks(holds)[..i] + HeldMarks(holds)[i + 1..]
  {
  }

  lemma DoneMoves(s: System, i: nat)
    requires i < |s.holds|
    ensures Line(Done(s, i)) == MovedUp(Line(s), |s.drained|, |s.drained| + i)
  {
    hide MovedUp, Without;
    MarksWithout(s.holds, i);
    assert DrainedMarks(Done(s, i).drained) == DrainedMarks(s.drained) + [HeldMarks(s.holds)[i]];
    MovedParts(DrainedMarks(s.drained), HeldMarks(s.holds), i);
  }

  lemma DoneInverts(s: System, i: nat, account: string)
    requires SerialInv(s.holds, s.drained, Kept(s.offers)) && i < |s.holds|
    ensures Inverted(Line(Done(s, i)), account) <==> Inverted(Line(s), account) || Passes(s.holds, i, account)
  {
    hide Kept, Inverted, MovedUp, SerialInv;
    var d, line := |s.drained|, Line(s);
    LineRises(s);
    DoneMoves(s, i);
    MoveInverts(line, d, d + i, account);
    forall j | 0 <= j <= i ensures line[d + j].account == s.holds[j].item.account {}
    if Passes(s.holds, i, account) {
      var j :| 0 <= j < i && s.holds[j].item.account == s.holds[i].item.account;
      assert line[d + j].account == account;
    }
    if line[d + i].account == account {
      if k :| d <= k < d + i && line[k].account == account {
        assert s.holds[k - d].item.account == account;
      }
    }
  }

  lemma TakenInverts(s: System, account: string)
    requires SerialInv(s.holds, s.drained, Kept(s.offers)) && s.queue != []
    ensures Inverted(Line(Taken(s)), account) <==> Inverted(Line(s), account)
  {
    hide Kept, Inverted, SerialInv;
    LineRises(s);
    var m := Mark(|s.drained| + |s.holds|, s.queue[0].account);
    assert HeldMarks(Taken(s).holds) == HeldMarks(s.holds) + [m];
    assert Line(Taken(s)) == Line(s) + [m];
    AppendInverts(Line(s), m, account);
  }

  lemma FoundLine(s: System, i: nat)
    requires i < |s.holds| && s.holds[i].item.account in s.stores
    ensures Line(Looked(s, i)) == Line(s)
  {
    assert HeldMarks(Looked(s, i).holds) == HeldMarks(s.holds);
  }

  lemma QuietLine(s: System, step: Step)
    requires !step.Take? && !step.Find? && !step.Put?
    ensures Next(s, step).drained == s.drained && Next(s, step).holds == s.holds
  {
  }

  /** An inversion appears exactly at a step that overtakes, and never goes away. */
  lemma StepOrder(s: System, step: Step, account: string)
    requires Inv(s)
    ensures Inverted(Line(Next(s, step)), account) <==> Inverted(Line(s), account) || Overtakes(s, step, account)
  {
    hide Kept, Out, Inverted, Line, QueueInv, SerialInv, StoreInv, DataInv, SessionInv, Passes, Taken, Done;
    match step
    case Take =>
      if s.queue != [] {
        TakenInverts(s, account);
      }
    case Find(i) =>
      if i < |s.holds| && s.holds[i].store.None? {
        if s.holds[i].item.account in s.stores {
          FoundLine(s, i);
        } else {
          DoneInverts(s, i, account);
        }
      }
    case Put(i) =>
      if i < |s.holds| && s.holds[i].store.Some? && s.holds[i].store.value < |s.contents| {
        DoneInverts(s, i, account);
        SameLine(Done(s, i), PutIn(s, i, s.holds[i].store.value));
      }
    case _ =>
      QuietLine(s, step);
      SameLine(s, Next(s, step));
  }

  lemma SameLine(s: System, t: System)
    requires s.drained == t.drained && s.holds == t.holds
    ensures Line(s) == Line(t)
  {
  }

  lemma {:induction false} RunOrder(s: System, steps: seq<Step>, account: string)
    requires Inv(s)
    ensures Inverted(Line(Run(s, steps)), account) <==> Inverted(Line(s), account) || Overtaken(s, steps, account)
    decreases |steps|
  {
    hide Inv, Inverted, Line, Overtakes, Next;
    if steps != [] {
      StepOrder(s, steps[0], account);
      StepInv(s, steps[0]);
      RunOrder(Next(s, steps[0]), steps[1..], account);
    }
  }

  /** The items of an account are done with in the order they were kept if and only if no drainer ever overtook another
      that held one of them. */
  lemma OrderExactly(s0: System, steps: seq<Step>, account: string)
    requires Fresh(s0)
    ensures Inverted(Line(Run(s0, steps)), account) <==> Overtaken(s0, steps, account)
  {
    FreshInv(s0);
    FreshLine(s0, account);
    hide Run, Overtaken, Inverted, Line, Inv;
    RunOrder(s0, steps, account);
  }

  lemma FreshLine(s: System, account: string)
    requires Fresh(s)
    ensures !Inverted(Line(s), account)
  {
    assert Line(s) == [];
  }

  // ----- one drainer at a time -----------------------------------------------

  /** At most one drainer holds an item of the account, in every state of the run. */
  ghost predicate Alone(s: System, steps: seq<Step>, account: string)
    decreases |steps|
  {
    OneHolder(s.holds, account) && (steps != [] ==> Alone(Next(s, steps[0]), steps[1..], account))
  }

  predicate OneHolder(holds: seq<Held>, account: string) {
    forall i, j | 0 <= i < j < |holds| :: !(holds[i].item.account == account && holds[j].item.account == account)
  }

  /** In particular order is kept while no two drainers hold items of the account at once; */
  lemma {:induction false} AloneKeepsOrder(s: System, steps: seq<Step>, account: string)
    requires Alone(s, steps, account)
    ensures !Overtaken(s, steps, account)
    decreases |steps|
  {
    hide Next;
    if steps != [] {
      AloneKeepsOrder(Next(s, steps[0]), steps[1..], account);
    }
  }

  /** and as soon as two do, the later one can overtake. */
  lemma TwoCanOvertake(s: System, account: string)
    requires Inv(s) && !OneHolder(s.holds, account)
    ensures exists i :: Overtakes(s, Find(i), account) || Overtakes(s, Put(i), account) ||
                        Overtakes(Next(s, Find(i)), Put(i), account)
  {
    hide Kept, Out, QueueInv, SerialInv, PutInto, DataInv, SessionInv;
    var j, i :| 0 <= j < i < |s.holds| && s.holds[j].item.account == account && s.holds[i].item.account == account;
    assert Passes(s.holds, i, account);
    if s.holds[i].store.Some? {
      assert Overtakes(s, Put(i), account);
    } else if account !in s.stores {
      assert Overtakes(s, Find(i), account);
    } else {
      var t := Next(s, Find(i));
      assert t.holds[j].item == s.holds[j].item && t.holds[i].item == s.holds[i].item;
      assert Passes(t.holds, i, account);
      assert Overtakes(t, Put(i), account);
    }
  }

  /** Two requests drain at once: the second item of an account reaches its store before the first. */
  lemma SwappedRun(s: System, x: Item, y: Item)
    requires s.holds == [] && s.queue == [x, y] && x.account == y.account
    requires x.account in s.stores && s.stores[x.account] < |s.contents|
    ensures var o := s.stores[x.account];
            Run(s, [Take, Take, Find(1), Put(1), Find(0), Put(0)]).contents == s.contents[o := s.contents[o] + [y, x]]
  {
    var n := |s.drained|;
    var o := s.stores[x.account];
    var t := Next(Next(s, Take), Take);
    assert t.holds == [Held(n, x, None), Held(n + 1, y, None)];
    var u := Next(Next(t, Find(1)), Put(1));
    assert u.holds == [Held(n, x, None)] && u.contents == s.contents[o := s.contents[o] + [y]];
    var v := Next(Next(u, Find(0)), Put(0));
    assert s.contents[o] + [y] + [x] == s.contents[o] + [y, x];
    assert v.contents == s.contents[o := s.contents[o] + [y, x]];
    hide Next;
    TwoSteps(s, Take, Take, [Find(1), Put(1), Find(0), Put(0)]);
    TwoSteps(t, Find(1), Put(1), [Find(0), Put(0)]);
    TwoSteps(u, Find(0), Put(0), []);
    assert [Find(0), Put(0)] + [] == [Find(0), Put(0)];
    assert [Find(1), Put(1)] + [Find(0), Put(0)] == [Find(1), Put(1), Find(0), Put(0)];
    assert [Take, Take] + [Find(1), Put(1), Find(0), Put(0)] == [Take, Take, Find(1), Put(1), Find(0), Put(0)];
  }

  lemma TwoSteps(s: System, a: Step, b: Step, rest: seq<Step>)
    ensures Run(s, [a, b] + rest) == Run(Next(Next(s, a), b), rest)
  {
    hide Next;
    assert ([a, b] + rest)[1..] == [b] + rest && ([b] + rest)[1..] == rest;
    assert Run(Next(s, a), [b] + rest) == Run(Next(Next(s, a), b), rest);
  }
}
