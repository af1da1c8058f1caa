/** The framebuffer pool: a counting semaphore and a round-robin index. It does not record
    which buffer comes back, so it is only right for clients that return them in order. */
module Pool {
  import opened Framebuffers

  /** How far the one thread that gets buffers is inside GetFramebuffer. */
  datatype Getter = Outside | Acquired | Incremented(index: nat)

  datatype Pool = Pool(size: nat, permits: nat, next: nat, getter: Getter)

  function Initial(size: nat): Pool {
    Pool(size, size, 0, Outside)
  }

  function Acquire(p: Pool): Pool
    requires 0 < p.permits
  {
    p.(permits := p.permits - 1, getter := Acquired)
  }

  function TakeIndex(p: Pool): Pool {
    p.(next := p.next + 1, getter := Incremented(p.next))
  }

  function WrapIndex(p: Pool): Pool {
    p.(next := if p.next == p.size then 0 else p.next, getter := Outside)
  }

  function Release(p: Pool): Pool {
    p.(permits := p.permits + 1)
  }

  // ---- Clients of the pool ----

  /** A buffer that is out: its index in the pool, and the number of the get that produced it. */
  datatype Buffer = Buffer(index: nat, number: nat)

  /** The pool, the buffers that are out, and the number of gets so far. A buffer counts as out
      from the moment its index is chosen, but can be returned only once GetFramebuffer is over. */
  datatype Ledger = Ledger(pool: Pool, out: seq<Buffer>, gets: nat)

  datatype Event = Acquires | TakesIndex | WrapsIndex | Releases(position: nat)

  function Start(size: nat): Ledger {
    Ledger(Initial(size), [], 0)
  }

  function Returnable(l: Ledger): int {
    |l.out| - if l.pool.getter.Incremented? then 1 else 0
  }

  predicate Possible(l: Ledger, e: Event) {
    match e
    case Acquires => l.pool.getter.Outside? && 0 < l.pool.permits
    case TakesIndex => l.pool.getter.Acquired?
    case WrapsIndex => l.pool.getter.Incremented?
    case Releases(i) => i < Returnable(l)
  }

  function Apply(l: Ledger, e: Event): Ledger
    requires Possible(l, e)
  {
    match e
    case Acquires => l.(pool := Acquire(l.pool))
    case TakesIndex => Ledger(TakeIndex(l.pool), l.out + [Buffer(l.pool.next, l.gets)], l.gets + 1)
    case WrapsIndex => l.(pool := WrapIndex(l.pool))
    case Releases(i) => l.(pool := Release(l.pool), out := l.out[..i] + l.out[i + 1..])
  }

  /** Events that are not possible when their turn comes are passed over. */
  function Next(l: Ledger, e: Event): Ledger {
    if Possible(l, e) then Apply(l, e) else l
  }

  function Run(l: Ledger, events: seq<Event>): Ledger
    decreases |events|
  {
    if events == [] then l else Run(Next(l, events[0]), events[1..])
  }

  /** No buffer is out twice. */
  predicate Distinct(out: seq<Buffer>) {
    forall i, j :: 0 <= i < j < |out| ==> out[i].index != out[j].index
  }

  // ---- What every client keeps, whatever it returns ----

  /** Permits are conserved. */
  predicate Balanced(l: Ledger) {
    l.pool.permits + |l.out| + (if l.pool.getter.Acquired? then 1 else 0) == l.pool.size
  }

  /** Get number n hands out buffer n modulo the size of the pool. */
  predicate RoundRobin(l: Ledger) {
    && 0 < l.pool.size
    && (forall i :: 0 <= i < |l.out| ==>
          l.out[i].number < l.gets && l.out[i].index == l.out[i].number % l.pool.size)
    && (forall i, j :: 0 <= i < j < |l.out| ==> l.out[i].number != l.out[j].number)
    && if l.pool.getter.Incremented? then 0 < l.gets && l.pool.next == (l.gets - 1) % l.pool.size + 1
       else l.pool.next == l.gets % l.pool.size
  }

  predicate Numbered(l: Ledger) {
    RoundRobin(l) && Balanced(l)
  }

  lemma NextRemainder(a: nat, n: nat)
    requires 0 < n
    ensures (a + 1) % n == if a % n + 1 == n then 0 else a % n + 1
  {
    var q, r := a / n, a % n;
    assert a == q * n + r;
    if r + 1 == n {
      assert a + 1 == (q + 1) * n + 0;
      RowOfIndex(0, q + 1, n);
    } else {
      RowOfIndex(r + 1, q, n);
    }
  }

  lemma StepKeepsRoundRobin(l: Ledger, e: Event)
    requires RoundRobin(l)
    ensures RoundRobin(Next(l, e))
  {
    if l.pool.getter.Incremented? {
      NextRemainder(l.gets - 1, l.pool.size);
    }
  }

  lemma StepKeepsNumbers(l: Ledger, e: Event)
    requires Numbered(l)
    ensures Numbered(Next(l, e))
  {
    StepKeepsRoundRobin(l, e);
    hide RoundRobin;
  }

  /** The same buffers listed in another order: one has moved towards the front. */
  function Moved(l: Ledger, to: nat, from: nat): Ledger
    requires to <= from < |l.out|
  {
    l.(out := l.out[..to] + [l.out[from]] + l.out[to..from] + l.out[from + 1..])
  }

  lemma MoveKeeps(l: Ledger, to: nat, from: nat)
    requires Numbered(l) && to <= from < |l.out|
    ensures Numbered(Moved(l, to, from))
    ensures Recent(l) ==> Recent(Moved(l, to, from))
    ensures to == from ==> Moved(l, to, from) == l
  {
    var m := Moved(l, to, from);
    MovedAt(l, to, from);
    hide Moved;
    assert RoundRobin(m);
    assert to == from ==> m.out == l.out;
  }

  lemma MovedAt(l: Ledger, to: nat, from: nat)
    requires to <= from < |l.out|
    ensures var m := Moved(l, to, from);
            && m == l.(out := m.out) && |m.out| == |l.out|
            && forall i :: 0 <= i < |m.out| ==>
                 m.out[i] == l.out[if i < to || from < i then i else if i == to then from else i - 1]
  {
  }

  // ---- Exactly when no buffer is out twice ----

  /** Every buffer that is out came from one of the last `size` gets. */
  predicate Recent(l: Ledger) {
    forall i :: 0 <= i < |l.out| ==> l.gets <= l.out[i].number + l.pool.size
  }

  /** The buffer of the get one round ago is back. */
  predicate LastRoundReturned(l: Ledger) {
    forall i :: 0 <= i < |l.out| ==> l.out[i].number + l.pool.size != l.gets
  }

  lemma ResiduesDiffer(a: nat, b: nat, n: nat)
    requires a < b < a + n
    ensures a % n != b % n
  {
    var d := b / n - a / n;
    assert b - a == d * n + (b % n - a % n);
    MulMono(1, d, n);
    MulMono(d, 0, n);
  }

  lemma RecentIsDistinct(l: Ledger)
    requires RoundRobin(l) && Recent(l)
    ensures Distinct(l.out)
  {
    forall i, j | 0 <= i < j < |l.out|
      ensures l.out[i].index != l.out[j].index
    {
      var a, b := l.out[i].number, l.out[j].number;
      ResiduesDiffer(if a < b then a else b, if a < b then b else a, l.pool.size);
    }
  }

  lemma StepKeepsRecent(l: Ledger, e: Event)
    requires RoundRobin(l) && Recent(l) && (e == TakesIndex && Possible(l, e) ==> LastRoundReturned(l))
    ensures Recent(Next(l, e))
  {
  }

  /** A get whose buffer of one round ago is still out hands that buffer out again. */
  lemma LateReturnCollides(l: Ledger)
    requires RoundRobin(l) && Possible(l, TakesIndex) && !LastRoundReturned(l)
    ensures !Distinct(Next(l, TakesIndex).out)
  {
    var i :| 0 <= i < |l.out| && l.out[i].number + l.pool.size == l.gets;
    AddKeepsRemainder(l.out[i].number, l.pool.size);
    var out := Next(l, TakesIndex).out;
    assert out[i] == l.out[i] && out[|l.out|] == Buffer(l.pool.next, l.gets);
  }

  /** The next get is free of conflict if and only if the buffer of one round ago is back. */
  lemma GetIsDistinctExactly(l: Ledger)
    requires Numbered(l) && Recent(l) && Possible(l, TakesIndex)
    ensures Distinct(Next(l, TakesIndex).out) <==> LastRoundReturned(l)
  {
    if LastRoundReturned(l) {
      StepKeepsNumbers(l, TakesIndex);
      StepKeepsRecent(l, TakesIndex);
      hide Next, LastRoundReturned;
      RecentIsDistinct(Next(l, TakesIndex));
    } else {
      LateReturnCollides(l);
    }
  }

  /** In no state of the run is a buffer out twice. */
  predicate AlwaysDistinct(l: Ledger, events: seq<Event>)
    decreases |events|
  {
    Distinct(l.out) && (events == [] || AlwaysDistinct(Next(l, events[0]), events[1..]))
  }

  /** Every get of the run chooses its buffer after that of one round ago is back. */
  predicate ReturnedInTime(l: Ledger, events: seq<Event>)
    decreases |events|
  {
    events != [] ==>
      && (events[0] == TakesIndex && Possible(l, TakesIndex) ==> LastRoundReturned(l))
      && ReturnedInTime(Next(l, events[0]), events[1..])
  }

  lemma {:induction false} DistinctExactlyWhenInTime(l: Ledger, events: seq<Event>)
    requires Numbered(l) && Recent(l)
    ensures AlwaysDistinct(l, events) <==> ReturnedInTime(l, events)
    decreases |events|
  {
    hide Next, Possible, Distinct, Recent, LastRoundReturned, RoundRobin, Balanced;
    RecentIsDistinct(l);
    if events == [] {
    } else {
      var e := events[0];
      if e == TakesIndex && Possible(l, e) && !LastRoundReturned(l) {
        GetIsDistinctExactly(l);
        assert AlwaysDistinct(Next(l, e), events[1..]) ==> Distinct(Next(l, e).out);
      } else {
        StepKeepsNumbers(l, e);
        StepKeepsRecent(l, e);
        DistinctExactlyWhenInTime(Next(l, e), events[1..]);
      }
    }
  }

  /** For any pool and any client, whatever it returns and when: permits are conserved, and no
      buffer is ever out twice if and only if each get finds the buffer of one round ago back. */
  lemma SafeExactlyWhenReturnedInTime(size: nat, events: seq<Event>)
    requires 0 < size
    ensures AlwaysDistinct(Start(size), events) <==> ReturnedInTime(Start(size), events)
    ensures Balanced(Run(Start(size), events)) && Run(Start(size), events).pool.size == size
  {
    DistinctExactlyWhenInTime(Start(size), events);
    RunKeepsNumbers(Start(size), events);
  }

  lemma {:induction false} RunKeepsNumbers(l: Ledger, events: seq<Event>)
    requires Numbered(l)
    ensures Numbered(Run(l, events)) && Run(l, events).pool.size == l.pool.size
    decreases |events|
  {
    if events == [] {
    } else {
      StepKeepsNumbers(l, events[0]);
      assert Next(l, events[0]).pool.size == l.pool.size;
      hide Next, Numbered;
      RunKeepsNumbers(Next(l, events[0]), events[1..]);
    }
  }

  // ---- Clients that return the oldest buffer first ----

  /** The buffers that are out came from the latest gets, oldest first. */
  predicate Consecutive(l: Ledger) {
    forall i :: 0 <= i < |l.out| ==> l.out[i].number == l.gets - |l.out| + i
  }

  predicate InOrder(events: seq<Event>) {
    forall e :: e in events && e.Releases? ==> e.position == 0
  }

  lemma StepKeepsOrder(l: Ledger, e: Event)
    requires Consecutive(l) && (e.Releases? ==> e.position == 0)
    ensures Consecutive(Next(l, e))
  {
    if e.Releases? && Possible(l, e) {
      var t := Next(l, e);
      assert forall i :: 0 <= i < |t.out| ==> t.out[i] == l.out[i + 1];
    }
  }

  lemma OrderIsInTime(l: Ledger)
    requires Balanced(l) && Consecutive(l)
    ensures Recent(l)
    ensures Possible(l, TakesIndex) ==> LastRoundReturned(l)
  {
  }

  lemma {:induction false} InOrderIsInTime(l: Ledger, events: seq<Event>)
    requires Numbered(l) && Consecutive(l) && InOrder(events)
    ensures ReturnedInTime(l, events) && Consecutive(Run(l, events))
    decreases |events|
  {
    if events == [] {
    } else {
      assert events[0] in events;
      OrderIsInTime(l);
      StepKeepsNumbers(l, events[0]);
      StepKeepsOrder(l, events[0]);
      hide Next, Possible, Numbered, Consecutive;
      InOrderIsInTime(Next(l, events[0]), events[1..]);
    }
  }

  /** For any pool and any run of an in-order client, no buffer is ever out twice, and the
      buffers that are out are a cyclic interval that ends just before the next index. */
  lemma InOrderClientIsSafe(size: nat, events: seq<Event>)
    requires 0 < size && InOrder(events)
    ensures AlwaysDistinct(Start(size), events)
    ensures var l := Run(Start(size), events);
            |l.out| <= l.gets
            && forall i :: 0 <= i < |l.out| ==> l.out[i].index == (l.gets - |l.out| + i) % size
  {
    InOrderIsInTime(Start(size), events);
    SafeExactlyWhenReturnedInTime(size, events);
    RunKeepsNumbers(Start(size), events);
    var l := Run(Start(size), events);
    assert l.out != [] ==> l.out[0].number == l.gets - |l.out|;
  }

  // ---- Clients that do not ----

  /** After gets in order, one return and one more get, no buffer is out twice if and only if
      the buffer returned was the oldest or some buffer had not been taken. */
  lemma OrderIsNeeded(l: Ledger, i: nat)
    requires Numbered(l) && Consecutive(l) && l.pool.getter.Outside? && i < |l.out|
    ensures Distinct(Run(l, [Releases(i), Acquires, TakesIndex]).out) <==> i == 0 || 0 < l.pool.permits
  {
    var l1 := Next(l, Releases(i));
    var l2 := Next(l1, Acquires);
    RunOfThree(l, Releases(i), Acquires, TakesIndex);
    StepKeepsNumbers(l, Releases(i));
    StepKeepsNumbers(l1, Acquires);
    OrderIsInTime(l);
    ReturnThenAcquire(l, i);
    hide Run, Next, RoundRobin, Balanced, Consecutive, Recent, LastRoundReturned, Distinct;
    GetIsDistinctExactly(l2);
  }

  lemma ReturnThenAcquire(l: Ledger, i: nat)
    requires Numbered(l) && Consecutive(l) && l.pool.getter.Outside? && i < |l.out|
    ensures var l2 := Next(Next(l, Releases(i)), Acquires);
            Recent(l2) && Possible(l2, TakesIndex) && (LastRoundReturned(l2) <==> i == 0 || 0 < l.pool.permits)
  {
    var l1 := Next(l, Releases(i));
    assert l1 == l.(pool := Release(l.pool), out := l.out[..i] + l.out[i + 1..]);
    if i != 0 {
      assert l1.out[0] == l.out[0];
    }
  }

  lemma RunOfThree(l: Ledger, a: Event, b: Event, c: Event)
    ensures Run(l, [a, b, c]) == Next(Next(Next(l, a), b), c)
  {
    hide Next;
    assert [a, b, c][1..] == [b, c] && [b, c][1..] == [c] && [c][1..] == [];
    assert Run(Next(Next(l, a), b), [c]) == Run(Next(Next(Next(l, a), b), c), []);
  }

  const GET := [Acquires, TakesIndex, WrapsIndex]

  /** A whole get, when there is a permit. */
  function AfterGet(l: Ledger): Ledger
    requires 0 < l.pool.permits
  {
    var p := l.pool;
    var next := if p.next + 1 == p.size then 0 else p.next + 1;
    Ledger(Pool(p.size, p.permits - 1, next, Outside), l.out + [Buffer(p.next, l.gets)], l.gets + 1)
  }

  lemma GetRun(l: Ledger)
    requires l.pool.getter.Outside? && 0 < l.pool.permits
    ensures Run(l, GET) == AfterGet(l)
  {
    RunOfThree(l, Acquires, TakesIndex, WrapsIndex);
  }

  lemma {:induction false} RunConcat(l: Ledger, a: seq<Event>, b: seq<Event>)
    ensures Run(l, a + b) == Run(Run(l, a), b)
    decreases |a|
  {
    if a == [] {
      assert a + b == b;
    } else {
      hide Next;
      assert (a + b)[1..] == a[1..] + b;
      RunConcat(Next(l, a[0]), a[1..], b);
    }
  }

  /** The smallest run that goes wrong: two buffers, returned in the wrong order. */
  lemma OutOfOrderHandsOutABusyBuffer()
    ensures Run(Start(2), GET + GET + [Releases(1)] + GET).out == [Buffer(0, 0), Buffer(0, 2)]
  {
    var l1, l2 := AfterGet(Start(2)), AfterGet(AfterGet(Start(2)));
    var l3 := Ledger(Pool(2, 1, 0, Outside), [Buffer(0, 0)], 2);
    assert Run(l2, [Releases(1)]) == l3 by { RunOfOne(l2, Releases(1)); }
    RunConcat(Start(2), GET + GET + [Releases(1)], GET);
    RunConcat(Start(2), GET + GET, [Releases(1)]);
    RunConcat(Start(2), GET, GET);
    hide Run;
    GetRun(Start(2));
    GetRun(l1);
    GetRun(l3);
  }

  /** A spare buffer only delays it: here the second get after the return collides. */
  lemma SpareBufferOnlyDelaysIt()
    ensures Run(Start(3), GET + GET + [Releases(1)] + GET + GET).out == [Buffer(0, 0), Buffer(2, 2), Buffer(0, 3)]
  {
    var l1, l2 := AfterGet(Start(3)), AfterGet(AfterGet(Start(3)));
    var l3 := Ledger(Pool(3, 2, 2, Outside), [Buffer(0, 0)], 2);
    assert Run(l2, [Releases(1)]) == l3 by { RunOfOne(l2, Releases(1)); }
    RunConcat(Start(3), GET + GET + [Releases(1)] + GET, GET);
    RunConcat(Start(3), GET + GET + [Releases(1)], GET);
    RunConcat(Start(3), GET + GET, [Releases(1)]);
    RunConcat(Start(3), GET, GET);
    hide Run;
    GetRun(Start(3));
    GetRun(l1);
    GetRun(l3);
    GetRun(AfterGet(l3));
  }

  lemma RunOfOne(l: Ledger, e: Event)
    ensures Run(l, [e]) == Next(l, e)
  {
    assert Run(Next(l, e), [e][1..]) == Next(l, e);
  }

  // ---- The pool as an object ----

  class FramebufferPool {
    const bufferAddresses: seq<nat>
    var permits: nat
    var nextFbIdx: nat

    ghost function Current(): Pool
      reads this
    {
      Pool(|bufferAddresses|, permits, nextFbIdx, Outside)
    }

    constructor (fbAddr: seq<nat>)
      ensures bufferAddresses == fbAddr && Current() == Initial(|fbAddr|)
    {
      bufferAddresses, permits, nextFbIdx := fbAddr, |fbAddr|, 0;
    }

    /** From where the semaphore lets the caller in; all steps of the get in one. */
    method GetFramebuffer() returns (address: nat)
      requires 0 < permits && nextFbIdx < |bufferAddresses|
      modifies this
      ensures Current() == WrapIndex(TakeIndex(Acquire(old(Current()))))
      ensures address == bufferAddresses[old(nextFbIdx)] && nextFbIdx < |bufferAddresses|
    {
      permits := permits - 1;
      var idx := nextFbIdx;
      nextFbIdx := nextFbIdx + 1;
      if nextFbIdx == |bufferAddresses| {
        nextFbIdx := 0;
      }
      address := bufferAddresses[idx];
    }

    method ReleaseFramebuffer(address: nat)
      modifies this
      ensures Current() == Release(old(Current()))
    {
      permits := permits + 1;
    }
  }
}
