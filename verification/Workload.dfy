/** The random workload as a schedule: what it does at every turn is decided by how many nodes are live and by what the
    generator answers, and by nothing an allocator does. */
module Workload {
  import opened Pools

  const MAX_LIVE: nat := 4096

  const SERIAL_LIMIT: nat := 0x1_0000_0000

  /** Allocate a node with this serial number, or check and free the one tracked at this place. */
  datatype Act = Grow(serial: nat) | Shrink(place: nat)

  /** The number of live nodes, the next serial number, and how often the generator was asked. */
  datatype Clock = Clock(count: nat, serial: nat, draws: nat)

  const START := Clock(0, 0, 0)

  /** With no live node, or too many, no coin is tossed. */
  predicate Tosses(c: Clock) {
    0 < c.count < MAX_LIVE
  }

  predicate GrowsAt(c: Clock, rng: nat -> nat) {
    c.count == 0 || (Tosses(c) && rng(c.draws) % 2 == 1)
  }

  function ActAt(c: Clock, rng: nat -> nat): Act {
    if GrowsAt(c, rng) then Grow(c.serial)
    else Shrink(rng(if Tosses(c) then c.draws + 1 else c.draws) % c.count)
  }

  function Tick(c: Clock, rng: nat -> nat): Clock {
    var tossed := if Tosses(c) then c.draws + 1 else c.draws;
    if GrowsAt(c, rng) then Clock(c.count + 1, (c.serial + 1) % SERIAL_LIMIT, tossed)
    else Clock(c.count - 1, c.serial, tossed + 1)
  }

  /** `n` turns. */
  function Turns(n: nat, c: Clock, rng: nat -> nat): (acts: seq<Act>)
    ensures |acts| == n
  {
    if n == 0 then [] else [ActAt(c, rng)] + Turns(n - 1, Tick(c, rng), rng)
  }

  function After(n: nat, c: Clock, rng: nat -> nat): Clock {
    if n == 0 then c else After(n - 1, Tick(c, rng), rng)
  }

  /** Free what is left, the last place first. */
  function Draining(count: nat): (acts: seq<Act>)
    ensures |acts| == count
  {
    if count == 0 then [] else [Shrink(count - 1)] + Draining(count - 1)
  }

  /** The whole pass. */
  function Pass(n: nat, rng: nat -> nat): seq<Act> {
    Turns(n, START, rng) + Draining(After(n, START, rng).count)
  }

  lemma {:induction false} OneMoreTurn(n: nat, c: Clock, rng: nat -> nat)
    ensures Turns(n + 1, c, rng) == Turns(n, c, rng) + [ActAt(After(n, c, rng), rng)]
    ensures After(n + 1, c, rng) == Tick(After(n, c, rng), rng)
  {
    if n > 0 {
      OneMoreTurn(n - 1, Tick(c, rng), rng);
    }
  }

  // ---------------------------------------------------------------- what the schedule keeps

  function Grown(acts: seq<Act>): nat {
    if acts == [] then 0 else (if acts[0].Grow? then 1 else 0) + Grown(acts[1..])
  }

  function Shrunk(acts: seq<Act>): nat {
    if acts == [] then 0 else (if acts[0].Shrink? then 1 else 0) + Shrunk(acts[1..])
  }

  /** Every place freed is one in use, with `count` places in use at the start, and no more than MAX_LIVE ever are. */
  predicate ActsOk(count: nat, acts: seq<Act>)
    decreases |acts|
  {
    if acts == [] then true
    else match acts[0]
      case Grow(_) => count < MAX_LIVE && ActsOk(count + 1, acts[1..])
      case Shrink(k) => k < count && ActsOk(count - 1, acts[1..])
  }

  lemma {:induction false} TurnsOk(n: nat, c: Clock, rng: nat -> nat, rest: seq<Act>)
    requires c.count <= MAX_LIVE && ActsOk(After(n, c, rng).count, rest)
    ensures ActsOk(c.count, Turns(n, c, rng) + rest)
    decreases n
  {
    if n == 0 {
      assert Turns(n, c, rng) + rest == rest;
    } else {
      TurnsOk(n - 1, Tick(c, rng), rng, rest);
      assert (Turns(n, c, rng) + rest)[1..] == Turns(n - 1, Tick(c, rng), rng) + rest;
    }
  }

  /** What is live is what was allocated and not freed. */
  lemma {:induction false} TurnsTally(n: nat, c: Clock, rng: nat -> nat)
    ensures After(n, c, rng).count + Shrunk(Turns(n, c, rng)) == c.count + Grown(Turns(n, c, rng))
    decreases n
  {
    if n > 0 {
      TurnsTally(n - 1, Tick(c, rng), rng);
      assert Turns(n, c, rng)[1..] == Turns(n - 1, Tick(c, rng), rng);
    }
  }

  lemma {:induction false} DrainingOk(count: nat)
    ensures ActsOk(count, Draining(count)) && Shrunk(Draining(count)) == count && Grown(Draining(count)) == 0
  {
    if count > 0 {
      DrainingOk(count - 1);
      assert Draining(count)[1..] == Draining(count - 1);
    }
  }

  lemma {:induction false} TalliesAdd(a: seq<Act>, b: seq<Act>)
    ensures Grown(a + b) == Grown(a) + Grown(b) && Shrunk(a + b) == Shrunk(a) + Shrunk(b)
  {
    if a == [] {
      assert a + b == b;
    } else {
      TalliesAdd(a[1..], b);
      assert (a + b)[1..] == a[1..] + b;
    }
  }

  /** Whatever the generator answers, the pass frees only places in use, never tracks more than MAX_LIVE
      nodes, takes `n` turns, and frees as many nodes as it allocates. */
  lemma PassBalances(n: nat, rng: nat -> nat)
    ensures ActsOk(0, Pass(n, rng))
    ensures Grown(Pass(n, rng)) == Shrunk(Pass(n, rng))
    ensures Grown(Turns(n, START, rng)) + Shrunk(Turns(n, START, rng)) == n
    ensures n > 0 ==> Grown(Pass(n, rng)) > 0
  {
    var left := After(n, START, rng).count;
    DrainingOk(left);
    TurnsOk(n, START, rng, Draining(left));
    TurnsTally(n, START, rng);
    TalliesAdd(Turns(n, START, rng), Draining(left));
    TallyAll(Turns(n, START, rng));
  }

  lemma {:induction false} TallyAll(acts: seq<Act>)
    ensures Grown(acts) + Shrunk(acts) == |acts|
  {
    if acts != [] {
      TallyAll(acts[1..]);
    }
  }

  // ---------------------------------------------------------------- what the schedule asks of a pool

  /** The slots of the tracked nodes, after an act on a pool. */
  function PlacesAfter(p: Pool, places: seq<nat>, act: Act): seq<nat>
    requires act.Shrink? ==> act.place < |places|
  {
    match act
    case Grow(_) => places + [Take(p).1]
    case Shrink(k) => places[k := places[|places| - 1]][..|places| - 1]
  }

  function AsPoolOp(places: seq<nat>, act: Act): PoolOp
    requires act.Shrink? ==> act.place < |places|
  {
    match act
    case Grow(_) => Acquire
    case Shrink(k) => Release(places[k])
  }

  /** The account of an allocator: its pool, the slots of the tracked nodes, and the calls made. */
  datatype Books = Books(pool: Pool, places: seq<nat>, allocs: nat, frees: nat)

  function Enter(b: Books, act: Act): (r: Books)
    requires act.Shrink? ==> act.place < |b.places|
  {
    Books(Step(b.pool, AsPoolOp(b.places, act)).0, PlacesAfter(b.pool, b.places, act),
          if act.Grow? then b.allocs + 1 else b.allocs, if act.Shrink? then b.frees + 1 else b.frees)
  }

  function EnterAll(b: Books, acts: seq<Act>): Books
    requires ActsOk(|b.places|, acts)
    decreases |acts|
  {
    if acts == [] then b else EnterAll(Enter(b, acts[0]), acts[1..])
  }

  function PoolOps(b: Books, acts: seq<Act>): (ops: seq<PoolOp>)
    requires ActsOk(|b.places|, acts)
    ensures |ops| == |acts|
    decreases |acts|
  {
    if acts == [] then [] else [AsPoolOp(b.places, acts[0])] + PoolOps(Enter(b, acts[0]), acts[1..])
  }

  /** Places are live slots, each once. */
  ghost predicate PlacesOk(b: Books) {
    && PoolOk(b.pool)
    && (forall i: nat :: i < |b.places| ==> b.places[i] in Live(b.pool))
    && (forall i: nat, j: nat :: i < j < |b.places| ==> b.places[i] != b.places[j])
  }

  lemma EnterKeepsPlaces(b: Books, act: Act)
    requires PlacesOk(b) && (act.Shrink? ==> act.place < |b.places|)
    ensures OpOk(b.pool, AsPoolOp(b.places, act)) && PlacesOk(Enter(b, act))
  {
    match act
    case Grow(_) => TakeIsNew(b.pool);
    case Shrink(k) => GiveFrees(b.pool, b.places[k]);
  }

  /** The account is that of a legal run of the pool: no slot is freed twice, and each call is counted. */
  lemma {:induction false} BooksArePoolRun(b: Books, acts: seq<Act>)
    requires PlacesOk(b) && ActsOk(|b.places|, acts)
    ensures var e := EnterAll(b, acts);
      && RunOk(b.pool, PoolOps(b, acts)) && e.pool == Run(b.pool, PoolOps(b, acts)) && PlacesOk(e)
      && e.allocs == b.allocs + Grown(acts) && e.frees == b.frees + Shrunk(acts)
    decreases |acts|
  {
    if acts != [] {
      EnterKeepsPlaces(b, acts[0]);
      BooksArePoolRun(Enter(b, acts[0]), acts[1..]);
      assert PoolOps(b, acts)[1..] == PoolOps(Enter(b, acts[0]), acts[1..]);
    }
  }

  lemma {:induction false} OneMoreAct(b: Books, acts: seq<Act>, act: Act)
    requires ActsOk(|b.places|, acts)
    requires act.Shrink? ==> act.place < |EnterAll(b, acts).places|
    requires act.Grow? ==> |EnterAll(b, acts).places| < MAX_LIVE
    ensures ActsOk(|b.places|, acts + [act]) && EnterAll(b, acts + [act]) == Enter(EnterAll(b, acts), act)
    decreases |acts|
  {
    if acts == [] {
      assert acts + [act] == [act];
    } else {
      OneMoreAct(Enter(b, acts[0]), acts[1..], act);
      assert (acts + [act])[1..] == acts[1..] + [act];
    }
  }
}
