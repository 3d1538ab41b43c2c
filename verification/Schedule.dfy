/** Round-robin block production: which producer a slot belongs to, when the next round starts, and
    when a producer's turn comes next. */
module Schedule {

  const REPETITIONS := 12   // config::producer_repetitions

  /** The position in the schedule that a slot belongs to. */
  function Position(slot: nat, size: nat, reps: nat): (p: nat)
    requires size > 0 && reps > 0
    ensures p < size
  {
    var r := slot % (size * reps);
    assert r / reps < size;
    r / reps
  }

  function ExpectedProducer<P>(schedule: seq<P>, slot: nat): P
    requires schedule != []
  {
    schedule[Position(slot, |schedule|, REPETITIONS)]
  }

  // ----- arithmetic of rounds

  lemma {:induction false} DivUnique(a: nat, b: nat, q: nat, r: nat)
    requires b > 0 && a == q * b + r && r < b
    ensures a / b == q && a % b == r
  {
    Quotient(a, b, q, r, a / b, a % b);
  }

  lemma {:induction false} Quotient(a: nat, b: nat, q: nat, r: nat, q': nat, r': nat)
    requires a == q * b + r && r < b && a == q' * b + r' && r' < b
    ensures q == q' && r == r'
  {
    assert (q - q') * b == r' - r && (q' - q) * b == r - r';
    if q - q' >= 1 { AtLeast(q - q', b); }
    if q' - q >= 1 { AtLeast(q' - q, b); }
  }

  lemma {:induction false} AtLeast(k: nat, b: nat)
    requires k >= 1
    ensures k * b >= b
  {
    assert k * b == (k - 1) * b + b;
    assert (k - 1) * b >= 0;
  }

  /** Slots come in runs of equal position, and the runs cycle through the schedule. */
  lemma {:induction false} PositionByRun(slot: nat, size: nat, reps: nat)
    requires size > 0 && reps > 0
    ensures Position(slot, size, reps) == (slot / reps) % size
  {
    hide Position;
    var q := slot / reps;
    RunOf(slot, q / size, q % size, slot % reps, size, reps);
  }

  lemma {:induction false} RunOf(slot: nat, c: nat, d: nat, t: nat, size: nat, reps: nat)
    requires d < size && t < reps && slot == (c * size + d) * reps + t
    ensures Position(slot, size, reps) == d
  {
    Regroup(c, d, t, size, reps);
    DivUnique(slot, size * reps, c, d * reps + t);
    DivUnique(d * reps + t, reps, d, t);
  }

  /** Run `d` of round `c`, and its place within the round. */
  lemma {:induction false} Regroup(c: nat, d: nat, t: nat, size: nat, reps: nat)
    requires d < size && t < reps
    ensures (c * size + d) * reps + t == c * (size * reps) + (d * reps + t)
    ensures d * reps + t < size * reps
  {
    AtLeast(size - d, reps);
    assert (size - d) * reps == size * reps - d * reps;
    assert (c * size + d) * reps == c * size * reps + d * reps;
  }

  lemma {:induction false} DivBounds(s: nat, reps: nat, lo: nat, hi: nat)
    requires reps > 0 && lo * reps <= s < hi * reps
    ensures lo <= s / reps < hi
  {
    var q, r := s / reps, s % reps;
    assert s == q * reps + r;
    assert (lo - q) * reps == lo * reps - q * reps;
    if q < lo { AtLeast(lo - q, reps); }
    assert (q - hi) * reps == q * reps - hi * reps;
    if q > hi { AtLeast(q - hi, reps); }
  }

  lemma {:induction false} Periodic(slot: nat, size: nat, reps: nat)
    requires size > 0 && reps > 0
    ensures Position(slot + size * reps, size, reps) == Position(slot, size, reps)
  {
    var round := size * reps;
    DivUnique(slot + round, round, slot / round + 1, slot % round);
  }

  /** Producers take turns of twelve slots each, in the order of the schedule. */
  lemma {:induction false} ExpectedByRun<P>(schedule: seq<P>, slot: nat)
    requires schedule != []
    ensures ExpectedProducer(schedule, slot) == schedule[(slot / 12) % |schedule|]
  {
    PositionByRun(slot, |schedule|, REPETITIONS);
  }

  // ----- fairness

  /** How many of `len` consecutive slots belong to a position. */
  ghost function Turns(start: nat, len: nat, size: nat, reps: nat, p: nat): nat
    requires size > 0 && reps > 0
    decreases len
  {
    if len == 0 then 0
    else Turns(start, len - 1, size, reps, p) + if Position(start + len - 1, size, reps) == p then 1 else 0
  }

  lemma {:induction false} TurnsFront(start: nat, len: nat, size: nat, reps: nat, p: nat)
    requires size > 0 && reps > 0 && len > 0
    ensures Turns(start, len, size, reps, p)
         == (if Position(start, size, reps) == p then 1 else 0) + Turns(start + 1, len - 1, size, reps, p)
    decreases len
  {
    if len > 1 { TurnsFront(start, len - 1, size, reps, p); }
  }

  /** A round that starts a round: run after run. */
  lemma {:induction false} AlignedTurns(runs: nat, extra: nat, size: nat, reps: nat, p: nat)
    requires runs * reps + extra <= size * reps && extra <= reps
    requires reps > 0 && runs <= size && 0 < size && (extra > 0 ==> runs < size)
    ensures Turns(0, runs * reps + extra, size, reps, p)
         == (if p < runs then reps else 0) + (if p == runs then extra else 0)
    decreases runs, extra
  {
    if extra > 0 {
      AlignedTurns(runs, extra - 1, size, reps, p);
      var slot := runs * reps + extra - 1;
      DivUnique(slot, size * reps, 0, slot);
      DivUnique(slot, reps, runs, extra - 1);
    } else if runs > 0 {
      assert (runs - 1) * reps + reps == runs * reps;
      AlignedTurns(runs - 1, reps, size, reps, p);
    }
  }

  /** Fairness: any window of one round's length, wherever it starts, gives every position of the
      schedule exactly its repetitions. */
  lemma {:induction false} Fairness(start: nat, size: nat, reps: nat, p: nat)
    requires p < size && reps > 0
    ensures Turns(start, size * reps, size, reps, p) == reps
    decreases start
  {
    var round := size * reps;
    if start == 0 {
      AlignedTurns(size, 0, size, reps, p);
    } else {
      Fairness(start - 1, size, reps, p);
      TurnsFront(start - 1, round, size, reps, p);
      Periodic(start - 1, size, reps);
    }
  }

  /** How many of `len` consecutive slots a producer is expected in. */
  ghost function SlotsOf<P>(schedule: seq<P>, start: nat, len: nat, producer: P): nat
    requires schedule != []
    decreases len
  {
    if len == 0 then 0
    else SlotsOf(schedule, start, len - 1, producer)
         + if ExpectedProducer(schedule, start + len - 1) == producer then 1 else 0
  }

  lemma {:induction false} SlotsAreTurns<P>(schedule: seq<P>, start: nat, len: nat, i: nat)
    requires i < |schedule| && forall j, k :: 0 <= j < k < |schedule| ==> schedule[j] != schedule[k]
    ensures SlotsOf(schedule, start, len, schedule[i]) == Turns(start, len, |schedule|, REPETITIONS, i)
    decreases len
  {
    hide Position;
    if len > 0 { SlotsAreTurns(schedule, start, len - 1, i); }
  }

  /** In any window of one round's length, every producer of the schedule is expected in exactly
      twelve slots. */
  lemma {:induction false} ExpectedFairly<P>(schedule: seq<P>, start: nat, i: nat)
    requires i < |schedule| && forall j, k :: 0 <= j < k < |schedule| ==> schedule[j] != schedule[k]
    ensures SlotsOf(schedule, start, |schedule| * 12, schedule[i]) == 12
  {
    SlotsAreTurns(schedule, start, |schedule| * REPETITIONS, i);
    Fairness(start, |schedule|, REPETITIONS, i);
  }

  // ----- the first block of the next round

  /** The search of `calc_block_num_of_next_round_first_block`. */
  method NextRoundFirstBlock(head: nat, size: nat, reps: nat) returns (res: nat)
    requires size > 0 && reps > 0
    ensures head < res <= head + size * reps
    ensures res % (size * reps) == 0
    ensures forall b :: head < b < res ==> b % (size * reps) != 0
  {
    res := head + 1;
    var round := size * reps;
    ghost var next := (head / round + 1) * round;
    DivUnique(next, round, head / round + 1, 0);
    while res % round != 0
      invariant head < res <= next
      invariant forall b :: head < b < res ==> b % round != 0
      decreases next - res
    {
      res := res + 1;
    }
  }

  /** The first block of a round is the first producer's, the one before it the last producer's. */
  lemma {:induction false} RoundBoundary(slot: nat, size: nat, reps: nat)
    requires size > 0 && reps > 0 && slot > 0 && slot % (size * reps) == 0
    ensures Position(slot, size, reps) == 0 && Position(slot - 1, size, reps) == size - 1
  {
    var round, c := size * reps, slot / (size * reps);
    assert slot == c * round;
    assert c > 0;
    assert slot - 1 == (c - 1) * round + (round - 1);
    DivUnique(slot - 1, round, c - 1, round - 1);
    DivUnique(round - 1, reps, size - 1, reps - 1);
  }

  // ----- a producer's next slot

  const WORD := 0x1_0000_0000_0000_0000   // size_t wraps at 64 bits

  /** The number of runs from one position to another, with the source's unsigned subtraction and
      its check for underflow. */
  function Distance(index: nat, from: nat, size: nat): nat {
    var d := (index - from) % WORD;
    if d > index then (d + size) % WORD else d
  }

  lemma {:induction false} DistanceIsCyclic(index: nat, from: nat, size: nat)
    requires index < size && from < size && size < WORD / 2
    ensures Distance(index, from, size) == if from <= index then index - from else index - from + size
  {
    if from > index {
      assert (index - from) % WORD == index - from + WORD;
      assert (index - from + WORD + size) % WORD == index - from + size;
    }
  }

  /** The slot search of `calculate_next_block_time`, from the first slot allowed. */
  function NextSlot(minimum: nat, index: nat, size: nat, reps: nat): nat
    requires index < size && reps > 0
  {
    var from := Position(minimum, size, reps);
    if index == from then minimum
    else minimum - minimum % reps + Distance(index, from, size) * reps
  }

  /** It finds the earliest slot, at or after the minimum, that belongs to the producer. */
  lemma {:induction false} NextSlotIsEarliest(minimum: nat, index: nat, size: nat, reps: nat)
    requires index < size < WORD / 2 && reps > 0
    ensures minimum <= NextSlot(minimum, index, size, reps)
    ensures Position(NextSlot(minimum, index, size, reps), size, reps) == index
    ensures forall s :: minimum <= s < NextSlot(minimum, index, size, reps) ==> Position(s, size, reps) != index
  {
    hide Position, Distance;
    var from := Position(minimum, size, reps);
    if index != from {
      DistanceIsCyclic(index, from, size);
      var q, d := minimum / reps, Distance(index, from, size);
      var next := NextSlot(minimum, index, size, reps);
      PositionByRun(minimum, size, reps);
      assert next == (q + d) * reps && minimum < (q + 1) * reps <= next by { Aligned(minimum, d, reps); }
      Arrives(next, q, d, from, index, size, reps);
      forall s | minimum <= s < next ensures Position(s, size, reps) != index {
        NotYet(s, minimum, index, d, size, reps);
      }
    }
  }

  lemma {:induction false} Aligned(minimum: nat, d: nat, reps: nat)
    requires reps > 0 && d > 0
    ensures var q := minimum / reps;
            && minimum - minimum % reps + d * reps == (q + d) * reps
            && minimum < (q + 1) * reps <= (q + d) * reps
  {
    var q := minimum / reps;
    assert (q + d) * reps == q * reps + d * reps && (q + 1) * reps == q * reps + reps;
    AtLeast(d, reps);
  }

  lemma {:induction false} Arrives(next: nat, q: nat, d: nat, from: nat, index: nat, size: nat, reps: nat)
    requires reps > 0 && index < size && d < size && next == (q + d) * reps && from == q % size
    requires d == if from <= index then index - from else index - from + size
    ensures Position(next, size, reps) == index
  {
    hide Position;
    DivUnique(next, reps, q + d, 0);
    PositionByRun(next, size, reps);
    RunsAhead(q, d, size);
  }

  /** No slot less than `d` runs ahead is the producer's. */
  lemma {:induction false} NotYet(s: nat, minimum: nat, index: nat, d: nat, size: nat, reps: nat)
    requires reps > 0 && index < size && d < size && minimum <= s < (minimum / reps + d) * reps
    requires var from := Position(minimum, size, reps); d == if from <= index then index - from else index - from + size
    ensures Position(s, size, reps) != index
  {
    hide Position;
    var q := minimum / reps;
    DivBounds(s, reps, q, q + d);
    PositionByRun(minimum, size, reps);
    PositionByRun(s, size, reps);
    RunsAhead(q, s / reps - q, size);
  }

  /** Going `d` runs ahead, less than a round, moves the position by `d` around the schedule. */
  lemma {:induction false} RunsAhead(q: nat, d: nat, size: nat)
    requires d < size
    ensures (q + d) % size == if q % size + d < size then q % size + d else q % size + d - size
  {
    var c, r := q / size, q % size;
    assert q == c * size + r;
    if r + d < size {
      DivUnique(q + d, size, c, r + d);
    } else {
      assert (c + 1) * size == c * size + size;
      DivUnique(q + d, size, c + 1, r + d - size);
    }
  }
}
