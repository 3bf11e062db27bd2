/** The waiting loop of a call: it waits for a reply in rounds of doubling length, never past the
    final deadline. */
module RetryTimer {

  datatype Timespec = Timespec(sec: int, nsec: int)

  const BILLION := 1_000_000_000
  const MILLION := 1_000_000

  /** The length of the first round, in milliseconds. */
  const FIRST_ROUND := 1000

  /** What the operating system's clock returns. */
  predicate Reading(t: Timespec) {
    t.sec >= 0 && 0 <= t.nsec < BILLION
  }

  /** The instant that a time stands for. */
  function Nanos(t: Timespec): int {
    t.sec * BILLION + t.nsec
  }

  // ---------------------------------------------------------------- arithmetic on times

  /** Adding milliseconds. The carry is made only above a full second, so that the fraction may come
      out as exactly one second. */
  function Sum(a: Timespec, ms: nat): Timespec {
    var nsec := a.nsec + ms % 1000 * MILLION;
    if nsec > BILLION then Timespec(a.sec + ms / 1000 + 1, nsec - BILLION) else Timespec(a.sec + ms / 1000, nsec)
  }

  /** The sum stands for the right instant all the same. */
  lemma SumIsExact(a: Timespec, ms: nat)
    requires Reading(a)
    ensures Nanos(Sum(a, ms)) == Nanos(a) + ms * MILLION
    ensures Sum(a, ms).sec >= 0 && 0 <= Sum(a, ms).nsec <= BILLION
  {
  }

  method AddTimespec(a: Timespec, ms: nat) returns (r: Timespec)
    requires Reading(a)
    ensures r == Sum(a, ms)
  {
    var sec, nsec := a.sec + ms / 1000, a.nsec + ms % 1000 * MILLION;
    while nsec > BILLION
      invariant nsec <= BILLION || (sec == a.sec + ms / 1000 && nsec == a.nsec + ms % 1000 * MILLION)
      invariant Timespec(sec, nsec) == Sum(a, ms) || (sec == a.sec + ms / 1000 && nsec == a.nsec + ms % 1000 * MILLION)
      decreases nsec
    {
      sec, nsec := sec + 1, nsec - BILLION;
    }
    r := Timespec(sec, nsec);
  }

  function Compare(a: Timespec, b: Timespec): int {
    if a.sec > b.sec then 1
    else if a.sec < b.sec then -1
    else if a.nsec > b.nsec then 1
    else if a.nsec < b.nsec then -1
    else 0
  }

  /** One instant may have two forms, so the comparison is not exact, but it never takes a later
      instant for one that is earlier or the same. */
  lemma CompareIsSound(a: Timespec, b: Timespec)
    requires 0 <= a.nsec <= BILLION && 0 <= b.nsec <= BILLION
    ensures Nanos(a) > Nanos(b) ==> Compare(a, b) > 0
    ensures Compare(a, b) > 0 ==> Nanos(a) >= Nanos(b)
  {
  }

  /** `a` is the form of the instant `b` that lacks the carry. */
  predicate Uncarried(a: Timespec, b: Timespec) {
    a.nsec == BILLION && b == Timespec(a.sec + 1, 0)
  }

  /** The comparison is that of the instants exactly when neither argument is the uncarried form of
      the other. */
  lemma CompareIsExactIff(a: Timespec, b: Timespec)
    requires 0 <= a.nsec <= BILLION && 0 <= b.nsec <= BILLION
    ensures Compare(a, b) == (if Nanos(a) > Nanos(b) then 1 else if Nanos(a) < Nanos(b) then -1 else 0)
       <==> !Uncarried(a, b) && !Uncarried(b, a)
  {
    if Nanos(a) == Nanos(b) {
      assert a.sec == b.sec || a.sec == b.sec + 1 || b.sec == a.sec + 1;
    }
  }

  /** Half a second after 7.5 s is not recognised as 8 s. */
  lemma CompareIsNotExact()
    ensures var late := Sum(Timespec(7, 500 * MILLION), 500); var same := Timespec(8, 0);
      Nanos(late) == Nanos(same) && Compare(late, same) != 0
  {
  }

  /** When a sum comes out without the carry. */
  predicate LacksCarry(a: Timespec, ms: nat) {
    a.nsec + ms % 1000 * MILLION == BILLION
  }

  lemma SumLacksCarryIff(a: Timespec, ms: nat)
    requires Reading(a)
    ensures Sum(a, ms).nsec == BILLION <==> LacksCarry(a, ms)
  {
  }

  /** Whole seconds never do that. */
  lemma SecondsCarry(a: Timespec, n: nat)
    requires Reading(a)
    ensures Sum(a, FIRST_ROUND * n).nsec == a.nsec < BILLION
  {
    assert FIRST_ROUND * n % 1000 == 0;
  }

  // ---------------------------------------------------------------- how many rounds

  function Pow2(n: nat): (p: nat)
    ensures p >= 1
  {
    if n == 0 then 1 else 2 * Pow2(n - 1)
  }

  lemma {:induction false} Pow2Grows(m: nat, n: nat)
    requires m <= n
    ensures Pow2(m) <= Pow2(n)
  {
    if m < n {
      Pow2Grows(m, n - 1);
    }
  }

  /** The milliseconds that the first `n` rounds take when none is cut short. */
  function Elapsed(n: nat): nat {
    FIRST_ROUND * (Pow2(n) - 1)
  }

  lemma {:induction false} ElapsedGrows(n: nat)
    ensures Elapsed(n) >= FIRST_ROUND * n
  {
    if n > 0 {
      ElapsedGrows(n - 1);
    }
  }

  /** The least number of rounds, from `n` on, whose successor exceeds the timeout. */
  function BudgetFrom(limit: nat, n: nat): (k: nat)
    requires forall j :: 1 <= j <= n ==> Elapsed(j) <= limit
    ensures Elapsed(k + 1) > limit && forall j :: 1 <= j <= k ==> Elapsed(j) <= limit
    decreases limit + 1 - n
  {
    if Elapsed(n + 1) > limit then n
    else
      assert n < limit by { ElapsedGrows(n + 1); }
      BudgetFrom(limit, n + 1)
  }

  function Budget(limit: nat): (k: nat)
    ensures Elapsed(k + 1) > limit && forall j :: 1 <= j <= k ==> Elapsed(j) <= limit
  {
    BudgetFrom(limit, 0)
  }

  const INT_LIMIT := 0x8000_0000

  lemma TwentyOne()
    ensures Pow2(21) == 0x20_0000 && Pow2(22) == 0x40_0000
  {
    assert Pow2(5) == 32;
    assert Pow2(10) == 1024;
    assert Pow2(15) == 32768;
    assert Pow2(20) == 0x10_0000;
  }

  /** The longest round that the loop can come to fits an `int` exactly for the timeouts below
      2^21 - 1 first rounds, and so for every timeout up to 2^30. */
  lemma DoublingFits(limit: nat)
    ensures FIRST_ROUND * Pow2(Budget(limit) + 1) < INT_LIMIT <==> limit < Elapsed(21)
    ensures limit <= 0x4000_0000 ==> limit < Elapsed(21)
  {
    TwentyOne();
    var k := Budget(limit);
    if k >= 21 {
      Pow2Grows(22, k + 1);
      assert Elapsed(21) <= limit;
    } else {
      Pow2Grows(k + 1, 21);
    }
  }

  // ---------------------------------------------------------------- the loop

  /** What the environment does: the clock at the start of each round, whether the reply is there when
      the round begins, and whether it comes while the round waits. */
  datatype World = World(start: Timespec, clock: nat -> Timespec, ready: nat -> bool, replied: nat -> bool)

  /** The end of round `i` when it is not cut short, and the deadline that is really waited for. */
  function RoundEnd(w: World, i: nat): Timespec {
    Sum(w.clock(i), FIRST_ROUND * Pow2(i))
  }

  function Final(w: World, limit: nat): Timespec {
    Sum(w.start, limit)
  }

  predicate Last(w: World, limit: nat, i: nat) {
    Compare(RoundEnd(w, i), Final(w, limit)) > 0
  }

  function Deadline(w: World, limit: nat, i: nat): Timespec {
    if Last(w, limit, i) then Final(w, limit) else RoundEnd(w, i)
  }

  /** The operating system refuses a deadline whose fraction is a full second. The wait then fails at
      once, every time, with the lock of the call held, so that no reply can be taken. */
  predicate Refused(deadline: Timespec) {
    deadline.nsec >= BILLION
  }

  predicate AnsweredIn(w: World, limit: nat, i: nat) {
    w.ready(i) || (!Refused(Deadline(w, limit, i)) && w.replied(i))
  }

  /** The clock does not run backwards, and a wait does not time out before its deadline. */
  ghost predicate Sane(w: World, limit: nat) {
    && Reading(w.start)
    && (forall i :: Reading(w.clock(i)))
    && Nanos(w.clock(0)) >= Nanos(w.start)
    && (forall i :: 0 <= i && !Last(w, limit, i) && !AnsweredIn(w, limit, i) ==>
          Nanos(w.clock(i + 1)) >= Nanos(RoundEnd(w, i)))
  }

  /** Rounds `0..n` all ran to their own end without a reply. */
  ghost predicate Unanswered(w: World, limit: nat, n: nat) {
    forall i :: 0 <= i < n ==> !Last(w, limit, i) && !AnsweredIn(w, limit, i)
  }

  /** Only the final deadline can be refused, and it is refused exactly when adding the timeout to the
      start lacks the carry. */
  lemma RefusedIff(w: World, limit: nat, i: nat)
    requires Sane(w, limit)
    ensures Refused(Deadline(w, limit, i)) <==> Last(w, limit, i) && LacksCarry(w.start, limit)
  {
    SumLacksCarryIff(w.start, limit);
    SumIsExact(w.start, limit);
    SecondsCarry(w.clock(i), Pow2(i));
  }

  /** After `n` full rounds at least that much time has passed. */
  lemma {:induction false} TimePasses(w: World, limit: nat, n: nat)
    requires Sane(w, limit) && Unanswered(w, limit, n)
    ensures Nanos(w.clock(n)) >= Nanos(w.start) + Elapsed(n) * MILLION
  {
    if n > 0 {
      TimePasses(w, limit, n - 1);
      SumIsExact(w.clock(n - 1), FIRST_ROUND * Pow2(n - 1));
      assert !Last(w, limit, n - 1) && !AnsweredIn(w, limit, n - 1);
      assert w.clock(n) == w.clock((n - 1) + 1);
    }
  }

  /** A round that is not the last one ends in time, so it is one of the first `Budget` rounds. */
  lemma RoundsAreBounded(w: World, limit: nat, n: nat)
    requires Sane(w, limit) && Unanswered(w, limit, n) && !Last(w, limit, n)
    ensures n < Budget(limit)
  {
    TimePasses(w, limit, n);
    SumIsExact(w.clock(n), FIRST_ROUND * Pow2(n));
    SumIsExact(w.start, limit);
    CompareIsSound(RoundEnd(w, n), Final(w, limit));
    var k := Budget(limit);
    if n >= k {
      Pow2Grows(k + 1, n + 1);
    }
  }

  lemma DeadlinesInTime(w: World, limit: nat, i: nat)
    requires Sane(w, limit)
    ensures Nanos(Deadline(w, limit, i)) <= Nanos(Final(w, limit)) == Nanos(w.start) + limit * MILLION
  {
    SumIsExact(w.clock(i), FIRST_ROUND * Pow2(i));
    SumIsExact(w.start, limit);
    CompareIsSound(RoundEnd(w, i), Final(w, limit));
  }

  /** One more round without a reply. */
  lemma NextRound(w: World, limit: nat, n: nat)
    requires Sane(w, limit) && Unanswered(w, limit, n) && !Last(w, limit, n)
    ensures n < Budget(limit) && (!AnsweredIn(w, limit, n) ==> Unanswered(w, limit, n + 1))
  {
    RoundsAreBounded(w, limit, n);
  }

  lemma ClockReads(w: World, limit: nat, i: nat)
    requires Sane(w, limit)
    ensures Reading(w.clock(i)) && Reading(w.start)
  {
  }

  lemma Doubled(n: nat)
    ensures Pow2(n + 1) == 2 * Pow2(n) && Pow2(0) == 1
  {
  }

  /** The deadlines are those of the first rounds, only the last of which may have been answered. */
  ghost predicate Waited(w: World, limit: nat, deadlines: seq<Timespec>) {
    forall i :: 0 <= i < |deadlines| ==>
      deadlines[i] == Deadline(w, limit, i) && (i < |deadlines| - 1 ==> !AnsweredIn(w, limit, i))
  }

  /** How the loop ends: with the reply, with a timeout, or not at all. */
  datatype Outcome = Answered | TimedOut | Stuck

  /** The loop. It waits for at most one round more than the budget and never for a deadline behind the
      final one; it gives up only after it has waited for the final deadline, and it hangs in that wait
      exactly when the timeout added to the start lacks the carry and no reply came before. The
      length of the next round stays within the bound of `DoublingFits`. */
  method Wait(w: World, limit: nat) returns (outcome: Outcome, deadlines: seq<Timespec>, curr: nat)
    requires Sane(w, limit)
    ensures |deadlines| <= Budget(limit) + 1 && Waited(w, limit, deadlines)
    ensures forall i :: 0 <= i < |deadlines| ==> Nanos(deadlines[i]) <= Nanos(w.start) + limit * MILLION
    ensures outcome == Answered ==> deadlines != [] && AnsweredIn(w, limit, |deadlines| - 1)
    ensures outcome != Answered && Final(w, limit).sec != 0 ==>
      deadlines != [] && !AnsweredIn(w, limit, |deadlines| - 1) && deadlines[|deadlines| - 1] == Final(w, limit)
    ensures outcome == Stuck <==> outcome != Answered && Final(w, limit).sec != 0 && LacksCarry(w.start, limit)
    ensures Final(w, limit).sec == 0 ==> outcome == TimedOut && deadlines == []
    ensures curr <= FIRST_ROUND * Pow2(Budget(limit) + 1)
  {
    hide Sum, Compare, Budget, Pow2, Unanswered, Sane, Reading, Nanos, LacksCarry;
    ClockReads(w, limit, 0);
    var final := AddTimespec(w.start, limit);
    curr, deadlines, outcome := FIRST_ROUND, [], TimedOut;
    Pow2Grows(0, Budget(limit) + 1);
    Doubled(0);
    NoRoundYet(w, limit);
    while final.sec != 0
      invariant |deadlines| <= Budget(limit) + 1 && curr == FIRST_ROUND * Pow2(|deadlines|) && outcome == TimedOut
      invariant forall i :: 0 <= i < |deadlines| ==> deadlines[i] == Deadline(w, limit, i) && !AnsweredIn(w, limit, i)
      invariant Final(w, limit).sec == 0 ==> deadlines == []
      invariant final.sec != 0 ==> final == Final(w, limit) && Unanswered(w, limit, |deadlines|) && |deadlines| <= Budget(limit)
      invariant final.sec == 0 && Final(w, limit).sec != 0 ==>
        deadlines != [] && deadlines[|deadlines| - 1] == Final(w, limit) && !LacksCarry(w.start, limit)
      decreases Budget(limit) + 1 - |deadlines|
    {
      var i := |deadlines|;
      ClockReads(w, limit, i);
      RefusedIff(w, limit, i);
      var next := AddTimespec(w.clock(i), curr);
      if Compare(next, final) > 0 {
        next := final;
        final := final.(sec := 0);
      } else {
        NextRound(w, limit, i);
      }
      deadlines := deadlines + [next];
      if w.ready(i) {
        outcome := Answered;
        break;
      }
      if Refused(next) {
        outcome := Stuck;
        break;
      }
      if w.replied(i) {
        outcome := Answered;
        break;
      }
      Doubled(i);
      curr := 2 * curr;
    }
    forall i | 0 <= i < |deadlines|
      ensures Nanos(deadlines[i]) <= Nanos(w.start) + limit * MILLION
    {
      DeadlinesInTime(w, limit, i);
    }
    Pow2Grows(|deadlines| - if outcome != TimedOut then 1 else 0, Budget(limit) + 1);
  }

  lemma NoRoundYet(w: World, limit: nat)
    ensures Unanswered(w, limit, 0)
  {
  }

  /** A call that starts at 7.5 s with a timeout of half a second and gets no reply hangs. */
  lemma HangingCall() returns (w: World)
    ensures Sane(w, 500) && LacksCarry(w.start, 500) && Final(w, 500).sec != 0
    ensures forall i :: !AnsweredIn(w, 500, i)
  {
    var start := Timespec(7, 500 * MILLION);
    w := World(start, _ => start, _ => false, _ => false);
    forall i: nat
      ensures Last(w, 500, i) && Refused(Deadline(w, 500, i))
    {
      SecondsCarry(start, Pow2(i));
      SumIsExact(start, FIRST_ROUND * Pow2(i));
      SumIsExact(start, 500);
      CompareIsSound(RoundEnd(w, i), Final(w, 500));
    }
  }
}
