/** The sample history of the DDR monitor: a ring of fixed size that stands for the most recent samples. */
module HistoryRing {
  import opened Options

  const MAX_HISTORY: nat := 1000

  /** memory_sample_t, with reals for its floating-point fields. */
  datatype Sample = Sample(
    timestamp: real, usedMemory: nat, totalMemory: nat, frequency: nat, temperature: nat, errors: nat,
    usagePercent: real)

  /** The last MAX_HISTORY samples, or all of them if there are fewer. */
  function Recent(log: seq<Sample>): seq<Sample> {
    if |log| <= MAX_HISTORY then log else log[|log| - MAX_HISTORY..]
  }

  /** These are at most 1000, and the newest is the last of them. */
  lemma RecentExactly(log: seq<Sample>)
    ensures |Recent(log)| == if |log| <= 1000 then |log| else 1000
    ensures forall i :: 0 <= i < |Recent(log)| ==> Recent(log)[i] == log[|log| - |Recent(log)| + i]
  {}

  // ---- Statistics of a list of samples --------------------------------------------------------

  function Sum(s: seq<Sample>): real {
    if s == [] then 0.0 else s[0].usagePercent + Sum(s[1..])
  }

  function Lower(a: real, b: real): real {
    if b < a then b else a
  }

  function Higher(a: real, b: real): real {
    if b > a then b else a
  }

  /** The least usage of the samples, but no more than `bound`. */
  function Least(s: seq<Sample>, bound: real): real {
    if s == [] then bound else Lower(Least(s[1..], bound), s[0].usagePercent)
  }

  /** The greatest usage of the samples, but no less than `bound`. */
  function Greatest(s: seq<Sample>, bound: real): real {
    if s == [] then bound else Higher(Greatest(s[1..], bound), s[0].usagePercent)
  }

  /** The statistics do not depend on where a list is cut and turned around. */
  lemma {:induction false} StatisticsAppend(a: seq<Sample>, b: seq<Sample>, lo: real, hi: real)
    ensures Sum(a + b) == Sum(a) + Sum(b)
    ensures Least(a + b, lo) == Lower(Least(a, lo), Least(b, lo))
    ensures Greatest(a + b, hi) == Higher(Greatest(a, hi), Greatest(b, hi))
    ensures Least(b, lo) <= lo && Greatest(b, hi) >= hi
  {
    if a == [] {
      assert a + b == b;
      Bounds(b, lo, hi);
    } else {
      assert (a + b)[1..] == a[1..] + b;
      StatisticsAppend(a[1..], b, lo, hi);
    }
  }

  lemma {:induction false} Bounds(s: seq<Sample>, lo: real, hi: real)
    ensures Least(s, lo) <= lo && Greatest(s, hi) >= hi
  {
    if s != [] { Bounds(s[1..], lo, hi); }
  }

  lemma {:induction false} LeastGreatest(s: seq<Sample>, lo: real, hi: real)
    ensures forall i :: 0 <= i < |s| ==> Least(s, lo) <= s[i].usagePercent <= Greatest(s, hi)
    ensures Least(s, lo) == lo || exists i :: 0 <= i < |s| && s[i].usagePercent == Least(s, lo)
    ensures Greatest(s, hi) == hi || exists i :: 0 <= i < |s| && s[i].usagePercent == Greatest(s, hi)
  {
    if s != [] {
      LeastGreatest(s[1..], lo, hi);
      forall i | 0 <= i < |s| ensures Least(s, lo) <= s[i].usagePercent <= Greatest(s, hi) {
        if i > 0 { assert s[i] == s[1..][i - 1]; }
      }
      if Least(s, lo) != lo && Least(s, lo) != s[0].usagePercent {
        var i :| 0 <= i < |s| - 1 && s[1..][i].usagePercent == Least(s[1..], lo);
        assert s[i + 1].usagePercent == Least(s, lo);
      }
      if Greatest(s, hi) != hi && Greatest(s, hi) != s[0].usagePercent {
        var i :| 0 <= i < |s| - 1 && s[1..][i].usagePercent == Greatest(s[1..], hi);
        assert s[i + 1].usagePercent == Greatest(s, hi);
      }
    }
  }

  /** The sum of the usages lies between the number of samples times any lower and any upper bound of them. */
  lemma {:induction false} SumBetween(s: seq<Sample>, lo: real, hi: real)
    requires forall i :: 0 <= i < |s| ==> lo <= s[i].usagePercent <= hi
    ensures |s| as real * lo <= Sum(s) <= |s| as real * hi
  {
    if s != [] {
      var n := |s| as real;
      SumBetween(s[1..], lo, hi);
      assert |s[1..]| as real == n - 1.0;
      assert (n - 1.0) * lo == n * lo - lo && (n - 1.0) * hi == n * hi - hi;
    }
  }

  /** The mean of the samples lies between their minimum and their maximum. */
  lemma MeanBetween(s: seq<Sample>, lo: real, hi: real)
    requires s != [] && forall i :: 0 <= i < |s| ==> lo <= s[i].usagePercent <= hi
    ensures lo <= Sum(s) / |s| as real <= hi
  {
    SumBetween(s, lo, hi);
    Quotient(Sum(s), |s| as real, lo, hi);
  }

  lemma Quotient(x: real, n: real, lo: real, hi: real)
    requires n > 0.0 && n * lo <= x <= n * hi
    ensures lo <= x / n <= hi
  {
    var q := x / n;
    assert q * n == x;
    NonNegative(q - lo, n);
    NonNegative(hi - q, n);
  }

  lemma NonNegative(d: real, n: real)
    requires n > 0.0 && d * n >= 0.0
    ensures d >= 0.0
  {}

  /** m is the least usage of the samples. */
  ghost predicate IsMinimum(s: seq<Sample>, m: real) {
    && (forall i :: 0 <= i < |s| ==> m <= s[i].usagePercent)
    && exists i :: 0 <= i < |s| && s[i].usagePercent == m
  }

  ghost predicate IsMaximum(s: seq<Sample>, m: real) {
    && (forall i :: 0 <= i < |s| ==> s[i].usagePercent <= m)
    && exists i :: 0 <= i < |s| && s[i].usagePercent == m
  }

  /** The code starts its minimum at 100 and its maximum at 0. These are the minimum and the maximum of the
      samples if and only if some usage is at most 100, respectively at least 0. */
  lemma StartValuesExactly(s: seq<Sample>)
    ensures IsMinimum(s, Least(s, 100.0)) <==> exists i :: 0 <= i < |s| && s[i].usagePercent <= 100.0
    ensures IsMaximum(s, Greatest(s, 0.0)) <==> exists i :: 0 <= i < |s| && s[i].usagePercent >= 0.0
  {
    LeastGreatest(s, 100.0, 0.0);
    Bounds(s, 100.0, 0.0);
  }

  /** The occupied slots of a ring, from the oldest sample on. */
  function WindowOf(slots: seq<Sample>, head: nat, count: nat): seq<Sample>
    requires |slots| == MAX_HISTORY && head < MAX_HISTORY && count <= MAX_HISTORY
  {
    if count < MAX_HISTORY then slots[..count] else slots[head..] + slots[..head]
  }

  /** The ring stands for the most recent samples of the log. */
  ghost predicate Holds(slots: seq<Sample>, head: nat, tail: nat, count: nat, log: seq<Sample>) {
    && |slots| == MAX_HISTORY && head < MAX_HISTORY
    && count == |Recent(log)|
    && tail == (head + count) % MAX_HISTORY
    && (count < MAX_HISTORY ==> head == 0)
    && WindowOf(slots, head, count) == Recent(log)
  }

  lemma RecentSnoc(log: seq<Sample>, sample: Sample)
    ensures Recent(log + [sample]) ==
            if |log| < MAX_HISTORY then Recent(log) + [sample] else Recent(log)[1..] + [sample]
  {}

  /** The positions after one more sample. */
  lemma Moves(head: nat, count: nat)
    requires head < MAX_HISTORY && count <= MAX_HISTORY && (count < MAX_HISTORY ==> head == 0)
    ensures var tail := (head + count) % MAX_HISTORY;
            if count < MAX_HISTORY then tail == count && (tail + 1) % MAX_HISTORY == (head + count + 1) % MAX_HISTORY
            else tail == head && (tail + 1) % MAX_HISTORY == ((head + 1) % MAX_HISTORY + count) % MAX_HISTORY
  {}

  /** Filling the next free slot adds to the window. */
  lemma Fill(slots: seq<Sample>, count: nat, sample: Sample)
    requires |slots| == MAX_HISTORY && count < MAX_HISTORY
    ensures WindowOf(slots[count := sample], 0, count + 1) == WindowOf(slots, 0, count) + [sample]
  {}

  /** Overwriting the oldest slot of a full ring turns the window by one. */
  lemma Turn(slots: seq<Sample>, head: nat, sample: Sample)
    requires |slots| == MAX_HISTORY && head < MAX_HISTORY
    ensures WindowOf(slots[head := sample], (head + 1) % MAX_HISTORY, MAX_HISTORY)
            == WindowOf(slots, head, MAX_HISTORY)[1..] + [sample]
  {}

  /** The two branches of history_add on values. */
  lemma FillHolds(slots: seq<Sample>, head: nat, tail: nat, count: nat, log: seq<Sample>, sample: Sample)
    requires Holds(slots, head, tail, count, log) && count < MAX_HISTORY
    ensures tail < MAX_HISTORY
    ensures Holds(slots[tail := sample], head, (tail + 1) % MAX_HISTORY, count + 1, log + [sample])
  {
    RecentSnoc(log, sample);
    Moves(head, count);
    Fill(slots, count, sample);
  }

  lemma TurnHolds(slots: seq<Sample>, head: nat, tail: nat, count: nat, log: seq<Sample>, sample: Sample)
    requires Holds(slots, head, tail, count, log) && count == MAX_HISTORY
    ensures Holds(slots[head := sample], (head + 1) % MAX_HISTORY, (tail + 1) % MAX_HISTORY, count, log + [sample])
  {
    RecentSnoc(log, sample);
    Moves(head, count);
    Turn(slots, head, sample);
  }

  /** Usages between 0 and 100 percent. */
  lemma UsagesInRange(s: seq<Sample>)
    requires s != []
    ensures (forall x <- s :: 0.0 <= x.usagePercent <= 100.0) ==>
              && IsMinimum(s, Least(s, 100.0)) && IsMaximum(s, Greatest(s, 0.0))
              && Least(s, 100.0) <= Sum(s) / |s| as real <= Greatest(s, 0.0)
  {
    if forall x <- s :: 0.0 <= x.usagePercent <= 100.0 {
      assert s[0] in s;
      StartValuesExactly(s);
      MeanBetween(s, Least(s, 100.0), Greatest(s, 0.0));
    }
  }

  // ---- The ring -------------------------------------------------------------------------------

  class History {
    ghost var log: seq<Sample>  // every sample added since the last initialization
    const samples: array<Sample>
    var count: nat
    var head: nat
    var tail: nat

    ghost predicate Valid()
      reads this, samples
    {
      Holds(samples[..], head, tail, count, log)
    }

    constructor (blank: Sample)
      ensures Valid() && log == [] && samples.Length == 1000 && count == 0 && head == 0 && tail == 0
    {
      samples := new Sample[MAX_HISTORY](_ => blank);
      count, head, tail, log := 0, 0, 0, [];
    }

    /** history_init on a ring in use. */
    method Init(blank: Sample)
      requires samples.Length == MAX_HISTORY
      modifies this, samples
      ensures Valid() && log == [] && count == 0 && head == 0 && tail == 0
      ensures forall i :: 0 <= i < samples.Length ==> samples[i] == blank
    {
      forall i | 0 <= i < MAX_HISTORY { samples[i] := blank; }
      count, head, tail, log := 0, 0, 0, [];
    }

    /** history_add: on every run the ring holds the last MAX_HISTORY samples. */
    method Add(sample: Sample)
      requires Valid()
      modifies this, samples
      ensures Valid() && log == old(log) + [sample] && samples.Length == 1000
      ensures count == if old(count) < 1000 then old(count) + 1 else 1000
      ensures head == if old(count) < 1000 then old(head) else (old(head) + 1) % 1000
      ensures samples[if old(count) < 1000 then old(count) else old(head)] == sample
    {
      ghost var before := samples[..];
      if count < MAX_HISTORY {
        FillHolds(before, head, tail, count, log, sample);
        samples[tail] := sample;
        assert samples[..] == before[tail := sample];
        tail := (tail + 1) % MAX_HISTORY;
        count := count + 1;
      } else {
        TurnHolds(before, head, tail, count, log, sample);
        samples[head] := sample;
        assert samples[..] == before[head := sample];
        head := (head + 1) % MAX_HISTORY;
        tail := (tail + 1) % MAX_HISTORY;
      }
      log := log + [sample];
    }

    /** The slot that the graph reads in column `column`: the samples of the window, oldest first. */
    method ColumnSample(column: nat) returns (s: Option<Sample>)
      requires Valid() && column < MAX_HISTORY
      ensures s == if column < |Recent(log)| then Some(Recent(log)[column]) else None
    {
      var i := (head + column) % MAX_HISTORY;
      if i < count {
        s := Some(samples[i]);
        if count == MAX_HISTORY {
          assert WindowOf(samples[..], head, count)[column] ==
                 if column < MAX_HISTORY - head then samples[head + column]
                 else samples[column - (MAX_HISTORY - head)];
        }
      } else {
        s := None;
      }
    }

    /** history_get_stats: the loop walks the physical slots, the result is about the window. */
    method GetStats() returns (min: real, max: real, avg: real)
      requires Valid()
      ensures log == [] ==> min == 0.0 && max == 0.0 && avg == 0.0
      ensures log != [] ==>
                && min == Least(Recent(log), 100.0) && max == Greatest(Recent(log), 0.0)
                && avg == Sum(Recent(log)) / |Recent(log)| as real
      ensures log != [] && (forall s <- Recent(log) :: 0.0 <= s.usagePercent <= 100.0) ==>
                && IsMinimum(Recent(log), min) && IsMaximum(Recent(log), max) && min <= avg <= max
    {
      if count == 0 {
        return 0.0, 0.0, 0.0;
      }
      min, max, avg := 100.0, 0.0, 0.0;
      var i := 0;
      while i < count
        invariant i <= count
        invariant min == Least(samples[..i], 100.0) && max == Greatest(samples[..i], 0.0)
        invariant avg == Sum(samples[..i])
      {
        var usage := samples[i].usagePercent;
        assert samples[..i + 1] == samples[..i] + [samples[i]];
        StatisticsAppend(samples[..i], [samples[i]], 100.0, 0.0);
        Bounds(samples[..i], 100.0, 0.0);
        if usage < min { min := usage; }
        if usage > max { max := usage; }
        avg := avg + usage;
        i := i + 1;
      }
      if count == MAX_HISTORY {
        assert samples[..count] == samples[..head] + samples[head..];
        assert WindowOf(samples[..], head, count) == samples[head..] + samples[..head];
        StatisticsAppend(samples[..head], samples[head..], 100.0, 0.0);
        StatisticsAppend(samples[head..], samples[..head], 100.0, 0.0);
      }
      assert count < MAX_HISTORY ==> WindowOf(samples[..], head, count) == samples[..count];
      avg := avg / count as real;
      UsagesInRange(Recent(log));
    }
  }
}
