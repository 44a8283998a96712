// The computation of bin/Debug/runtimes_and_successes.py before its
// printing and plotting: per number of agents and solver, the success rate
// over the rows where the solver was run, and the average runtime over the
// rows that every relevant solver (success rate above 0.1) solved.
//
// A CSV row is a map from column name to cell, with its file's header; the
// two Counter-of-Counter tables are maps keyed by (number of agents,
// solver); int() and float() are the parameters parseInt and parseReal;
// floats are reals.

module RuntimesAndSuccesses {
  import opened Wrappers

  type Key = (int, string)

  datatype Record = Record(fieldnames: seq<string>, row: map<string, string>)

  /** What one row says: its number of agents, the solvers run on it, those
      that succeeded, and the runtimes of the solvers with a runtime column. */
  datatype RowStats = RowStats(agents: int, run: set<string>, succeeded: set<string>, runtimes: map<string, real>)

  const NUM_AGENTS: string := "Num Of Agents"
  const COST_SUFFIX: string := " Solution Cost"
  const SUCCESS_SUFFIX: string := " Success"
  const RUNTIME_SUFFIX: string := " Runtime"
  const IRRELEVANT: string := "irrelevant"

  predicate EndsWith(s: string, suffix: string)
  {
    |suffix| <= |s| && s[|s| - |suffix|..] == suffix
  }

  /** Python's s[:-n]. */
  function Strip(s: string, n: nat): string
  {
    if n <= |s| then s[..|s| - n] else ""
  }

  predicate IsCostColumn(c: string) { EndsWith(c, COST_SUFFIX) }
  predicate IsSuccessColumn(c: string) { EndsWith(c, "Success") }
  predicate IsRuntimeColumn(c: string) { EndsWith(c, "Runtime") && !EndsWith(c, "Average Runtime") }

  /** A column of the row that its header also names. */
  predicate InRow(rec: Record, c: string)
  {
    c in rec.row && c in rec.fieldnames
  }

  /** Python's column selections with the suffix dropped: a solver is run
      unless its cost cell reads "irrelevant". */
  function SolversRun(rec: Record): set<string>
  {
    set c | c in rec.row && InRow(rec, c) && IsCostColumn(c) && rec.row[c] != IRRELEVANT :: Strip(c, |COST_SUFFIX|)
  }

  /** Every success cell is an integer. */
  predicate SuccessesParse(rec: Record, parseInt: string -> Option<int>)
  {
    forall c :: c in rec.row && InRow(rec, c) && IsSuccessColumn(c) ==> parseInt(rec.row[c]).Some?
  }

  function SolversSucceeded(rec: Record, parseInt: string -> Option<int>): set<string>
  {
    set c | c in rec.row && InRow(rec, c) && IsSuccessColumn(c) && parseInt(rec.row[c]) == Some(1) :: Strip(c, |SUCCESS_SUFFIX|)
  }

  /** Every runtime column ends in " Runtime", so its solver name is unique. */
  predicate SpacedRuntimes(rec: Record)
  {
    forall c :: c in rec.row && InRow(rec, c) && IsRuntimeColumn(c) ==> EndsWith(c, RUNTIME_SUFFIX)
  }

  predicate RuntimesParse(rec: Record, parseReal: string -> Option<real>)
  {
    forall c :: c in rec.row && InRow(rec, c) && IsRuntimeColumn(c) ==> parseReal(rec.row[c]).Some?
  }

  lemma StripInjective(a: string, b: string, suffix: string)
    requires EndsWith(a, suffix) && EndsWith(b, suffix) && Strip(a, |suffix|) == Strip(b, |suffix|)
    ensures a == b
  {
    assert a == a[..|a| - |suffix|] + a[|a| - |suffix|..];
    assert b == b[..|b| - |suffix|] + b[|b| - |suffix|..];
  }

  function Runtimes(rec: Record, parseReal: string -> Option<real>): map<string, real>
    requires SpacedRuntimes(rec) && RuntimesParse(rec, parseReal)
  {
    var cols := set c | c in rec.row && InRow(rec, c) && IsRuntimeColumn(c);
    assert forall a, b :: a in cols && b in cols && Strip(a, |RUNTIME_SUFFIX|) == Strip(b, |RUNTIME_SUFFIX|) ==> a == b by {
      forall a, b | a in cols && b in cols && Strip(a, |RUNTIME_SUFFIX|) == Strip(b, |RUNTIME_SUFFIX|) ensures a == b {
        StripInjective(a, b, RUNTIME_SUFFIX);
      }
    }
    map c | c in cols :: Strip(c, |RUNTIME_SUFFIX|) := parseReal(rec.row[c]).value
  }

  /** The try block of either pass: KeyError without the agents column,
      ValueError for a cell int() or float() rejects. The first pass reads no
      runtimes. */
  function ParseRow(rec: Record, parseInt: string -> Option<int>, parseReal: string -> Option<real>, withRuntimes: bool): Result<RowStats>
    requires withRuntimes ==> SpacedRuntimes(rec)
  {
    if NUM_AGENTS !in rec.row then Err(KeyError)
    else if parseInt(rec.row[NUM_AGENTS]).None? then Err(ValueError)
    else if !SuccessesParse(rec, parseInt) then Err(ValueError)
    else if withRuntimes && !RuntimesParse(rec, parseReal) then Err(ValueError)
    else Ok(RowStats(parseInt(rec.row[NUM_AGENTS]).value, SolversRun(rec), SolversSucceeded(rec, parseInt),
                     if withRuntimes then Runtimes(rec, parseReal) else map[]))
  }

  /** Every row parsed, or the error of the first row that does not. */
  function ParseAll(recs: seq<Record>, parseInt: string -> Option<int>, parseReal: string -> Option<real>, withRuntimes: bool): Result<seq<RowStats>>
    requires withRuntimes ==> forall i :: 0 <= i < |recs| ==> SpacedRuntimes(recs[i])
  {
    if |recs| == 0 then Ok([])
    else match ParseAll(recs[..|recs| - 1], parseInt, parseReal, withRuntimes)
      case Err(e) => Err(e)
      case Ok(p) =>
        match ParseRow(recs[|recs| - 1], parseInt, parseReal, withRuntimes)
        case Err(e) => Err(e)
        case Ok(st) => Ok(p + [st])
  }

  /** A solver counts as run exactly when its cost cell is there and is not
      "irrelevant". */
  lemma SolversRunIff(rec: Record, solver: string)
    ensures solver in SolversRun(rec) <==>
      var c := solver + COST_SUFFIX; InRow(rec, c) && rec.row[c] != IRRELEVANT
  {
    var c := solver + COST_SUFFIX;
    assert Strip(c, |COST_SUFFIX|) == solver;
    if solver in SolversRun(rec) {
      var c' :| c' in rec.row && InRow(rec, c') && IsCostColumn(c') && rec.row[c'] != IRRELEVANT && Strip(c', |COST_SUFFIX|) == solver;
      StripInjective(c', c, COST_SUFFIX);
    }
  }

  /** Averaged runtime columns are never read as runtimes. */
  lemma AverageRuntimeExcluded(c: string)
    requires EndsWith(c, "Average Runtime")
    ensures !IsRuntimeColumn(c)
  {
  }

  // ---------------------------------------------------------------------
  // Counting

  /** Counter lookup: a missing key counts 0. */
  function Get0(m: map<Key, nat>, k: Key): nat
  {
    if k in m then m[k] else 0
  }

  /** Which solvers of a row a Counter counts: those run, those that
      succeeded, or those whose runtimes a fair row adds. */
  datatype Tally = Runs | Successes | TimedUnder(rates: map<Key, real>)

  function Chosen(st: RowStats, t: Tally): set<string>
  {
    match t
    case Runs => st.run
    case Successes => st.succeeded
    case TimedUnder(rates) => Timed(st, rates)
  }

  /** The rows with n agents whose chosen solvers include the solver. */
  function Occurrences(stats: seq<RowStats>, k: Key, t: Tally): nat
  {
    if |stats| == 0 then 0
    else
      var last := stats[|stats| - 1];
      Occurrences(stats[..|stats| - 1], k, t) + (if last.agents == k.0 && k.1 in Chosen(last, t) then 1 else 0)
  }

  /** m is the Counter of the chosen sets per number of agents. */
  ghost predicate Tallies(m: map<Key, nat>, stats: seq<RowStats>, t: Tally)
  {
    (forall k :: k in m ==> m[k] > 0)
    && forall k :: Get0(m, k) == Occurrences(stats, k, t)
  }

  /** Counter.update with one row's solvers. */
  function Bump(m: map<Key, nat>, n: int, solvers: set<string>): (r: map<Key, nat>)
    ensures forall k :: Get0(r, k) == Get0(m, k) + (if k.0 == n && k.1 in solvers then 1 else 0)
    ensures forall k :: k in r <==> k in m || (k.0 == n && k.1 in solvers)
  {
    var keys := m.Keys + set s | s in solvers :: (n, s);
    map k | k in keys :: Get0(m, k) + (if k.0 == n && k.1 in solvers then 1 else 0)
  }

  lemma TallyStep(m: map<Key, nat>, stats: seq<RowStats>, st: RowStats, t: Tally)
    requires Tallies(m, stats, t)
    ensures Tallies(Bump(m, st.agents, Chosen(st, t)), stats + [st], t)
  {
    var s2 := stats + [st];
    assert s2[..|s2| - 1] == stats;
  }

  /** At most as many successes as runs, when no row reports a success for
      a solver it did not run. */
  lemma {:induction false} SuccessesWithinRuns(stats: seq<RowStats>, k: Key)
    requires forall i :: 0 <= i < |stats| ==> stats[i].succeeded <= stats[i].run
    ensures Occurrences(stats, k, Successes) <= Occurrences(stats, k, Runs)
  {
    if |stats| > 0 {
      SuccessesWithinRuns(stats[..|stats| - 1], k);
    }
  }

  /** Lines 19-34: the run and success Counters over all rows. */
  method CountRunsAndSuccesses(recs: seq<Record>, parseInt: string -> Option<int>, parseReal: string -> Option<real>)
    returns (r: Result<(map<Key, nat>, map<Key, nat>)>)
    ensures ParseAll(recs, parseInt, parseReal, false).Err? <==> r.Err?
    ensures r.Ok? ==> var stats := ParseAll(recs, parseInt, parseReal, false).value;
      Tallies(r.value.0, stats, Runs) && Tallies(r.value.1, stats, Successes)
  {
    var runs: map<Key, nat> := map[];
    var successes: map<Key, nat> := map[];
    var stats: seq<RowStats> := [];
    var i := 0;
    while i < |recs|
      invariant 0 <= i <= |recs| && ParseAll(recs[..i], parseInt, parseReal, false) == Ok(stats)
      invariant Tallies(runs, stats, Runs) && Tallies(successes, stats, Successes)
    {
      assert recs[..i + 1][..i] == recs[..i];
      var st := ParseRow(recs[i], parseInt, parseReal, false);
      if st.Err? {
        ParseAllErrorStays(recs, i + 1, parseInt, parseReal, false);
        return Err(st.error);
      }
      TallyStep(runs, stats, st.value, Runs);
      TallyStep(successes, stats, st.value, Successes);
      runs := Bump(runs, st.value.agents, st.value.run);
      successes := Bump(successes, st.value.agents, st.value.succeeded);
      stats := stats + [st.value];
      i := i + 1;
    }
    assert recs[..|recs|] == recs;
    return Ok((runs, successes));
  }

  /** A parse error in a prefix is the error of the whole. */
  lemma {:induction false} ParseAllErrorStays(recs: seq<Record>, n: nat, parseInt: string -> Option<int>, parseReal: string -> Option<real>, withRuntimes: bool)
    requires withRuntimes ==> forall i :: 0 <= i < |recs| ==> SpacedRuntimes(recs[i])
    requires n <= |recs| && ParseAll(recs[..n], parseInt, parseReal, withRuntimes).Err?
    ensures ParseAll(recs, parseInt, parseReal, withRuntimes).Err?
    decreases |recs| - n
  {
    if n < |recs| {
      assert recs[..n + 1][..n] == recs[..n];
      ParseAllErrorStays(recs, n + 1, parseInt, parseReal, withRuntimes);
    } else {
      assert recs[..n] == recs;
    }
  }

  // ---------------------------------------------------------------------
  // Success rates

  function Rate0(rates: map<Key, real>, k: Key): real
  {
    if k in rates then rates[k] else 0.0
  }

  /** Lines 36-40: successes over runs for every solver with a success;
      ZeroDivisionError when such a solver has no run. */
  method SuccessRates(runs: map<Key, nat>, successes: map<Key, nat>) returns (r: Result<map<Key, real>>)
    ensures r.Err? <==> exists k :: k in successes && Get0(runs, k) == 0
    ensures r.Ok? ==> (r.value.Keys == successes.Keys
      && forall k :: k in r.value ==> r.value[k] == successes[k] as real / runs[k] as real)
  {
    var rates: map<Key, real> := map[];
    var todo := successes.Keys;
    while todo != {}
      invariant todo <= successes.Keys && rates.Keys == successes.Keys - todo
      invariant forall k :: k in rates ==> Get0(runs, k) != 0 && rates[k] == successes[k] as real / runs[k] as real
      decreases |todo|
    {
      var k :| k in todo;
      if Get0(runs, k) == 0 {
        return Err(ZeroDivision);
      }
      rates := rates[k := successes[k] as real / runs[k] as real];
      todo := todo - {k};
    }
    return Ok(rates);
  }

  /** When no row reports a success for a solver it did not run, no rate
      divides by zero and every rate is in (0, 1]. */
  lemma RatesInUnitInterval(stats: seq<RowStats>, runs: map<Key, nat>, successes: map<Key, nat>, k: Key)
    requires forall i :: 0 <= i < |stats| ==> stats[i].succeeded <= stats[i].run
    requires Tallies(runs, stats, Runs) && Tallies(successes, stats, Successes)
    requires k in successes
    ensures Get0(runs, k) != 0 && 0.0 < successes[k] as real / runs[k] as real <= 1.0
  {
    SuccessesWithinRuns(stats, k);
    assert Get0(successes, k) == successes[k];
  }

  /** A row reporting a success for a solver whose cost is "irrelevant"
      leaves that solver with successes and no runs. */
  lemma SuccessWithoutRun()
    ensures var stats := [RowStats(2, {}, {"CBS"}, map[])];
      Occurrences(stats, (2, "CBS"), Successes) == 1 && Occurrences(stats, (2, "CBS"), Runs) == 0
  {
    var stats := [RowStats(2, {}, {"CBS"}, map[])];
    assert stats[..0] == [];
  }

  // ---------------------------------------------------------------------
  // Fair runtimes

  /** Lines 63-64: the run solvers with a success rate above 0.1. */
  function Relevant(st: RowStats, rates: map<Key, real>): set<string>
  {
    set s | s in st.run && Rate0(rates, (st.agents, s)) > 0.1
  }

  /** Lines 78-80: a row is used only when every relevant solver solved it. */
  predicate Fair(st: RowStats, rates: map<Key, real>)
  {
    st.succeeded * Relevant(st, rates) == Relevant(st, rates)
  }

  lemma FairIff(st: RowStats, rates: map<Key, real>)
    ensures Fair(st, rates) <==> forall s :: s in st.run && Rate0(rates, (st.agents, s)) > 0.1 ==> s in st.succeeded
  {
    var rel := Relevant(st, rates);
    if forall s :: s in st.run && Rate0(rates, (st.agents, s)) > 0.1 ==> s in st.succeeded {
      assert st.succeeded * rel == rel;
    }
    if Fair(st, rates) {
      forall s | s in st.run && Rate0(rates, (st.agents, s)) > 0.1 ensures s in st.succeeded {
        assert s in rel;
        assert s in st.succeeded * rel;
      }
    }
  }

  /** The solvers whose runtimes a row adds. */
  function Timed(st: RowStats, rates: map<Key, real>): set<string>
  {
    if Fair(st, rates) then Relevant(st, rates) * st.runtimes.Keys else {}
  }

  /** The runtimes the fair rows add for a key, in row order. */
  function TimedRuntimes(stats: seq<RowStats>, rates: map<Key, real>, k: Key): (xs: seq<real>)
    ensures |xs| == Occurrences(stats, k, TimedUnder(rates))
  {
    if |stats| == 0 then []
    else
      var st := stats[|stats| - 1];
      TimedRuntimes(stats[..|stats| - 1], rates, k) + (if st.agents == k.0 && k.1 in Timed(st, rates) then [st.runtimes[k.1]] else [])
  }

  function Sum(xs: seq<real>): real
  {
    if |xs| == 0 then 0.0 else Sum(xs[..|xs| - 1]) + xs[|xs| - 1]
  }

  function RuntimeSum(stats: seq<RowStats>, rates: map<Key, real>, k: Key): real
  {
    Sum(TimedRuntimes(stats, rates, k))
  }

  lemma SumSnoc(xs: seq<real>, x: real)
    ensures Sum(xs + [x]) == Sum(xs) + x
  {
    assert (xs + [x])[..|xs|] == xs;
  }

  function Get0Real(m: map<Key, real>, k: Key): real
  {
    if k in m then m[k] else 0.0
  }

  /** sums and counts are the two Counters of the second pass. */
  ghost predicate Accumulated(sums: map<Key, real>, counts: map<Key, nat>, stats: seq<RowStats>, rates: map<Key, real>)
  {
    sums.Keys == counts.Keys && (forall k :: k in counts ==> counts[k] > 0)
    && forall k :: AccumulatedAt(sums, counts, stats, rates, k)
  }

  /** The two Counters' entries for one key. */
  ghost predicate AccumulatedAt(sums: map<Key, real>, counts: map<Key, nat>, stats: seq<RowStats>, rates: map<Key, real>, k: Key)
  {
    Get0(counts, k) == Occurrences(stats, k, TimedUnder(rates)) && Get0Real(sums, k) == RuntimeSum(stats, rates, k)
  }

  /** One more row changes a key's entries by what the row adds for it. */
  lemma StepAt(sums: map<Key, real>, counts: map<Key, nat>, stats: seq<RowStats>, rates: map<Key, real>, k: Key,
               st: RowStats, sums': map<Key, real>, counts': map<Key, nat>)
    requires AccumulatedAt(sums, counts, stats, rates, k)
    requires var add := st.agents == k.0 && k.1 in Timed(st, rates);
      (add ==> (k.1 in st.runtimes
        && Get0Real(sums', k) == Get0Real(sums, k) + st.runtimes[k.1] && Get0(counts', k) == Get0(counts, k) + 1))
      && (!add ==> Get0Real(sums', k) == Get0Real(sums, k) && Get0(counts', k) == Get0(counts, k))
    ensures AccumulatedAt(sums', counts', stats + [st], rates, k)
  {
    var s2 := stats + [st];
    assert s2[..|s2| - 1] == stats;
    var xs := TimedRuntimes(stats, rates, k);
    if st.agents == k.0 && k.1 in Timed(st, rates) {
      assert TimedRuntimes(s2, rates, k) == xs + [st.runtimes[k.1]];
      SumSnoc(xs, st.runtimes[k.1]);
    } else {
      assert TimedRuntimes(s2, rates, k) == xs + [];
      assert xs + [] == xs;
    }
  }

  /** Counter.update with one row's relevant runtimes. */
  function AddRuntimes(sums: map<Key, real>, st: RowStats, solvers: set<string>): (r: map<Key, real>)
    requires solvers <= st.runtimes.Keys
    ensures forall k :: Get0Real(r, k) == Get0Real(sums, k) + (if k.0 == st.agents && k.1 in solvers then st.runtimes[k.1] else 0.0)
    ensures r.Keys == sums.Keys + set s | s in solvers :: (st.agents, s)
  {
    var keys := sums.Keys + set s | s in solvers :: (st.agents, s);
    map k | k in keys :: Get0Real(sums, k) + (if k.0 == st.agents && k.1 in solvers then st.runtimes[k.1] else 0.0)
  }

  /** A fair row adds its relevant runtimes. */
  lemma AccumulateStep(sums: map<Key, real>, counts: map<Key, nat>, stats: seq<RowStats>, rates: map<Key, real>, st: RowStats)
    requires Accumulated(sums, counts, stats, rates) && Fair(st, rates)
    ensures var t := Relevant(st, rates) * st.runtimes.Keys;
      Accumulated(AddRuntimes(sums, st, t), Bump(counts, st.agents, t), stats + [st], rates)
  {
    var t := Relevant(st, rates) * st.runtimes.Keys;
    assert Timed(st, rates) == t;
    var sums', counts' := AddRuntimes(sums, st, t), Bump(counts, st.agents, t);
    forall k ensures AccumulatedAt(sums', counts', stats + [st], rates, k) {
      StepAt(sums, counts, stats, rates, k, st, sums', counts');
    }
  }

  /** An unfair row adds nothing. */
  lemma SkipStep(sums: map<Key, real>, counts: map<Key, nat>, stats: seq<RowStats>, rates: map<Key, real>, st: RowStats)
    requires Accumulated(sums, counts, stats, rates) && !Fair(st, rates)
    ensures Accumulated(sums, counts, stats + [st], rates)
  {
    assert Timed(st, rates) == {};
    forall k ensures AccumulatedAt(sums, counts, stats + [st], rates, k) {
      StepAt(sums, counts, stats, rates, k, st, sums, counts);
    }
  }

  /** One row of the second pass: skipped unless fair, else its relevant
      runtimes are added. */
  method AddRow(sums: map<Key, real>, counts: map<Key, nat>, ghost stats: seq<RowStats>, rates: map<Key, real>, st: RowStats)
    returns (sums': map<Key, real>, counts': map<Key, nat>)
    requires Accumulated(sums, counts, stats, rates)
    ensures Accumulated(sums', counts', stats + [st], rates)
  {
    var relevant := Relevant(st, rates);
    if st.succeeded * relevant != relevant {
      SkipStep(sums, counts, stats, rates, st);
      return sums, counts;
    }
    AccumulateStep(sums, counts, stats, rates, st);
    var timed := relevant * st.runtimes.Keys;
    sums' := AddRuntimes(sums, st, timed);
    counts' := Bump(counts, st.agents, timed);
  }

  /** Lines 48-82: the second pass over the rows. */
  method FairRuntimes(recs: seq<Record>, parseInt: string -> Option<int>, parseReal: string -> Option<real>, rates: map<Key, real>)
    returns (r: Result<(map<Key, real>, map<Key, nat>)>)
    requires forall i :: 0 <= i < |recs| ==> SpacedRuntimes(recs[i])
    ensures ParseAll(recs, parseInt, parseReal, true).Err? <==> r.Err?
    ensures r.Ok? ==> Accumulated(r.value.0, r.value.1, ParseAll(recs, parseInt, parseReal, true).value, rates)
  {
    var sums: map<Key, real> := map[];
    var counts: map<Key, nat> := map[];
    var stats: seq<RowStats> := [];
    var i := 0;
    while i < |recs|
      invariant 0 <= i <= |recs| && ParseAll(recs[..i], parseInt, parseReal, true) == Ok(stats)
      invariant Accumulated(sums, counts, stats, rates)
    {
      assert recs[..i + 1][..i] == recs[..i];
      var parsed := ParseRow(recs[i], parseInt, parseReal, true);
      if parsed.Err? {
        ParseAllErrorStays(recs, i + 1, parseInt, parseReal, true);
        return Err(parsed.error);
      }
      var st := parsed.value;
      sums, counts := AddRow(sums, counts, stats, rates, st);
      stats := stats + [st];
      i := i + 1;
    }
    assert recs[..|recs|] == recs;
    return Ok((sums, counts));
  }

  // ---------------------------------------------------------------------
  // Averages

  /** Lines 84-88: sum over count where the solver was averaged, None
      (missing data) elsewhere. */
  function Average(sums: map<Key, real>, counts: map<Key, nat>, k: Key): (r: Option<real>)
    requires sums.Keys == counts.Keys && forall k :: k in counts ==> counts[k] > 0
    ensures r.None? <==> k !in counts
  {
    if k in sums then Some(sums[k] / counts[k] as real) else None
  }

  /** Lines 84-88: the average of every averaged key. */
  method Averages(sums: map<Key, real>, counts: map<Key, nat>) returns (averages: map<Key, real>)
    requires sums.Keys == counts.Keys && forall k :: k in counts ==> counts[k] > 0
    ensures forall k :: Average(sums, counts, k) == if k in averages then Some(averages[k]) else None
  {
    averages := map[];
    var todo := sums.Keys;
    while todo != {}
      invariant todo <= sums.Keys && averages.Keys == sums.Keys - todo
      invariant forall k :: k in averages ==> averages[k] == sums[k] / counts[k] as real
      decreases |todo|
    {
      var k :| k in todo;
      averages := averages[k := sums[k] / counts[k] as real];
      todo := todo - {k};
    }
  }

  /** Every runtime added for a key is one of the rows' runtimes. */
  lemma {:induction false} TimedRuntimesBounded(stats: seq<RowStats>, rates: map<Key, real>, k: Key, lo: real, hi: real)
    requires forall i :: 0 <= i < |stats| && k.1 in stats[i].runtimes ==> lo <= stats[i].runtimes[k.1] <= hi
    ensures Within(TimedRuntimes(stats, rates, k), lo, hi)
  {
    if |stats| > 0 {
      var p := stats[..|stats| - 1];
      assert forall i :: 0 <= i < |p| ==> p[i] == stats[i];
      TimedRuntimesBounded(p, rates, k, lo, hi);
      var st := stats[|stats| - 1];
      var xp := TimedRuntimes(p, rates, k);
      if st.agents == k.0 && k.1 in Timed(st, rates) {
        var x := st.runtimes[k.1];
        assert lo <= x <= hi;
        var xs := xp + [x];
        assert TimedRuntimes(stats, rates, k) == xs;
        forall j | 0 <= j < |xs| ensures lo <= xs[j] <= hi {
          if j < |xp| {
            assert xs[j] == xp[j];
          }
        }
      } else {
        assert TimedRuntimes(stats, rates, k) == xp + [];
        assert xp + [] == xp;
      }
    }
  }

  predicate Within(xs: seq<real>, lo: real, hi: real)
  {
    forall j :: 0 <= j < |xs| ==> lo <= xs[j] <= hi
  }

  /** A sum of values within bounds is within the bounds times their number. */
  lemma {:induction false} SumBounds(xs: seq<real>, lo: real, hi: real)
    requires Within(xs, lo, hi)
    ensures lo * |xs| as real <= Sum(xs) <= hi * |xs| as real
  {
    if |xs| > 0 {
      var p := xs[..|xs| - 1];
      assert forall j :: 0 <= j < |p| ==> p[j] == xs[j];
      SumBounds(p, lo, hi);
      ScaleStep(lo, hi, |p| as real, Sum(p), xs[|xs| - 1]);
    }
  }

  lemma ScaleStep(lo: real, hi: real, n: real, sum: real, x: real)
    requires lo * n <= sum <= hi * n && lo <= x <= hi
    ensures lo * (n + 1.0) <= sum + x <= hi * (n + 1.0)
  {
  }

  /** An average lies between the smallest and the largest runtime. */
  lemma AverageBounds(sums: map<Key, real>, counts: map<Key, nat>, stats: seq<RowStats>, rates: map<Key, real>, k: Key, lo: real, hi: real)
    requires Accumulated(sums, counts, stats, rates) && k in counts
    requires forall i :: 0 <= i < |stats| && k.1 in stats[i].runtimes ==> lo <= stats[i].runtimes[k.1] <= hi
    ensures var a := Average(sums, counts, k); a.Some? && lo <= a.value <= hi
  {
    TimedRuntimesBounded(stats, rates, k, lo, hi);
    SumBounds(TimedRuntimes(stats, rates, k), lo, hi);
    var n := counts[k] as real;
    assert AccumulatedAt(sums, counts, stats, rates, k);
    assert Get0(counts, k) == counts[k] && Get0Real(sums, k) == sums[k];
    assert lo * n <= sums[k] <= hi * n;
    DivBounds(sums[k], n, lo, hi);
  }

  lemma DivBounds(s: real, n: real, lo: real, hi: real)
    requires n > 0.0 && lo * n <= s <= hi * n
    ensures lo <= s / n <= hi
  {
  }
}
