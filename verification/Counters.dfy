/** The bucket arrays of an event counter and their update in place. */
module Counters {
  import opened CounterWindow

  const U16: nat := 0x1_0000
  const STATS_PERIOD: nat := 3600
  const STATS_INTERVAL: nat := 60

  /** The 16-bit word in which a bucket's count is kept. */
  function Word(n: nat): nat {
    n % U16
  }

  /** The carries that the word of `n` does not show. */
  function Carry(n: nat): nat {
    n - Word(n)
  }

  /** The count that the word of a bucket shows. */
  function Shown(b: Bucket): nat {
    Word(Sum(b.hits))
  }

  /** The carries of several buckets. */
  function Carries(buckets: seq<Bucket>): nat {
    if buckets == [] then 0 else Carry(Sum(buckets[0].hits)) + Carries(buckets[1..])
  }

  /** There are none exactly when every bucket counted less than 65536. */
  lemma {:induction false} CarriesNone(buckets: seq<Bucket>)
    ensures Carries(buckets) == 0 <==> forall b | b in buckets :: Sum(b.hits) < 65536
  {
    if buckets != [] {
      CarriesNone(buckets[1..]);
      assert forall b :: b in buckets <==> b == buckets[0] || b in buckets[1..];
    }
  }

  /** What a 16-bit field keeps of `v`, or the default `d` in place of zero. */
  function Field(v: int, d: nat): nat {
    if v % U16 == 0 then d else v % U16
  }

  /** A positive number of 16 bits is kept, zero stands for the default, and anything else counts modulo
      65536. */
  lemma FieldIs(v: int, d: nat)
    ensures 0 < v < 65536 ==> Field(v, d) == v
    ensures Field(0, d) == d && Field(v + 65536, d) == Field(v, d)
  {
    assert (v + U16) % U16 == v % U16;
  }

  /** With zero for both fields a counter covers an hour in steps of a minute: every event younger than 59
      minutes is counted, and the table never cuts this short. */
  lemma DefaultsSuffice()
    ensures var cfg := Config(Field(0, STATS_PERIOD), Field(0, STATS_INTERVAL));
            && cfg == Config(3600, 60) && cfg.Valid() && cfg.Entries() == 60
            && Horizon(cfg) == 3540 && cfg.period % cfg.interval <= cfg.Entries()
  {
  }

  method Stored(v: int, d: nat) returns (r: nat)
    requires 0 < d < U16
    ensures r == Field(v, d) && 0 < r < U16
  {
    r := v % U16;
    if r <= 0 {
      r := d;
    }
  }

  lemma EmptyTotals()
    ensures Total([]) == 0 && Carries([]) == 0
  {
  }

  lemma EntriesAre(cfg: Config)
    requires cfg.interval > 0
    ensures cfg.Entries() == cfg.period / cfg.interval
  {
  }

  lemma CarriesCons(b: Bucket, buckets: seq<Bucket>)
    ensures Carries([b] + buckets) == Carry(Sum(b.hits)) + Carries(buckets)
  {
    assert ([b] + buckets)[1..] == buckets;
  }

  lemma {:induction false} SumConcat(a: seq<Hit>, b: seq<Hit>)
    ensures Sum(a + b) == Sum(a) + Sum(b)
  {
    if a == [] {
      assert a + b == b;
    } else {
      assert (a + b)[1..] == a[1..] + b;
      SumConcat(a[1..], b);
    }
  }

  /** The events counted in the buckets. */
  function Total(buckets: seq<Bucket>): nat {
    Sum(Live(buckets))
  }

  lemma DropFacts(buckets: seq<Bucket>, k: nat)
    requires |buckets| == k + 1
    ensures var b := buckets[k]; Total(buckets) == Shown(b) + Carry(Sum(b.hits)) + Total(buckets[..k])
  {
    LiveLast(buckets);
    SumConcat(buckets[k].hits, Live(buckets[..k]));
  }

  lemma PushFacts(buckets: seq<Bucket>, n: nat, now: int)
    ensures var b := Bucket(now, HitsOf(n, now));
            Total([b] + buckets) == Total(buckets) + n && Shown(b) == Word(n)
  {
    var b := Bucket(now, HitsOf(n, now));
    assert ([b] + buckets)[1..] == buckets;
    SumConcat(Live(buckets), b.hits);
  }

  function Grown(b: Bucket, n: nat, now: int): Bucket {
    b.(hits := b.hits + HitsOf(n, now))
  }

  lemma AddFacts(buckets: seq<Bucket>, n: nat, now: int)
    requires buckets != []
    ensures var b := Grown(buckets[0], n, now);
            Total(buckets[0 := b]) == Total(buckets) + n && Shown(b) == Word(Shown(buckets[0]) + n)
  {
    var b := Grown(buckets[0], n, now);
    GrownSum(buckets[0], n, now);
    TotalCons(buckets);
    assert buckets[0 := b][1..] == buckets[1..];
    TotalCons(buckets[0 := b]);
    hide Total, Sum, Grown, HitsOf;
  }

  lemma TotalCons(buckets: seq<Bucket>)
    requires buckets != []
    ensures Total(buckets) == Total(buckets[1..]) + Sum(buckets[0].hits)
  {
    SumConcat(Live(buckets[1..]), buckets[0].hits);
  }

  lemma GrownSum(b: Bucket, n: nat, now: int)
    ensures Sum(Grown(b, n, now).hits) == Sum(b.hits) + n
  {
    SumConcat(b.hits, HitsOf(n, now));
    assert HitsOf(n, now) != [] ==> HitsOf(n, now)[1..] == [];
  }

  lemma EvictNone(cfg: Config, w: Window, now: int)
    requires cfg.Valid() && |w.buckets| == 0
    ensures Evict(cfg, w, now) == w
  {
  }

  class Counter {
    var period: nat
    var interval: nat
    var numEntries: nat
    var values: array<nat>
    var times: array<int>
    var indexLast: nat
    var totalValues: nat
    /** The window these arrays stand for, and the buckets dropped so far, the last one first. */
    ghost var window: Window
    ghost var dropped: seq<Bucket>

    ghost function Cfg(): Config
      reads this`period, this`interval
    {
      Config(period, interval)
    }

    ghost predicate Shape()
      reads this
    {
      && Cfg().Valid() && numEntries == Cfg().Entries()
      && values.Length == numEntries && times.Length == numEntries && values as object != times as object
      && indexLast == |window.buckets| <= numEntries
    }

    ghost predicate Valid()
      reads this, values, times
    {
      && Shape()
      && (forall i | 0 <= i < indexLast :: times[i] == window.buckets[i].start)
      && (forall i | 0 <= i < indexLast :: values[i] == Shown(window.buckets[i]))
      && totalValues == Total(window.buckets) + Carries(dropped)
    }

    /** `_eXosip_counters_init`: the fields are 16 bits wide, and zero stands for the default. With an
        interval longer than the period the arrays have no places, and no update is possible. */
    constructor (p: int, i: int)
      ensures fresh(values) && fresh(times) && interval > 0 && numEntries == values.Length == times.Length == Cfg().Entries()
      ensures Cfg() == Config(Field(p, 3600), Field(i, 60))
      ensures window == EMPTY && dropped == [] && (interval <= period ==> Valid())
    {
      EmptyTotals();
      var p' := Stored(p, STATS_PERIOD);
      var i' := Stored(i, STATS_INTERVAL);
      var n: nat := p' / i';
      EntriesAre(Config(p', i'));
      hide Total, Carries, Shown, Config.Entries, Field;
      period, interval, numEntries := p', i', n;
      values := new nat[n](_ => 0);
      times := new int[n](_ => 0);
      indexLast, totalValues := 0, 0;
      window, dropped := EMPTY, [];
    }

    /** The oldest bucket goes. */
    method DropLast()
      requires Valid() && indexLast > 0
      modifies this`indexLast, this`totalValues, this`window, this`dropped
      ensures Valid() && indexLast == old(indexLast) - 1
      ensures var k := indexLast; var last := old(window.buckets)[k];
              && window == Window(old(window.buckets)[..k], old(window.gone) + last.hits)
              && dropped == [last] + old(dropped)
    {
      hide Shown, Carry, Carries, Total, Sum;
      ghost var k: nat := indexLast - 1;
      ghost var last := window.buckets[k];
      DropFacts(window.buckets, k);
      CarriesCons(last, dropped);
      totalValues := totalValues - values[indexLast - 1];
      indexLast := indexLast - 1;
      dropped := [last] + dropped;
      window := Window(window.buckets[..k], window.gone + last.hits);
    }

    /** The loop that drops buckets from the old end. */
    method DropOld(now: int)
      requires Valid()
      modifies this`indexLast, this`totalValues, this`window, this`dropped
      ensures Valid() && window == Evict(Cfg(), old(window), now)
      ensures dropped == old(window.buckets)[|window.buckets|..] + old(dropped)
    {
      hide Shown, Carry, Carries, Total, Sum, Elapsed, Evict;
      ghost var was := window.buckets;
      assert was[|was|..] + dropped == dropped && was[..|was|] == was;
      while indexLast > 0
        invariant Valid() && window.buckets == was[..indexLast]
        invariant Evict(Cfg(), window, now) == Evict(Cfg(), old(window), now)
        invariant dropped == was[indexLast..] + old(dropped)
      {
        EvictTurn(Cfg(), window, indexLast - 1, now);
        var age: nat := Elapsed(now, times[indexLast - 1]);
        if age < period && indexLast < numEntries {
          break;
        }
        TakeLast(was, indexLast - 1, old(dropped));
        DropLast();
      }
      if indexLast == 0 { EvictNone(Cfg(), window, now); }
    }

    /** The two moves of the arrays by one place. */
    method ShiftUp()
      requires Shape() && indexLast < numEntries
      modifies values, times
      ensures forall i | 0 < i <= indexLast :: values[i] == old(values[i - 1]) && times[i] == old(times[i - 1])
    {
      forall i | 0 < i <= indexLast { values[i] := values[i - 1]; }
      forall i | 0 < i <= indexLast { times[i] := times[i - 1]; }
    }

    /** A new bucket moves all others up by one. */
    method Push(nvalues: nat, now: int)
      requires Valid() && nvalues > 0 && indexLast < numEntries
      modifies this`indexLast, this`totalValues, this`window, values, times
      ensures Valid()
      ensures window == old(window).(buckets := [Bucket(now, HitsOf(nvalues, now))] + old(window.buckets))
    {
      ghost var b := Bucket(now, HitsOf(nvalues, now));
      hide Word, Shown, Carries, Total, HitsOf, Config.Valid, Config.Entries;
      ghost var bs := [b] + window.buckets;
      PushFacts(window.buckets, nvalues, now);
      totalValues := totalValues + nvalues;
      ShiftUp();
      values[0] := Word(nvalues);
      times[0] := now;
      indexLast := indexLast + 1;
      window := window.(buckets := bs);
      assert forall i | 0 < i < indexLast :: bs[i] == old(window.buckets)[i - 1];
    }

    /** More events for the newest bucket. */
    method Add(nvalues: nat, now: int)
      requires Valid() && indexLast > 0
      modifies this`totalValues, this`window, values
      ensures Valid()
      ensures var b := Grown(old(window.buckets)[0], nvalues, now);
              window == old(window).(buckets := old(window.buckets)[0 := b])
    {
      hide Word, Shown, Carries, Total, HitsOf, Config.Valid, Config.Entries;
      AddFacts(window.buckets, nvalues, now);
      ghost var b := Grown(window.buckets[0], nvalues, now);
      values[0] := Word(values[0] + nvalues);
      totalValues := totalValues + nvalues;
      window := window.(buckets := window.buckets[0 := b]);
    }

    /** `_eXosip_counters_update`: the arrays change as the window does. The total is the live count, plus
        what the 16-bit words of the dropped buckets did not show. */
    method Update(nvalues: nat, now: int)
      requires Valid()
      modifies this`indexLast, this`totalValues, this`window, this`dropped, values, times
      ensures Valid() && window == CounterWindow.Update(Cfg(), old(window), nvalues, now)
      ensures dropped == Forced(Cfg(), old(window), now) + old(dropped)
    {
      hide *;
      Newest();
      UpdateTurn(Cfg(), window, nvalues, now);
      assert [] + dropped == dropped;
      var age: nat := Elapsed(now, times[0]);
      if indexLast > 0 && age <= interval {
        Add(nvalues, now);
        return;
      }
      DropOld(now);
      if nvalues > 0 {
        Room();
        Push(nvalues, now);
      }
    }

    lemma Newest()
      requires Valid()
      ensures Cfg().Valid() && Cfg().interval == interval && values.Length == times.Length > 0
      ensures indexLast == |window.buckets| && (indexLast > 0 ==> times[0] == window.buckets[0].start)
    {
      EntriesBounds(Cfg());
    }

    lemma Room()
      requires Valid() && (window.buckets == [] || |window.buckets| < Cfg().Entries())
      ensures indexLast < numEntries
    {
      EntriesBounds(Cfg());
    }
  }

  lemma UpdateTurn(cfg: Config, w: Window, n: nat, now: int)
    requires cfg.Valid()
    ensures Open(cfg, w, now) <==> w.buckets != [] && Elapsed(now, w.buckets[0].start) <= cfg.interval
    ensures Open(cfg, w, now) ==>
              && CounterWindow.Update(cfg, w, n, now) == w.(buckets := w.buckets[0 := Grown(w.buckets[0], n, now)])
              && Forced(cfg, w, now) == []
    ensures !Open(cfg, w, now) ==>
              var kept := Evict(cfg, w, now);
              && CounterWindow.Update(cfg, w, n, now) ==
                   (if n == 0 then kept else kept.(buckets := [Bucket(now, HitsOf(n, now))] + kept.buckets))
              && Forced(cfg, w, now) == w.buckets[|kept.buckets|..]
  {
    hide Elapsed, Evict, HitsOf;
  }

  lemma TakeLast(was: seq<Bucket>, k: nat, d: seq<Bucket>)
    requires k < |was|
    ensures [was[k]] + (was[k + 1..] + d) == was[k..] + d && was[..k + 1][k] == was[k] && was[..k + 1][..k] == was[..k]
  {
  }

  /** A counter over a run of reports: it stands for the window over their log, and its total is the number
      of events in the window, if and only if no bucket dropped in the run had counted 65536 or more. */
  method Count(p: int, i: int, reports: seq<Hit>) returns (c: Counter)
    ensures var cfg := c.Cfg();
            cfg == Config(Field(p, 3600), Field(i, 60))
    ensures c.Cfg().Valid() ==>
              && c.window == Run(c.Cfg(), reports)
              && (c.totalValues == Sum(Live(c.window.buckets)) <==>
                    forall b | b in Dropped(c.Cfg(), reports) :: Sum(b.hits) < 65536)
  {
    hide Evict, Elapsed, Forced, CounterWindow.Update, Open, Carries, Run, Dropped, Live, Sum, Timely, Config.Entries;
    NoReports();
    c := new Counter(p, i);
    if c.interval > c.period {
      return;
    }
    for k := 0 to |reports|
      invariant fresh(c) && fresh(c.values) && fresh(c.times) && c.Valid()
      invariant c.Cfg() == Config(Field(p, STATS_PERIOD), Field(i, STATS_INTERVAL))
      invariant c.window == Run(c.Cfg(), reports[..k]) && c.dropped == Dropped(c.Cfg(), reports[..k])
    {
      assert reports[..k + 1] == reports[..k] + [reports[k]];
      DroppedSnoc(c.Cfg(), reports[..k], reports[k]);
      RunSnoc(c.Cfg(), reports[..k], reports[k]);
      c.Update(reports[k].count, reports[k].at);
    }
    assert reports[..|reports|] == reports;
    CarriesNone(c.dropped);
  }

  lemma NoReports()
    ensures forall cfg: Config | cfg.Valid() :: Run(cfg, []) == EMPTY && Dropped(cfg, []) == []
  {
  }

  lemma DroppedSnoc(cfg: Config, reports: seq<Hit>, h: Hit)
    requires cfg.Valid()
    ensures Dropped(cfg, reports + [h]) == Forced(cfg, Run(cfg, reports), h.at) + Dropped(cfg, reports)
  {
    assert (reports + [h])[..|reports|] == reports;
    hide Forced, Run;
  }
}
