/** The sliding event counter as a window over the log of its events. */
module CounterWindow {
  import opened Basics

  /** `count` events reported at time `at`. */
  datatype Hit = Hit(at: int, count: nat)

  /** Events reported within one interval, counted together under the time of the first. */
  datatype Bucket = Bucket(start: int, hits: seq<Hit>)

  /** The buckets, newest first, and the hits no longer counted, oldest first. */
  datatype Window = Window(buckets: seq<Bucket>, gone: seq<Hit>)

  datatype Config = Config(period: nat, interval: nat)
  {
    predicate Valid() {
      1 <= interval <= period < 0x1_0000
    }

    function Entries(): nat
      requires interval > 0
    {
      period / interval
    }
  }

  /** `now - t` in an unsigned 64-bit word. */
  function Elapsed(now: int, t: int): nat {
    (now - t) % 0x1_0000_0000_0000_0000
  }

  predicate Clock(t: int) {
    0 <= t < 0x8000_0000_0000_0000
  }

  /** Drop the oldest bucket while it is too old or the table is full. */
  function Evict(cfg: Config, w: Window, now: int): (r: Window)
    requires cfg.Valid()
    ensures |r.buckets| <= |w.buckets| && r.buckets == w.buckets[..|r.buckets|]
    ensures r.buckets == [] || |r.buckets| < cfg.Entries()
    decreases |w.buckets|
  {
    if w.buckets == [] then w
    else
      var last := w.buckets[|w.buckets| - 1];
      if Elapsed(now, last.start) < cfg.period && |w.buckets| < cfg.Entries() then w
      else Evict(cfg, Window(w.buckets[..|w.buckets| - 1], w.gone + last.hits), now)
  }

  /** The update takes the short way: the newest bucket is still open. */
  predicate Open(cfg: Config, w: Window, now: int) {
    w.buckets != [] && Elapsed(now, w.buckets[0].start) <= cfg.interval
  }

  function HitsOf(n: nat, now: int): seq<Hit> {
    if n == 0 then [] else [Hit(now, n)]
  }

  function Update(cfg: Config, w: Window, n: nat, now: int): Window
    requires cfg.Valid()
  {
    if Open(cfg, w, now) then
      w.(buckets := w.buckets[0 := w.buckets[0].(hits := w.buckets[0].hits + HitsOf(n, now))])
    else
      var kept := Evict(cfg, w, now);
      if n == 0 then kept else kept.(buckets := [Bucket(now, HitsOf(n, now))] + kept.buckets)
  }

  const EMPTY: Window := Window([], [])

  /** The reports of a run: each a number of events and a time. */
  function Run(cfg: Config, reports: seq<Hit>): Window
    requires cfg.Valid()
  {
    if reports == [] then EMPTY
    else
      var last := reports[|reports| - 1];
      Update(cfg, Run(cfg, reports[..|reports| - 1]), last.count, last.at)
  }

  /** The buckets that an update drops, newest first. */
  function Forced(cfg: Config, w: Window, now: int): seq<Bucket>
    requires cfg.Valid()
  {
    if Open(cfg, w, now) then [] else w.buckets[|Evict(cfg, w, now).buckets|..]
  }

  /** The buckets dropped in a run. */
  function Dropped(cfg: Config, reports: seq<Hit>): seq<Bucket>
    requires cfg.Valid()
  {
    if reports == [] then []
    else
      var earlier := reports[..|reports| - 1];
      Forced(cfg, Run(cfg, earlier), reports[|reports| - 1].at) + Dropped(cfg, earlier)
  }

  /** A run under a clock that does not go back. */
  predicate Timely(reports: seq<Hit>) {
    && (forall i | 0 <= i < |reports| :: Clock(reports[i].at))
    && (forall i | 0 < i < |reports| :: reports[i - 1].at <= reports[i].at)
  }

  // ----- what is counted -----

  function Live(buckets: seq<Bucket>): seq<Hit> {
    if buckets == [] then [] else Live(buckets[1..]) + buckets[0].hits
  }

  function Log(reports: seq<Hit>): seq<Hit> {
    if reports == [] then []
    else
      var last := reports[|reports| - 1];
      Log(reports[..|reports| - 1]) + HitsOf(last.count, last.at)
  }

  function Sum(hits: seq<Hit>): nat {
    if hits == [] then 0 else hits[0].count + Sum(hits[1..])
  }

  // ----- the window invariant -----

  /** The age below which every event is still counted. */
  function Horizon(cfg: Config): int
    requires cfg.Valid()
  {
    Min(Max(cfg.period, cfg.interval + 1), cfg.Entries() * (cfg.interval + 1)) - cfg.interval
  }

  ghost predicate BucketInv(cfg: Config, b: Bucket, now: int) {
    && Clock(b.start) && b.start <= now
    && forall h | h in b.hits :: b.start <= h.at <= Min(b.start + cfg.interval, now)
  }

  ghost predicate Inv(cfg: Config, w: Window, now: int)
    requires cfg.Valid()
  {
    && |w.buckets| <= cfg.Entries()
    && (forall b | b in w.buckets :: BucketInv(cfg, b, now))
    && (forall i | 0 < i < |w.buckets| :: w.buckets[i - 1].start - w.buckets[i].start > cfg.interval)
    && (forall b | b in w.buckets :: w.buckets[0].start - b.start < cfg.period)
    && (forall h | h in w.gone :: now - h.at >= Horizon(cfg))
  }

  lemma ElapsedIs(now: int, t: int)
    requires Clock(now) && Clock(t) && t <= now
    ensures Elapsed(now, t) == now - t
  {
  }

  /** The time that `k` buckets take at least. */
  function StepTime(cfg: Config, k: nat): (t: nat) {
    if k == 0 then 0 else StepTime(cfg, k - 1) + cfg.interval + 1
  }

  lemma {:induction false} StepTimeIs(cfg: Config, k: nat)
    ensures StepTime(cfg, k) == k * (cfg.interval + 1)
  {
    if k > 0 {
      StepTimeIs(cfg, k - 1);
      assert k * (cfg.interval + 1) == (k - 1) * (cfg.interval + 1) + cfg.interval + 1;
    }
  }

  /** The start times step back by more than an interval from bucket to bucket. */
  lemma {:induction false} Spread(cfg: Config, w: Window, now: int, k: nat)
    requires cfg.Valid() && Inv(cfg, w, now) && k < |w.buckets|
    ensures w.buckets[0].start - w.buckets[k].start >= StepTime(cfg, k)
    decreases k
  {
    if k > 0 { Spread(cfg, w, now, k - 1); }
  }

  /** A bucket that is dropped is so old that even its last event is beyond the horizon. */
  lemma DroppedIsOld(cfg: Config, w: Window, now: int)
    requires cfg.Valid() && Inv(cfg, w, now) && w.buckets != []
    requires now - w.buckets[0].start > cfg.interval
    ensures var last := w.buckets[|w.buckets| - 1];
            now - last.start >= cfg.period || |w.buckets| == cfg.Entries() ==> now - last.start >= Horizon(cfg) + cfg.interval
  {
    var k := |w.buckets| - 1;
    Spread(cfg, w, now, k);
    StepTimeIs(cfg, k + 1);
    StartsFall(cfg, w, now, 0, k);
  }

  lemma DropLast(cfg: Config, w: Window, now: int)
    requires cfg.Valid() && Inv(cfg, w, now) && w.buckets != []
    requires now - w.buckets[|w.buckets| - 1].start >= Horizon(cfg) + cfg.interval
    ensures Inv(cfg, Window(w.buckets[..|w.buckets| - 1], w.gone + w.buckets[|w.buckets| - 1].hits), now)
  {
    hide Horizon;
    var k := |w.buckets| - 1;
    var last := w.buckets[k];
    var w' := Window(w.buckets[..k], w.gone + last.hits);
    assert last in w.buckets;
    forall b | b in w'.buckets ensures BucketInv(cfg, b, now) && w'.buckets[0].start - b.start < cfg.period {
      assert b in w.buckets;
    }
    forall h | h in w'.gone ensures now - h.at >= Horizon(cfg) {
      if h !in w.gone { assert h in last.hits; }
    }
  }

  /** Eviction drops only hits beyond the horizon, and leaves only buckets younger than the period. */
  lemma {:induction false} EvictKeeps(cfg: Config, w: Window, now: int)
    requires cfg.Valid() && Clock(now) && Inv(cfg, w, now)
    requires w.buckets != [] ==> now - w.buckets[0].start > cfg.interval
    ensures Inv(cfg, Evict(cfg, w, now), now)
    ensures forall b | b in Evict(cfg, w, now).buckets :: now - b.start < cfg.period
    decreases |w.buckets|
  {
    hide Horizon, Inv;
    if w.buckets != [] {
      var k := |w.buckets| - 1;
      var last := w.buckets[k];
      LastStarted(cfg, w, now);
      ElapsedIs(now, last.start);
      if now - last.start < cfg.period && |w.buckets| < cfg.Entries() {
        forall b | b in w.buckets ensures now - b.start < cfg.period {
          var i :| 0 <= i < |w.buckets| && w.buckets[i] == b;
          StartsFall(cfg, w, now, i, k);
        }
      } else {
        DroppedIsOld(cfg, w, now);
        DropLast(cfg, w, now);
        EvictKeeps(cfg, Window(w.buckets[..k], w.gone + last.hits), now);
      }
    }
  }

  lemma LastStarted(cfg: Config, w: Window, now: int)
    requires cfg.Valid() && Inv(cfg, w, now) && w.buckets != []
    ensures var last := w.buckets[|w.buckets| - 1]; Clock(last.start) && last.start <= now
    ensures |w.buckets| <= cfg.Entries()
  {
    assert w.buckets[|w.buckets| - 1] in w.buckets;
  }

  lemma {:induction false} StartsFall(cfg: Config, w: Window, now: int, i: nat, k: nat)
    requires cfg.Valid() && Inv(cfg, w, now) && i <= k < |w.buckets|
    ensures w.buckets[k].start <= w.buckets[i].start
    decreases k - i
  {
    if i < k { StartsFall(cfg, w, now, i + 1, k); }
  }

  /** Time passing keeps the invariant. */
  lemma Later(cfg: Config, w: Window, past: int, now: int)
    requires cfg.Valid() && Inv(cfg, w, past) && past <= now
    ensures Inv(cfg, w, now)
  {
    assert forall b | BucketInv(cfg, b, past) :: BucketInv(cfg, b, now);
  }

  lemma OpenKeeps(cfg: Config, w: Window, n: nat, now: int)
    requires cfg.Valid() && Clock(now) && Inv(cfg, w, now) && Open(cfg, w, now)
    ensures Inv(cfg, Update(cfg, w, n, now), now)
    ensures now - w.buckets[0].start <= cfg.interval
  {
    hide Horizon;
    var w' := Update(cfg, w, n, now);
    assert w.buckets[0] in w.buckets;
    ElapsedIs(now, w.buckets[0].start);
    forall b | b in w'.buckets ensures BucketInv(cfg, b, now) && w'.buckets[0].start - b.start < cfg.period {
      assert b != w'.buckets[0] ==> b in w.buckets;
    }
  }

  lemma PushKeeps(cfg: Config, w: Window, b: Bucket, now: int)
    requires cfg.Valid() && Inv(cfg, w, now) && |w.buckets| < cfg.Entries()
    requires forall b' | b' in w.buckets :: now - b'.start < cfg.period
    requires w.buckets != [] ==> now - w.buckets[0].start > cfg.interval
    requires b.start == now && BucketInv(cfg, b, now)
    ensures Inv(cfg, w.(buckets := [b] + w.buckets), now)
  {
    hide Horizon;
    var bs := [b] + w.buckets;
    assert forall b' | b' in bs :: b' == b || b' in w.buckets;
    assert forall i | 0 < i < |bs| :: bs[i] == w.buckets[i - 1];
  }

  /** Every update keeps the window invariant; one that evicts leaves only buckets younger than the
      period. */
  lemma UpdateKeeps(cfg: Config, w: Window, n: nat, now: int)
    requires cfg.Valid() && Clock(now) && Inv(cfg, w, now)
    ensures Inv(cfg, Update(cfg, w, n, now), now)
    ensures !Open(cfg, w, now) ==> forall b | b in Update(cfg, w, n, now).buckets :: now - b.start < cfg.period
  {
    if Open(cfg, w, now) {
      OpenKeeps(cfg, w, n, now);
    } else {
      if w.buckets != [] {
        assert w.buckets[0] in w.buckets;
        ElapsedIs(now, w.buckets[0].start);
      }
      hide Inv, Horizon;
      EvictKeeps(cfg, w, now);
      if n > 0 {
        PushKeeps(cfg, Evict(cfg, w, now), Bucket(now, HitsOf(n, now)), now);
      }
    }
  }

  // ----- the log is what is gone, then what is counted -----

  lemma {:induction false} LiveLast(buckets: seq<Bucket>)
    requires buckets != []
    ensures Live(buckets) == buckets[|buckets| - 1].hits + Live(buckets[..|buckets| - 1])
    decreases |buckets|
  {
    var k := |buckets| - 1;
    if k > 0 {
      LiveLast(buckets[1..]);
      assert buckets[1..][..k - 1] == buckets[..k][1..];
      assert Live(buckets[..k]) == Live(buckets[..k][1..]) + buckets[0].hits;
      var last, mid := buckets[k].hits, Live(buckets[..k][1..]);
      assert (last + mid) + buckets[0].hits == last + (mid + buckets[0].hits);
    } else {
      assert buckets == [buckets[0]];
      assert [] + buckets[0].hits == buckets[0].hits + [];
    }
  }

  lemma {:induction false} EvictMoves(cfg: Config, w: Window, now: int)
    requires cfg.Valid()
    ensures var r := Evict(cfg, w, now);
            r.gone + Live(r.buckets) == w.gone + Live(w.buckets) && w.gone <= r.gone
    decreases |w.buckets|
  {
    var r := Evict(cfg, w, now);
    if r != w {
      var k := |w.buckets| - 1;
      LiveLast(w.buckets);
      EvictMoves(cfg, Window(w.buckets[..k], w.gone + w.buckets[k].hits), now);
      assert w.gone + w.buckets[k].hits + Live(w.buckets[..k]) == w.gone + (w.buckets[k].hits + Live(w.buckets[..k]));
    }
  }

  /** One turn of the eviction loop. */
  lemma EvictTurn(cfg: Config, w: Window, k: nat, now: int)
    requires cfg.Valid() && |w.buckets| == k + 1
    ensures Evict(cfg, w, now) ==
            if Elapsed(now, w.buckets[k].start) < cfg.period && |w.buckets| < cfg.Entries() then w
            else Evict(cfg, Window(w.buckets[..k], w.gone + w.buckets[k].hits), now)
  {
  }

  lemma UpdateLogs(cfg: Config, w: Window, n: nat, now: int)
    requires cfg.Valid()
    ensures var r := Update(cfg, w, n, now);
            r.gone + Live(r.buckets) == w.gone + Live(w.buckets) + HitsOf(n, now) && w.gone <= r.gone
  {
    var r := Update(cfg, w, n, now);
    var new_ := HitsOf(n, now);
    if Open(cfg, w, now) {
      assert r.buckets[1..] == w.buckets[1..];
      assert Live(w.buckets[1..]) + (w.buckets[0].hits + new_) == Live(w.buckets) + new_;
      assert w.gone + (Live(w.buckets) + new_) == w.gone + Live(w.buckets) + new_;
    } else {
      EvictMoves(cfg, w, now);
      var kept := Evict(cfg, w, now);
      if n == 0 {
        assert w.gone + Live(w.buckets) + [] == w.gone + Live(w.buckets);
      } else {
        assert r.buckets[1..] == kept.buckets;
        assert kept.gone + (Live(kept.buckets) + new_) == kept.gone + Live(kept.buckets) + new_;
      }
    }
  }

  lemma {:induction false} RunKeeps(cfg: Config, reports: seq<Hit>)
    requires cfg.Valid() && Timely(reports) && reports != []
    ensures Inv(cfg, Run(cfg, reports), reports[|reports| - 1].at)
    ensures var w := Run(cfg, reports); Log(reports) == w.gone + Live(w.buckets)
    decreases |reports|
  {
    hide Inv, Update;
    var k := |reports| - 1;
    var last := reports[k];
    var earlier := reports[..k];
    var w := Run(cfg, earlier);
    if k > 0 {
      RunKeeps(cfg, earlier);
      Later(cfg, w, earlier[k - 1].at, last.at);
    } else {
      EmptyKeeps(cfg, last.at);
    }
    UpdateKeeps(cfg, w, last.count, last.at);
    UpdateLogs(cfg, w, last.count, last.at);
  }

  lemma EmptyKeeps(cfg: Config, now: int)
    requires cfg.Valid()
    ensures Inv(cfg, EMPTY, now)
  {
  }

  lemma {:induction false} InLive(buckets: seq<Bucket>, h: Hit) returns (b: Bucket)
    requires h in Live(buckets)
    ensures b in buckets && h in b.hits
    decreases |buckets|
  {
    if h in buckets[0].hits {
      b := buckets[0];
    } else {
      b := InLive(buckets[1..], h);
    }
  }

  /** The window of every run: what is counted is an end of the log of events; everything younger than
      the horizon is in it, and nothing as old as a period and an interval. An update that evicts
      leaves nothing as old as a period. */
  lemma WindowTheorem(cfg: Config, reports: seq<Hit>)
    requires cfg.Valid() && Timely(reports) && reports != []
    ensures var w, now := Run(cfg, reports), reports[|reports| - 1].at;
            && Log(reports) == w.gone + Live(w.buckets)
            && (forall h | h in w.gone :: now - h.at >= Horizon(cfg))
            && (forall h | h in Live(w.buckets) :: 0 <= now - h.at < cfg.period + cfg.interval)
            && (!Open(cfg, Run(cfg, reports[..|reports| - 1]), now) ==>
                  forall h | h in Live(w.buckets) :: now - h.at < cfg.period)
  {
    hide Horizon, Run, Open, Log, Inv;
    RunKeeps(cfg, reports);
    RunEnds(cfg, reports);
    var w, now := Run(cfg, reports), reports[|reports| - 1].at;
    GoneAges(cfg, w, now);
    LiveAges(cfg, w, now, cfg.period + cfg.interval);
    if !Open(cfg, Run(cfg, reports[..|reports| - 1]), now) {
      LiveAges(cfg, w, now, cfg.period);
    }
  }

  lemma RunEnds(cfg: Config, reports: seq<Hit>)
    requires cfg.Valid() && Timely(reports) && reports != []
    ensures var w, now := Run(cfg, reports), reports[|reports| - 1].at;
            && (forall b | b in w.buckets :: now - b.start < cfg.period + cfg.interval)
            && (!Open(cfg, Run(cfg, reports[..|reports| - 1]), now) ==> forall b | b in w.buckets :: now - b.start < cfg.period)
  {
    var k := |reports| - 1;
    var now, n := reports[k].at, reports[k].count;
    var before := Run(cfg, reports[..k]);
    if k > 0 {
      RunKeeps(cfg, reports[..k]);
      Later(cfg, before, reports[..k][k - 1].at, now);
    } else {
      EmptyKeeps(cfg, now);
    }
    hide Run, Horizon;
    UpdateKeeps(cfg, before, n, now);
    if Open(cfg, before, now) { OpenKeeps(cfg, before, n, now); }
  }

  lemma GoneAges(cfg: Config, w: Window, now: int)
    requires cfg.Valid() && Inv(cfg, w, now)
    ensures forall h | h in w.gone :: now - h.at >= Horizon(cfg)
  {
  }

  lemma LiveAges(cfg: Config, w: Window, now: int, bound: int)
    requires cfg.Valid() && Inv(cfg, w, now) && forall b | b in w.buckets :: now - b.start < bound
    ensures forall h | h in Live(w.buckets) :: 0 <= now - h.at < bound
  {
    hide Horizon;
    forall h | h in Live(w.buckets) ensures 0 <= now - h.at < bound {
      var b := InLive(w.buckets, h);
      assert BucketInv(cfg, b, now);
    }
  }

  // ----- the horizon cannot be improved, and when it covers the period -----

  /** Two events in one bucket, then one event in each of `k` further buckets, as close as possible. */
  function Steps(cfg: Config, k: nat): (r: seq<Hit>)
    ensures |r| == k + 2
  {
    if k == 0 then [Hit(0, 1), Hit(cfg.interval, 1)]
    else Steps(cfg, k - 1) + [Hit(StepTime(cfg, k), 1)]
  }

  function FirstBucket(cfg: Config): Bucket {
    Bucket(0, [Hit(0, 1), Hit(cfg.interval, 1)])
  }

  lemma RunSnoc(cfg: Config, reports: seq<Hit>, h: Hit)
    requires cfg.Valid()
    ensures Run(cfg, reports + [h]) == Update(cfg, Run(cfg, reports), h.count, h.at)
    ensures Timely(reports) && Clock(h.at) && (reports != [] ==> reports[|reports| - 1].at <= h.at) ==> Timely(reports + [h])
  {
    var r := reports + [h];
    assert r[..|reports|] == reports;
  }

  lemma FirstEvent(cfg: Config)
    requires cfg.Valid()
    ensures Run(cfg, [Hit(0, 1)]) == Window([Bucket(0, [Hit(0, 1)])], []) && Timely([Hit(0, 1)])
  {
    RunSnoc(cfg, [], Hit(0, 1));
    assert [] + [Hit(0, 1)] == [Hit(0, 1)];
    var b := Bucket(0, [Hit(0, 1)]);
    assert [b] + [] == [b];
  }

  lemma TwoEvents(cfg: Config)
    requires cfg.Valid()
    ensures Timely(Steps(cfg, 0))
    ensures Run(cfg, Steps(cfg, 0)) == Window([FirstBucket(cfg)], [])
  {
    FirstEvent(cfg);
    hide Run, Timely;
    RunSnoc(cfg, [Hit(0, 1)], Hit(cfg.interval, 1));
    assert [Hit(0, 1)] + [Hit(cfg.interval, 1)] == Steps(cfg, 0);
  }

  lemma PushStep(cfg: Config, w: Window, k: nat, now: int)
    requires cfg.Valid() && 0 < k == |w.buckets| < cfg.Entries()
    requires Clock(now) && Clock(w.buckets[0].start) && now - w.buckets[0].start > cfg.interval
    requires var t := w.buckets[k - 1].start; Clock(t) && 0 <= now - t < cfg.period
    ensures !Open(cfg, w, now)
    ensures Update(cfg, w, 1, now) == w.(buckets := [Bucket(now, [Hit(now, 1)])] + w.buckets)
  {
    ElapsedIs(now, w.buckets[0].start);
    ElapsedIs(now, w.buckets[k - 1].start);
    hide Elapsed;
  }

  /** The buckets that such a run leaves. */
  function StepBuckets(cfg: Config, k: nat): (r: seq<Bucket>)
    ensures |r| == k + 1
  {
    if k == 0 then [FirstBucket(cfg)]
    else [Bucket(StepTime(cfg, k), [Hit(StepTime(cfg, k), 1)])] + StepBuckets(cfg, k - 1)
  }

  lemma {:induction false} StepBucketsEnds(cfg: Config, k: nat)
    ensures StepBuckets(cfg, k)[0].start == StepTime(cfg, k)
    ensures StepBuckets(cfg, k)[k] == FirstBucket(cfg) && FirstBucket(cfg).start == 0
  {
    if k > 0 { StepBucketsEnds(cfg, k - 1); }
  }

  lemma {:induction false} StepTimeGrows(cfg: Config, k: nat)
    ensures k > 0 ==> StepTime(cfg, k) == StepTime(cfg, k - 1) + cfg.interval + 1
  {
  }

  lemma {:induction false} StepsTimely(cfg: Config, k: nat)
    requires cfg.Valid() && StepTime(cfg, k) < cfg.period
    ensures Timely(Steps(cfg, k)) && Steps(cfg, k)[k + 1].at <= StepTime(cfg, k) + cfg.interval
    decreases k
  {
    if k == 0 {
      TwoEvents(cfg);
    } else {
      StepTimeGrows(cfg, k);
      hide Run, Timely, StepTime;
      StepsTimely(cfg, k - 1);
      RunSnoc(cfg, Steps(cfg, k - 1), Hit(StepTime(cfg, k), 1));
    }
  }

  lemma StepPushed(cfg: Config, k: nat)
    requires cfg.Valid() && 0 < k < cfg.Entries() && StepTime(cfg, k) < cfg.period
    ensures Update(cfg, Window(StepBuckets(cfg, k - 1), []), 1, StepTime(cfg, k)) == Window(StepBuckets(cfg, k), [])
  {
    StepTimeGrows(cfg, k);
    StepBucketsEnds(cfg, k - 1);
    hide Update, Open, Elapsed, StepTime, FirstBucket, Config.Entries;
    PushStep(cfg, Window(StepBuckets(cfg, k - 1), []), k, StepTime(cfg, k));
  }

  lemma {:induction false} StepsRun(cfg: Config, k: nat)
    requires cfg.Valid() && k < cfg.Entries() && StepTime(cfg, k) < cfg.period
    ensures Run(cfg, Steps(cfg, k)) == Window(StepBuckets(cfg, k), [])
    decreases k
  {
    if k == 0 {
      TwoEvents(cfg);
    } else {
      StepTimeGrows(cfg, k);
      StepPushed(cfg, k);
      hide Run, Update, Timely, StepTime, StepBuckets, Config.Entries, Config.Valid;
      StepsRun(cfg, k - 1);
      RunSnoc(cfg, Steps(cfg, k - 1), Hit(StepTime(cfg, k), 1));
    }
  }

  /** An update at `now` that drops the bucket of the two events. */
  lemma DropsFirst(cfg: Config, k: nat, now: int) returns (reports: seq<Hit>)
    requires cfg.Valid() && k < cfg.Entries() && StepTime(cfg, k) < cfg.period
    requires StepTime(cfg, k) + cfg.interval < now < 0x2_0000
    requires now >= cfg.period || k + 1 == cfg.Entries()
    ensures Timely(reports) && reports != [] && reports[|reports| - 1].at == now
    ensures Hit(cfg.interval, 1) in Run(cfg, reports).gone
  {
    FirstBucketHits(cfg);
    hide *;
    StepsRun(cfg, k);
    StepsTimely(cfg, k);
    StepBucketsEnds(cfg, k);
    RunSnoc(cfg, Steps(cfg, k), Hit(now, 0));
    reports := Steps(cfg, k) + [Hit(now, 0)];
    ClockIs(now);
    StepTimeBounds(cfg, k);
    OldestGoes(cfg, Window(StepBuckets(cfg, k), []), k, now);
  }

  lemma FirstBucketHits(cfg: Config)
    ensures Hit(cfg.interval, 1) in FirstBucket(cfg).hits
  {
    assert FirstBucket(cfg).hits[1] == Hit(cfg.interval, 1);
  }

  lemma ClockIs(t: int)
    ensures 0 <= t < 0x2_0000 ==> Clock(t)
  {
  }

  lemma StepTimeBounds(cfg: Config, k: nat)
    requires cfg.Valid() && StepTime(cfg, k) < cfg.period
    ensures StepTime(cfg, k) < 0x1_0000 && Clock(StepTime(cfg, k)) && Clock(0)
  {
    hide StepTime;
  }

  /** An update without events, when the newest bucket is closed and the oldest has to go. */
  lemma OldestGoes(cfg: Config, w: Window, k: nat, now: int)
    requires cfg.Valid() && |w.buckets| == k + 1 && Clock(now) && Clock(w.buckets[0].start) && Clock(w.buckets[k].start)
    requires now - w.buckets[0].start > cfg.interval && now >= w.buckets[k].start
    requires now - w.buckets[k].start >= cfg.period || k + 1 >= cfg.Entries()
    ensures forall h | h in w.buckets[k].hits :: h in Update(cfg, w, 0, now).gone
  {
    ElapsedIs(now, w.buckets[0].start);
    ElapsedIs(now, w.buckets[k].start);
    EvictTurn(cfg, w, k, now);
    var w' := Window(w.buckets[..k], w.gone + w.buckets[k].hits);
    EvictMoves(cfg, w', now);
    hide Evict, Elapsed, Live;
    assert w'.gone <= Update(cfg, w, 0, now).gone;
    forall h | h in w.buckets[k].hits ensures h in Update(cfg, w, 0, now).gone {
      assert h in w'.gone;
    }
  }

  lemma Division(p: nat, i: nat)
    requires 1 <= i <= p
    ensures 1 <= p / i <= p && (p / i) * i == p - p % i
    ensures p == i ==> p / i == 1
  {
    if p == i { assert p == 1 * i; }
  }

  lemma EntriesBounds(cfg: Config)
    requires cfg.Valid()
    ensures var n, d := cfg.Entries(), cfg.interval + 1;
            && 1 <= n <= cfg.period
            && n * d == cfg.period - cfg.period % cfg.interval + n
            && StepTime(cfg, n) == n * d && StepTime(cfg, n - 1) == n * d - d
            && (n > 1 ==> d <= n * d - d)
            && (cfg.period == cfg.interval ==> n == 1)
  {
    var n, i := cfg.Entries(), cfg.interval;
    Division(cfg.period, i);
    StepTimeIs(cfg, n);
    assert n * (i + 1) == n * i + n;
    if n > 1 { assert StepTime(cfg, n - 1) == StepTime(cfg, n - 2) + i + 1; }
  }

  /** The run ends with this event no longer counted, at this age. */
  ghost predicate DropsAt(cfg: Config, reports: seq<Hit>, h: Hit, age: int)
    requires cfg.Valid()
  {
    Timely(reports) && reports != [] && h in Run(cfg, reports).gone && reports[|reports| - 1].at - h.at == age
  }

  lemma HorizonRun(cfg: Config) returns (reports: seq<Hit>, h: Hit)
    requires cfg.Valid()
    ensures DropsAt(cfg, reports, h, Horizon(cfg))
  {
    hide Run, Timely;
    var n, d := cfg.Entries(), cfg.interval + 1;
    EntriesBounds(cfg);
    h := Hit(cfg.interval, 1);
    if n * d <= Max(cfg.period, d) {
      reports := DropsFirst(cfg, n - 1, n * d);
    } else {
      reports := DropsFirst(cfg, 0, cfg.period);
    }
  }

  /** For every period and interval some run drops an event exactly as old as the horizon. */
  lemma HorizonTight(cfg: Config)
    requires cfg.Valid()
    ensures exists reports, h :: DropsAt(cfg, reports, h, Horizon(cfg))
  {
    var reports, h := HorizonRun(cfg);
  }

  /** At the end of the run, every event younger than the period less the interval is still counted. */
  ghost predicate CountsYoung(cfg: Config, reports: seq<Hit>)
    requires cfg.Valid()
  {
    Timely(reports) && reports != [] ==>
      forall h | h in Run(cfg, reports).gone :: reports[|reports| - 1].at - h.at >= cfg.period - cfg.interval
  }

  /** Every run counts all events younger than the period less the interval, if and only if the part of
      the period that does not divide into intervals is no longer than the number of intervals. */
  lemma YoungEventsCounted(cfg: Config)
    requires cfg.Valid()
    ensures (forall reports :: CountsYoung(cfg, reports)) <==> cfg.period % cfg.interval <= cfg.Entries()
  {
    EntriesBounds(cfg);
    if cfg.period % cfg.interval <= cfg.Entries() {
      forall reports ensures CountsYoung(cfg, reports) {
        if Timely(reports) && reports != [] { WindowTheorem(cfg, reports); }
      }
    } else {
      var reports, h := HorizonRun(cfg);
      assert !CountsYoung(cfg, reports);
    }
  }

  function Oldest(w: Window): int {
    if w.buckets == [] then 0 else w.buckets[|w.buckets| - 1].start
  }

  lemma OldestIs(w: Window, k: nat)
    requires |w.buckets| == k + 1
    ensures Oldest(w) == w.buckets[k].start
  {
  }

  /** The table is full and its oldest bucket has not reached the period: an update that does not find
      the newest bucket open will drop it early. */
  ghost predicate DropsEarly(cfg: Config, reports: seq<Hit>, now: int)
    requires cfg.Valid()
  {
    var w := Run(cfg, reports);
    && Timely(reports) && reports != [] && Clock(now) && reports[|reports| - 1].at <= now
    && !Open(cfg, w, now) && |w.buckets| == cfg.Entries()
    && now - Oldest(w) < cfg.period
  }

  lemma FullIsOld(cfg: Config, reports: seq<Hit>, now: int)
    requires cfg.Valid() && cfg.period % cfg.interval <= cfg.Entries()
    ensures !DropsEarly(cfg, reports, now)
  {
    hide *;
    if DropsEarly(cfg, reports, now) {
      DropsEarlyIs(cfg, reports, now);
      RunKeeps(cfg, reports);
      Later(cfg, Run(cfg, reports), reports[|reports| - 1].at, now);
      FullSpan(cfg, Run(cfg, reports), now);
    }
  }

  lemma DropsEarlyIs(cfg: Config, reports: seq<Hit>, now: int)
    requires cfg.Valid() && DropsEarly(cfg, reports, now)
    ensures Timely(reports) && reports != [] && Clock(now) && reports[|reports| - 1].at <= now
    ensures var w := Run(cfg, reports);
            !Open(cfg, w, now) && w.buckets != [] && |w.buckets| == cfg.Entries() && now - Oldest(w) < cfg.period
  {
    EntriesBounds(cfg);
    hide Run, Open, Timely, Clock, Config.Entries;
  }

  /** A full table whose newest bucket is closed spans as many intervals, each with a second to spare. */
  lemma FullSpan(cfg: Config, w: Window, now: int)
    requires cfg.Valid() && Clock(now) && Inv(cfg, w, now)
    requires w.buckets != [] && !Open(cfg, w, now) && |w.buckets| == cfg.Entries()
    ensures now - Oldest(w) >= cfg.period - cfg.period % cfg.interval + cfg.Entries()
  {
    assert w.buckets[0] in w.buckets;
    ElapsedIs(now, w.buckets[0].start);
    EntriesBounds(cfg);
    var k: nat := |w.buckets| - 1;
    Spread(cfg, w, now, k);
    OldestIs(w, k);
    assert StepTime(cfg, k + 1) == StepTime(cfg, k) + cfg.interval + 1;
    hide Elapsed, Inv, Oldest, Config.Entries;
  }

  /** The table size never cuts a bucket's time short, under the same condition and no other. */
  lemma CapacityIsEnough(cfg: Config)
    requires cfg.Valid()
    ensures (forall reports, now :: !DropsEarly(cfg, reports, now)) <==> cfg.period % cfg.interval <= cfg.Entries()
  {
    if cfg.period % cfg.interval <= cfg.Entries() {
      forall reports, now ensures !DropsEarly(cfg, reports, now) { FullIsOld(cfg, reports, now); }
    } else {
      hide DropsEarly;
      StepsDropEarly(cfg);
    }
  }

  lemma StepsDropEarly(cfg: Config)
    requires cfg.Valid() && cfg.period % cfg.interval > cfg.Entries()
    ensures DropsEarly(cfg, Steps(cfg, cfg.Entries() - 1), StepTime(cfg, cfg.Entries()))
  {
    hide Run, Timely, Steps, Elapsed, Open, StepTime, Config.Entries, Oldest;
    EntriesBounds(cfg);
    StepsClosed(cfg, cfg.Entries() - 1);
  }

  lemma StepsClosed(cfg: Config, k: nat)
    requires cfg.Valid() && k < cfg.Entries() && StepTime(cfg, k) < cfg.period
    ensures var r, now := Steps(cfg, k), StepTime(cfg, k + 1);
            && Timely(r) && r[|r| - 1].at <= now && Clock(now)
            && !Open(cfg, Run(cfg, r), now) && |Run(cfg, r).buckets| == k + 1 && Oldest(Run(cfg, r)) == 0
  {
    StepTimeGrows(cfg, k + 1);
    hide Run, Timely, Steps, FirstBucket, StepTime, StepBuckets;
    StepsRun(cfg, k);
    StepsTimely(cfg, k);
    StepBucketsEnds(cfg, k);
    var w := Run(cfg, Steps(cfg, k));
    ElapsedIs(StepTime(cfg, k + 1), w.buckets[0].start);
    OldestIs(w, k);
    hide Elapsed, Oldest;
  }

  // ----- a clock that goes back -----

  /** When the clock has gone back behind all buckets, the counter begins anew. */
  lemma ClockGoesBack(cfg: Config, w: Window, n: nat, now: int)
    requires cfg.Valid() && Clock(now) && forall b | b in w.buckets :: Clock(b.start) && now < b.start
    ensures Update(cfg, w, n, now).buckets == if n == 0 then [] else [Bucket(now, [Hit(now, n)])]
  {
    AllEvicted(cfg, w, now);
    if w.buckets != [] {
      assert w.buckets[0] in w.buckets;
      BackIsLong(now, w.buckets[0].start);
    }
    hide Evict, Elapsed;
    assert [Bucket(now, [Hit(now, n)])] + [] == [Bucket(now, [Hit(now, n)])];
  }

  lemma BackIsLong(now: int, t: int)
    requires Clock(now) && Clock(t) && now < t
    ensures Elapsed(now, t) > 0x1_0000
  {
  }

  lemma {:induction false} AllEvicted(cfg: Config, w: Window, now: int)
    requires cfg.Valid() && Clock(now) && forall b | b in w.buckets :: Clock(b.start) && now < b.start
    ensures Evict(cfg, w, now).buckets == []
    decreases |w.buckets|
  {
    hide Elapsed;
    if w.buckets != [] {
      var last := w.buckets[|w.buckets| - 1];
      assert last in w.buckets;
      BackIsLong(now, last.start);
      AllEvicted(cfg, Window(w.buckets[..|w.buckets| - 1], w.gone + last.hits), now);
    }
  }
}
