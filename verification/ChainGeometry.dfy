/**
 src/config/pricing.ts, getAkashChainGeometry: how fast the chain makes
 blocks, from a live sample, a cache, the persisted row, or a constant.
 */
module ChainGeometry {
  import opened Option

  const BLOCKS_PER_DAY_MIN := 12_000
  const BLOCKS_PER_DAY_MAX := 16_000
  const BLOCKS_PER_HOUR := 588
  const BLOCKS_PER_DAY := 14_124
  const CACHE_TTL_MS := 3_600_000

  datatype Source = ConsoleApi | StaticFallback | FromCache

  datatype Geometry = Geometry(
    secondsPerBlock: real, blocksPerHour: int, blocksPerDay: int, source: Source, sampledAt: int)

  datatype Block = Block(height: int, datetimeMs: int)

  /** `Math.round`: halves go up. */
  function Round(x: real): int {
    (x + 0.5).Floor
  }

  /** The arithmetic of `fetchAkashBlocksGeometry` on the blocks of a response; `None` where it throws. */
  function FromBlocks(blocks: seq<Block>, now: int): Option<Geometry> {
    if |blocks| < 10 then None
    else
      var head, tail := blocks[0], blocks[|blocks| - 1];
      if head.height <= tail.height || head.datetimeMs <= tail.datetimeMs then None
      else
        var secondsPerBlock :=
          (head.datetimeMs - tail.datetimeMs) as real / (head.height - tail.height) as real / 1000.0;
        if secondsPerBlock <= 0.0 then None
        else
          var perDay := Round(86_400.0 / secondsPerBlock);
          if perDay < BLOCKS_PER_DAY_MIN || perDay > BLOCKS_PER_DAY_MAX then None
          else Some(Geometry(secondsPerBlock, Round(3_600.0 / secondsPerBlock), perDay, ConsoleApi, now))
  }

  function Abs(x: int): int {
    if x < 0 then -x else x
  }

  /** A believable geometry: a sane day, and an hour that agrees with it up to rounding. */
  predicate Sane(g: Geometry) {
    && BLOCKS_PER_DAY_MIN <= g.blocksPerDay <= BLOCKS_PER_DAY_MAX
    && Abs(g.blocksPerDay - 24 * g.blocksPerHour) <= 12
  }

  /** Every sample that is accepted is sane. */
  lemma SampleIsSane(blocks: seq<Block>, now: int)
    ensures FromBlocks(blocks, now).Some? ==> Sane(FromBlocks(blocks, now).value)
  {
  }

  lemma Cancels(a: real, d: real)
    requires d > 0.0
    ensures (a / d) * d == a
  {
  }

  lemma Scales(x: real, y: real, d: real)
    requires d > 0.0
    ensures x <= y <==> x * d <= y * d
  {
  }

  lemma Regroup(a: real, b: real, c: real)
    ensures (a * b) * c == a * (b * c)
  {
  }

  /** `c` seconds of blocks at the rate of `blocks` blocks in `ms` milliseconds. */
  lemma BlocksIn(c: real, ms: real, blocks: real)
    requires ms > 0.0 && blocks > 0.0
    ensures var seconds := ms / blocks / 1000.0;
            && seconds > 0.0
            && seconds * (1000.0 * blocks) == ms
            && (c / seconds) * ms == c * (1000.0 * blocks)
  {
    var seconds := ms / blocks / 1000.0;
    Cancels(ms, blocks);
    Cancels(ms / blocks, 1000.0);
    Regroup(seconds, 1000.0, blocks);
    assert seconds * (1000.0 * blocks) == ms;
    if seconds <= 0.0 { Scales(seconds, 0.0, 1000.0 * blocks); }
    Cancels(c, seconds);
    Regroup(c / seconds, seconds, 1000.0 * blocks);
  }

  /** The whole number nearest to `part / whole`, halves going up. */
  predicate IsNearest(n: int, part: real, whole: real) {
    (n as real - 0.5) * whole <= part < (n as real + 0.5) * whole
  }

  lemma RoundBounds(x: real)
    ensures Round(x) as real - 0.5 <= x < Round(x) as real + 0.5
    ensures 12_000 <= Round(x) <= 16_000 <==> 11_999.5 <= x < 16_000.5
  {
  }

  lemma ScalesTo(y: real, x: real, whole: real, part: real)
    requires whole > 0.0 && x * whole == part
    ensures y <= x <==> y * whole <= part
  {
    Scales(y, x, whole);
  }

  lemma RoundMeaning(x: real, part: real, whole: real)
    requires whole > 0.0 && x * whole == part
    ensures IsNearest(Round(x), part, whole)
    ensures 12_000 <= Round(x) <= 16_000 <==> 11_999.5 * whole <= part < 16_000.5 * whole
  {
    RoundBounds(x);
    ScalesTo(Round(x) as real - 0.5, x, whole, part);
    ScalesTo(Round(x) as real + 0.5, x, whole, part);
    ScalesTo(11_999.5, x, whole, part);
    ScalesTo(16_000.5, x, whole, part);
  }

  /** The nearest whole number of blocks in `c` seconds. */
  lemma NearestBlocks(c: real, ms: real, made: real)
    requires ms > 0.0 && made > 0.0
    ensures var n := Round(c / (ms / made / 1000.0));
            && IsNearest(n, c * (1000.0 * made), ms)
            && (12_000 <= n <= 16_000 <==> 11_999.5 * ms <= c * (1000.0 * made) < 16_000.5 * ms)
  {
    BlocksIn(c, ms, made);
    RoundMeaning(c / (ms / made / 1000.0), c * (1000.0 * made), ms);
  }

  lemma Rates(ms: real, made: real)
    requires ms > 0.0 && made > 0.0
    ensures var seconds := ms / made / 1000.0;
            var day, hour := Round(86_400.0 / seconds), Round(3_600.0 / seconds);
            && seconds > 0.0 && seconds * (1000.0 * made) == ms
            && IsNearest(day, 86_400_000.0 * made, ms)
            && (12_000 <= day <= 16_000 <==> 11_999.5 * ms <= 86_400_000.0 * made < 16_000.5 * ms)
            && IsNearest(hour, 3_600_000.0 * made, ms)
  {
    BlocksIn(86_400.0, ms, made);
    NearestBlocks(86_400.0, ms, made);
    NearestBlocks(3_600.0, ms, made);
    assert 86_400.0 * (1000.0 * made) == 86_400_000.0 * made;
    assert 3_600.0 * (1000.0 * made) == 3_600_000.0 * made;
  }

  /**
   When a response is accepted, and as what, from the height and the time (in
   milliseconds) between its first and its last block: both must grow over ten
   or more blocks, and the rate must give 12000 to 16000 blocks a day; the
   results are the rate, and the nearest whole blocks to an hour and a day of it.
   */
  lemma SampleMeaning(blocks: seq<Block>, now: int)
    ensures |blocks| < 10 ==> FromBlocks(blocks, now) == None
    ensures |blocks| >= 10 ==>
              var head, tail, g := blocks[0], blocks[|blocks| - 1], FromBlocks(blocks, now);
              var ms, made := (head.datetimeMs - tail.datetimeMs) as real, (head.height - tail.height) as real;
              && (g.Some? <==> ms > 0.0 && made > 0.0 && 11_999.5 * ms <= 86_400_000.0 * made < 16_000.5 * ms)
              && (g.Some? ==>
                    && g.value.secondsPerBlock * (1000.0 * made) == ms
                    && IsNearest(g.value.blocksPerDay, 86_400_000.0 * made, ms)
                    && IsNearest(g.value.blocksPerHour, 3_600_000.0 * made, ms)
                    && g.value.source == ConsoleApi && g.value.sampledAt == now)
  {
    if |blocks| >= 10 {
      var head, tail := blocks[0], blocks[|blocks| - 1];
      if head.height > tail.height && head.datetimeMs > tail.datetimeMs {
        Rates((head.datetimeMs - tail.datetimeMs) as real, (head.height - tail.height) as real);
      }
    }
  }

  // ---- Calls, failures and restarts ----

  datatype Cached = Cached(value: Geometry, ts: int)

  /** The module's cache, and the persisted row. */
  datatype State = State(cache: Option<Cached>, row: Option<Geometry>)

  /** The environment of one call: the API's response, if any, and what the database does. */
  datatype Call = Call(now: int, response: Option<seq<Block>>, prisma: bool, writeOk: bool, readOk: bool)

  function Static(now: int): Geometry {
    Geometry(86_400.0 / BLOCKS_PER_DAY as real, BLOCKS_PER_HOUR, BLOCKS_PER_DAY, StaticFallback, now)
  }

  function Sample(c: Call): Option<Geometry> {
    if c.response.Some? then FromBlocks(c.response.value, c.now) else None
  }

  function Get(s: State, c: Call): (State, Geometry) {
    if s.cache.Some? && c.now - s.cache.value.ts < CACHE_TTL_MS then (s, s.cache.value.value.(source := FromCache))
    else
      match Sample(c)
      case Some(g) => (State(Some(Cached(g, c.now)), if c.prisma && c.writeOk then Some(g) else s.row), g)
      case None =>
        if s.cache.Some? then (s, s.cache.value.value.(source := FromCache))
        else if c.prisma && c.readOk && s.row.Some? then
          var hydrated := s.row.value.(source := FromCache);
          (s.(cache := Some(Cached(hydrated, c.now))), hydrated)
        else (s, Static(c.now))
  }

  datatype Event = Ask(call: Call) | Restart

  function Next(s: State, e: Event): State {
    match e
    case Ask(c) => Get(s, c).0
    case Restart => State(None, s.row)
  }

  function Run(s: State, events: seq<Event>): State
    decreases |events|
  {
    if events == [] then s else Run(Next(s, events[0]), events[1..])
  }

  ghost predicate SaneState(s: State) {
    (s.cache.Some? ==> Sane(s.cache.value.value)) && (s.row.Some? ==> Sane(s.row.value))
  }

  lemma {:induction false} RunStaysSane(s: State, events: seq<Event>)
    requires SaneState(s)
    ensures SaneState(Run(s, events))
    decreases |events|
  {
    if events == [] {
    } else {
      if events[0].Ask? && Sample(events[0].call).Some? {
        SampleIsSane(events[0].call.response.value, events[0].call.now);
      }
      RunStaysSane(Next(s, events[0]), events[1..]);
    }
  }

  /**
   A freshly started process returns only sane geometries, in every run of
   calls, failures and restarts, exactly when the row it may find persisted is
   absent or sane: that row is the one source nothing re-checks.
   */
  lemma AnswersAreSaneIff(row: Option<Geometry>)
    ensures (forall events: seq<Event>, c: Call :: Sane(Get(Run(State(None, row), events), c).1)) <==>
            (row.Some? ==> Sane(row.value))
  {
    if row.Some? ==> Sane(row.value) {
      forall events: seq<Event>, c: Call
        ensures Sane(Get(Run(State(None, row), events), c).1)
      {
        AnswerIsSane(State(None, row), events, c);
      }
    } else {
      var c := Call(0, None, true, true, true);
      assert Get(Run(State(None, row), []), c).1 == row.value.(source := FromCache);
    }
  }

  lemma AnswerIsSane(s: State, events: seq<Event>, c: Call)
    requires SaneState(s)
    ensures Sane(Get(Run(s, events), c).1)
  {
    RunStaysSane(s, events);
    if Sample(c).Some? { SampleIsSane(c.response.value, c.now); }
  }

  /** For an hour after a live sample every call answers with it, whatever the API and the database do. */
  lemma SampleServesAnHour(s: State, c: Call, later: Call)
    requires Sample(c).Some? && (s.cache.Some? ==> c.now - s.cache.value.ts >= 3_600_000)
    requires later.now - c.now < 3_600_000
    ensures var (s', g) := Get(s, c);
            && g == Sample(c).value && g.source == ConsoleApi && g.sampledAt == c.now
            && Get(s', later) == (s', g.(source := FromCache))
  {
  }

  /** Without a live sample a cached one is used however old, and nothing is written. */
  lemma StaleCacheServes(s: State, c: Call)
    requires s.cache.Some? && Sample(c).None?
    ensures Get(s, c) == (s, s.cache.value.value.(source := FromCache))
  {
  }

  /** A sample that was persisted survives a restart while the API is down. */
  lemma PersistedSampleSurvivesRestart(s: State, c: Call, later: Call)
    requires Sample(c).Some? && (s.cache.Some? ==> c.now - s.cache.value.ts >= 3_600_000)
    requires c.prisma && c.writeOk && later.prisma && later.readOk && Sample(later).None?
    ensures var restarted := Next(Get(s, c).0, Restart);
            && restarted.cache == None
            && Get(restarted, later).1 == Sample(c).value.(source := FromCache)
            && Get(restarted, later).0 == State(Some(Cached(Get(restarted, later).1, later.now)), restarted.row)
  {
  }

  /** A row is written by a live sample only, and only with a database that takes it. */
  lemma RowIsWrittenOnlyBySamples(s: State, c: Call)
    ensures Get(s, c).0.row != s.row ==>
              c.prisma && c.writeOk && Sample(c).Some? && Get(s, c).0.row == Sample(c)
  {
  }

  /** With neither sample, cache nor readable row, the constants answer, and nothing is cached. */
  lemma ConstantsServe(s: State, c: Call)
    requires s.cache == None && Sample(c).None? && (s.row == None || !c.prisma || !c.readOk)
    ensures Get(s, c) == (s, Geometry(86_400.0 / 14_124.0, 588, 14_124, StaticFallback, c.now))
  {
  }

  // ---- The module's own state ----

  class Pricing {
    var cache: Option<Cached>
    var row: Option<Geometry>

    ghost function Now(): State
      reads this
    {
      State(cache, row)
    }

    constructor (row: Option<Geometry>)
      ensures Now() == State(None, row)
    {
      this.cache, this.row := None, row;
    }

    method GetAkashChainGeometry(c: Call) returns (g: Geometry)
      modifies this
      ensures (Now(), g) == Get(old(Now()), c)
    {
      if cache.Some? && c.now - cache.value.ts < CACHE_TTL_MS {
        return cache.value.value.(source := FromCache);
      }
      var sample := Sample(c);
      if sample.Some? {
        cache := Some(Cached(sample.value, c.now));
        if c.prisma && c.writeOk {
          row := sample;
        }
        return sample.value;
      }
      if cache.Some? {
        return cache.value.value.(source := FromCache);
      }
      if c.prisma && c.readOk && row.Some? {
        g := row.value.(source := FromCache);
        cache := Some(Cached(g, c.now));
        return;
      }
      return Static(c.now);
    }
  }
}
