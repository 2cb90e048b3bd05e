/** Daily and monthly quota counters kept under expiring keys. Token counts are whole reals, costs any reals. */
module QuotaCounters {
  const DAILY_TTL := 25.0 * 3600.0
  const MONTHLY_TTL := 35.0 * 24.0 * 3600.0

  datatype Metric = Tokens | Cost

  datatype Period = Day(day: int) | Month(month: int)

  datatype Key = Key(tenant: string, metric: Metric, period: Period)

  /** The local calendar: which day an instant belongs to, and which month a day. */
  datatype Calendar = Calendar(dayOf: real -> int, monthOf: int -> int)

  /** Days come in order and last at most 25 hours (a clock change); instants of one month are less than 35 days apart. */
  ghost predicate Valid(cal: Calendar) {
    && (forall t, u :: t <= u ==> cal.dayOf(t) <= cal.dayOf(u))
    && (forall t, u :: t <= u && cal.dayOf(t) == cal.dayOf(u) ==> u - t < DAILY_TTL)
    && (forall t, u :: t <= u && cal.monthOf(cal.dayOf(t)) == cal.monthOf(cal.dayOf(u)) ==> u - t < MONTHLY_TTL)
  }

  function Today(cal: Calendar, now: real): Period {
    Day(cal.dayOf(now))
  }

  function ThisMonth(cal: Calendar, now: real): Period {
    Month(cal.monthOf(cal.dayOf(now)))
  }

  /** The period of the same kind that an instant falls in. */
  function PeriodAt(cal: Calendar, like: Period, now: real): Period {
    if like.Day? then Today(cal, now) else ThisMonth(cal, now)
  }

  function Ttl(p: Period): real {
    if p.Day? then DAILY_TTL else MONTHLY_TTL
  }

  // ---- History ----

  datatype Event =
    | Increment(tenant: string, metric: Metric, amount: real, at: real)
    | Reset(tenant: string, at: real)

  /** What the increments of a period add up to since the last reset made within it. */
  function SumSinceReset(cal: Calendar, h: seq<Event>, key: Key): real {
    if h == [] then 0.0
    else
      var e, before := h[|h| - 1], SumSinceReset(cal, h[..|h| - 1], key);
      if e.tenant != key.tenant || PeriodAt(cal, key.period, e.at) != key.period then before
      else match e
        case Increment(_, metric, amount, _) => if metric == key.metric then before + amount else before
        case Reset(_, _) => 0.0
  }

  /**
   * The same, by the calendar alone: the increments of the tenant and metric at instants that fall where the given one
   * does, on the same day or in the same month, since the tenant's last reset at such an instant.
   */
  function Spent(cal: Calendar, h: seq<Event>, tenant: string, metric: Metric, monthly: bool, now: real): real {
    if h == [] then 0.0
    else
      var e, before := h[|h| - 1], Spent(cal, h[..|h| - 1], tenant, metric, monthly, now);
      var together := if monthly then cal.monthOf(cal.dayOf(e.at)) == cal.monthOf(cal.dayOf(now))
                      else cal.dayOf(e.at) == cal.dayOf(now);
      if e.tenant == tenant && together then
        if e.Reset? then 0.0 else if e.metric == metric then before + e.amount else before
      else before
  }

  lemma {:induction false} SumIsSpent(cal: Calendar, h: seq<Event>, tenant: string, metric: Metric, now: real)
    ensures SumSinceReset(cal, h, Key(tenant, metric, Today(cal, now))) == Spent(cal, h, tenant, metric, false, now)
    ensures SumSinceReset(cal, h, Key(tenant, metric, ThisMonth(cal, now))) == Spent(cal, h, tenant, metric, true, now)
  {
    if h != [] {
      SumIsSpent(cal, h[..|h| - 1], tenant, metric, now);
    }
  }

  // ---- The key-value store ----

  /** A counter is visible strictly before its expiry; an expired one counts as absent. */
  datatype Counter = Counter(value: real, expiresAt: real)

  type Store = map<Key, Counter>

  function Read(s: Store, key: Key, now: real): real {
    if key in s && now < s[key].expiresAt then s[key].value else 0.0
  }

  /** INCRBY followed by EXPIRE. */
  function Bumped(s: Store, key: Key, amount: real, now: real): Store {
    s[key := Counter(Read(s, key, now) + amount, now + Ttl(key.period))]
  }

  /** An incremented counter is readable for 25 hours, a monthly one for 35 days, and counts from zero again after that. */
  lemma BumpedUntil(s: Store, key: Key, amount: real, now: real, later: real)
    ensures Read(Bumped(s, key, amount, now), key, later)
         == if later < now + (if key.period.Day? then 90000.0 else 3024000.0) then Read(s, key, now) + amount else 0.0
    ensures forall other :: other != key ==> Read(Bumped(s, key, amount, now), other, later) == Read(s, other, later)
  {
  }

  function Keys(cal: Calendar, tenant: string, now: real): set<Key> {
    {Key(tenant, Tokens, Today(cal, now)), Key(tenant, Tokens, ThisMonth(cal, now)),
     Key(tenant, Cost, Today(cal, now)), Key(tenant, Cost, ThisMonth(cal, now))}
  }

  /** Every key holds its exact sum, and was last refreshed at an instant of its own period. */
  ghost predicate ExactAt(cal: Calendar, s: Store, h: seq<Event>, clock: real, key: Key) {
    if key in s then
      var refreshed := s[key].expiresAt - Ttl(key.period);
      && refreshed <= clock
      && PeriodAt(cal, key.period, refreshed) == key.period
      && s[key].value == SumSinceReset(cal, h, key)
    else SumSinceReset(cal, h, key) == 0.0
  }

  ghost predicate Exact(cal: Calendar, s: Store, h: seq<Event>, clock: real) {
    forall key :: ExactAt(cal, s, h, clock, key)
  }

  /** No counter of the current period is ever lost to its expiry. */
  lemma CurrentReadIsExact(cal: Calendar, s: Store, h: seq<Event>, clock: real, key: Key, now: real)
    requires Valid(cal) && Exact(cal, s, h, clock) && clock <= now
    requires PeriodAt(cal, key.period, now) == key.period
    ensures Read(s, key, now) == SumSinceReset(cal, h, key)
  {
    assert ExactAt(cal, s, h, clock, key);
    if key in s {
      var refreshed := s[key].expiresAt - Ttl(key.period);
      assert refreshed <= now;
      assert now - refreshed < Ttl(key.period) by {
        if key.period.Day? {
          assert cal.dayOf(refreshed) == cal.dayOf(now);
        } else {
          assert cal.monthOf(cal.dayOf(refreshed)) == cal.monthOf(cal.dayOf(now));
        }
      }
    }
  }

  function AfterIncrement(cal: Calendar, s: Store, tenant: string, metric: Metric, amount: real, now: real): Store {
    Bumped(Bumped(s, Key(tenant, metric, Today(cal, now)), amount, now),
           Key(tenant, metric, ThisMonth(cal, now)), amount, now)
  }

  lemma IncrementKeepsExact(cal: Calendar, s: Store, h: seq<Event>, clock: real, tenant: string, metric: Metric,
                            amount: real, now: real)
    requires Valid(cal) && Exact(cal, s, h, clock) && clock <= now
    ensures Exact(cal, AfterIncrement(cal, s, tenant, metric, amount, now), h + [Increment(tenant, metric, amount, now)], now)
  {
    var next, e := AfterIncrement(cal, s, tenant, metric, amount, now), Increment(tenant, metric, amount, now);
    var longer := h + [e];
    assert longer[..|h|] == h;
    forall key: Key ensures ExactAt(cal, next, longer, now, key) {
      assert ExactAt(cal, s, h, clock, key);
      if PeriodAt(cal, key.period, now) == key.period {
        CurrentReadIsExact(cal, s, h, clock, key, now);
      }
    }
  }

  lemma ResetKeepsExact(cal: Calendar, s: Store, h: seq<Event>, clock: real, tenant: string, now: real)
    requires Exact(cal, s, h, clock) && clock <= now
    ensures Exact(cal, s - Keys(cal, tenant, now), h + [Reset(tenant, now)], now)
  {
    var next, longer := s - Keys(cal, tenant, now), h + [Reset(tenant, now)];
    assert longer[..|h|] == h;
    forall key: Key ensures ExactAt(cal, next, longer, now, key) {
      assert ExactAt(cal, s, h, clock, key);
      var hit := key.tenant == tenant && PeriodAt(cal, key.period, now) == key.period;
      assert key == Key(key.tenant, key.metric, key.period) && (key.metric == Tokens || key.metric == Cost);
      assert hit <==> key in Keys(cal, tenant, now);
    }
  }

  /** Whole increments have whole sums, so converting a token counter to an integer loses nothing. */
  lemma {:induction false} WholeSums(cal: Calendar, h: seq<Event>, key: Key) returns (n: int)
    requires forall i :: 0 <= i < |h| && h[i].Increment? && h[i].metric == key.metric ==>
               h[i].amount == h[i].amount.Floor as real
    ensures SumSinceReset(cal, h, key) == n as real
    ensures SumSinceReset(cal, h, key).Floor == n
  {
    n := 0;
    if h != [] {
      var e := h[|h| - 1];
      n := WholeSums(cal, h[..|h| - 1], key);
      if e.tenant == key.tenant && PeriodAt(cal, key.period, e.at) == key.period {
        if e.Reset? {
          n := 0;
        } else if e.metric == key.metric {
          n := n + e.amount.Floor;
        }
      }
    }
  }

  // ---- Daily against monthly ----

  ghost predicate Ordered(h: seq<Event>, now: real) {
    && (forall i, j :: 0 <= i < j < |h| ==> h[i].at <= h[j].at)
    && (forall i :: 0 <= i < |h| ==> h[i].at <= now)
  }

  ghost predicate NonNegative(h: seq<Event>) {
    forall i :: 0 <= i < |h| && h[i].Increment? ==> h[i].amount >= 0.0
  }

  lemma {:induction false} NoSumBeforeItsDay(cal: Calendar, h: seq<Event>, key: Key, now: real)
    requires Valid(cal) && Ordered(h, now) && key.period.Day? && cal.dayOf(now) < key.period.day
    ensures SumSinceReset(cal, h, key) == 0.0
  {
    if h != [] {
      NoSumBeforeItsDay(cal, h[..|h| - 1], key, now);
    }
  }

  /** With non-negative increments the usage of a day never exceeds that of its month. */
  lemma {:induction false} DailyAtMostMonthly(cal: Calendar, h: seq<Event>, tenant: string, metric: Metric, now: real, day: int)
    requires Valid(cal) && Ordered(h, now) && NonNegative(h) && cal.dayOf(now) <= day
    ensures 0.0 <= SumSinceReset(cal, h, Key(tenant, metric, Day(day)))
         <= SumSinceReset(cal, h, Key(tenant, metric, Month(cal.monthOf(day))))
  {
    if h != [] {
      var init, e := h[..|h| - 1], h[|h| - 1];
      DailyAtMostMonthly(cal, init, tenant, metric, now, day);
      if cal.dayOf(e.at) < day {
        NoSumBeforeItsDay(cal, init, Key(tenant, metric, Day(day)), e.at);
      }
    }
  }

  // ---- A calendar of this kind ----

  /** Days of exactly 24 hours counted from an epoch. */
  function UtcDay(t: real): int {
    (t / 86400.0).Floor
  }

  /** Any grouping of such days into months whose days lie within 31 of each other satisfies the assumptions. */
  lemma UtcCalendarIsValid(monthOf: int -> int)
    requires forall d, e :: d <= e && monthOf(d) == monthOf(e) ==> e - d <= 30
    ensures Valid(Calendar(UtcDay, monthOf))
  {
  }

  // ---- The counters ----

  datatype Usage = Usage(dailyTokens: int, monthlyTokens: int, dailyCost: real, monthlyCost: real)

  class Quota {
    const cal: Calendar
    var store: Store

    ghost var history: seq<Event>
    ghost var clock: real

    ghost predicate ValidState()
      reads this
    {
      Valid(cal) && Exact(cal, store, history, clock) && Ordered(history, clock)
    }

    constructor (cal: Calendar, now: real)
      requires Valid(cal)
      ensures ValidState() && history == [] && clock == now && this.cal == cal
    {
      this.cal := cal;
      store := map[];
      history, clock := [], now;
    }

    /** The new totals are the exact sums of the current day and month. */
    method IncrementUsage(tenant: string, metric: Metric, amount: real, now: real) returns (daily: real, monthly: real)
      requires ValidState() && clock <= now
      modifies this
      ensures ValidState() && clock == now
      ensures history == old(history) + [Increment(tenant, metric, amount, now)]
      ensures daily == SumSinceReset(cal, history, Key(tenant, metric, Today(cal, now)))
      ensures monthly == SumSinceReset(cal, history, Key(tenant, metric, ThisMonth(cal, now)))
      ensures daily == Spent(cal, history, tenant, metric, false, now)
      ensures monthly == Spent(cal, history, tenant, metric, true, now)
    {
      var dailyKey := Key(tenant, metric, Today(cal, now));
      var monthlyKey := Key(tenant, metric, ThisMonth(cal, now));
      IncrementKeepsExact(cal, store, history, clock, tenant, metric, amount, now);
      store := store[dailyKey := Counter(Read(store, dailyKey, now) + amount, now + DAILY_TTL)];
      daily := store[dailyKey].value;
      store := store[monthlyKey := Counter(Read(store, monthlyKey, now) + amount, now + MONTHLY_TTL)];
      monthly := store[monthlyKey].value;
      history, clock := history + [Increment(tenant, metric, amount, now)], now;
      assert ExactAt(cal, store, history, clock, dailyKey) && ExactAt(cal, store, history, clock, monthlyKey);
      SumIsSpent(cal, history, tenant, metric, now);
    }

    /** Reading changes nothing and returns the exact sums, zero when nothing is stored. */
    method GetCurrentUsage(tenant: string, now: real) returns (usage: Usage)
      requires ValidState() && clock <= now
      ensures usage == Usage(
        SumSinceReset(cal, history, Key(tenant, Tokens, Today(cal, now))).Floor,
        SumSinceReset(cal, history, Key(tenant, Tokens, ThisMonth(cal, now))).Floor,
        SumSinceReset(cal, history, Key(tenant, Cost, Today(cal, now))),
        SumSinceReset(cal, history, Key(tenant, Cost, ThisMonth(cal, now))))
      ensures usage == Usage(
        Spent(cal, history, tenant, Tokens, false, now).Floor, Spent(cal, history, tenant, Tokens, true, now).Floor,
        Spent(cal, history, tenant, Cost, false, now), Spent(cal, history, tenant, Cost, true, now))
      ensures NonNegative(history) ==>
        0 <= usage.dailyTokens <= usage.monthlyTokens && 0.0 <= usage.dailyCost <= usage.monthlyCost
    {
      if NonNegative(history) {
        DailyAtMostMonthly(cal, history, tenant, Tokens, now, cal.dayOf(now));
        DailyAtMostMonthly(cal, history, tenant, Cost, now, cal.dayOf(now));
      }
      SumIsSpent(cal, history, tenant, Tokens, now);
      SumIsSpent(cal, history, tenant, Cost, now);
      var dailyTokens := Key(tenant, Tokens, Today(cal, now));
      var monthlyTokens := Key(tenant, Tokens, ThisMonth(cal, now));
      var dailyCost := Key(tenant, Cost, Today(cal, now));
      var monthlyCost := Key(tenant, Cost, ThisMonth(cal, now));
      CurrentReadIsExact(cal, store, history, clock, dailyTokens, now);
      CurrentReadIsExact(cal, store, history, clock, monthlyTokens, now);
      CurrentReadIsExact(cal, store, history, clock, dailyCost, now);
      CurrentReadIsExact(cal, store, history, clock, monthlyCost, now);
      usage := Usage(Read(store, dailyTokens, now).Floor, Read(store, monthlyTokens, now).Floor,
                     Read(store, dailyCost, now), Read(store, monthlyCost, now));
    }

    method ResetTenantQuota(tenant: string, now: real)
      requires ValidState() && clock <= now
      modifies this
      ensures ValidState() && clock == now
      ensures history == old(history) + [Reset(tenant, now)]
      ensures store == old(store) - Keys(cal, tenant, now)
    {
      ResetKeepsExact(cal, store, history, clock, tenant, now);
      store := store - Keys(cal, tenant, now);
      history, clock := history + [Reset(tenant, now)], now;
    }
  }
}
