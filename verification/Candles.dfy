/** Candles: trades grouped into time buckets and summarised, and how candles of different widths relate. */
module Candles {
  import opened Prelude

  datatype Tick = Tick(price: real, quantity: real, time: int)

  datatype Item = Item(price: real, quantity: real)

  /** One group of the sorted map: a bucket start and its trades in order. */
  datatype Bar = Bar(time: int, items: seq<Item>)

  datatype Candle = Candle(time: int, open: real, high: real, low: real, close: real, volume: real)

  /** The `%` of the source, whose sign follows the dividend. */
  function Rem(x: int, m: int): int
    requires m > 0
  {
    if x >= 0 then x % m else -((-x) % m)
  }

  function Bucket(time: int, secs: int): int
    requires secs > 0
  {
    time - Rem(time, secs)
  }

  /** The widths offered; anything else means one minute. */
  function BucketSecs(interval: string): (secs: int)
    ensures secs > 0
  {
    if interval == "5m" then 300 else if interval == "15m" then 900 else if interval == "30m" then 1800
    else if interval == "1h" then 3600 else if interval == "4h" then 14400 else if interval == "1d" then 86400
    else if interval == "1w" then 604800 else 60
  }

  // ---------- Grouping ----------

  /** `entry(time).or_default().push(x)` on a map kept in key order. */
  function Push(bars: seq<Bar>, time: int, x: Item): seq<Bar> {
    if bars == [] || time < bars[0].time then [Bar(time, [x])] + bars
    else if bars[0].time == time then [Bar(time, bars[0].items + [x])] + bars[1..]
    else [bars[0]] + Push(bars[1..], time, x)
  }

  function Group(ticks: seq<Tick>, secs: int): seq<Bar>
    requires secs > 0
  {
    if ticks == [] then []
    else
      var t := ticks[|ticks| - 1];
      Push(Group(ticks[..|ticks| - 1], secs), Bucket(t.time, secs), Item(t.price, t.quantity))
  }

  // ---------- Summarising ----------

  function Max(x: real, y: real): real { if x >= y then x else y }

  function High(items: seq<Item>): real
    requires items != []
  {
    if |items| == 1 then items[0].price else Max(High(items[..|items| - 1]), items[|items| - 1].price)
  }

  function Low(items: seq<Item>): real
    requires items != []
  {
    if |items| == 1 then items[0].price else Min(Low(items[..|items| - 1]), items[|items| - 1].price)
  }

  function Volume(items: seq<Item>): real {
    if items == [] then 0.0 else Volume(items[..|items| - 1]) + items[|items| - 1].quantity
  }

  function Summary(time: int, items: seq<Item>): Candle
    requires items != []
  {
    Candle(time, items[0].price, High(items), Low(items), items[|items| - 1].price, Volume(items))
  }

  /** Two adjacent candles as one. */
  function Merge(a: Candle, b: Candle): Candle {
    Candle(a.time, a.open, Max(a.high, b.high), Min(a.low, b.low), b.close, a.volume + b.volume)
  }

  ghost predicate Filled(bars: seq<Bar>) {
    forall i | 0 <= i < |bars| :: bars[i].items != []
  }

  ghost predicate Ascending(bars: seq<Bar>) {
    forall i, j | 0 <= i < j < |bars| :: bars[i].time < bars[j].time
  }

  function Summaries(bars: seq<Bar>): (r: seq<Candle>)
    requires Filled(bars)
    ensures |r| == |bars| && forall i | 0 <= i < |r| :: r[i] == Summary(bars[i].time, bars[i].items)
  {
    seq(|bars|, i requires 0 <= i < |bars| => Summary(bars[i].time, bars[i].items))
  }

  /** The candles of the source: group every trade, then summarise each group in key order. */
  method MakeCandles(ticks: seq<Tick>, interval: string) returns (candles: seq<Candle>)
    ensures var bars := Group(ticks, BucketSecs(interval));
            Filled(bars) && Ascending(bars) && candles == Summaries(bars)
    ensures CandlesFor(ticks, interval, candles)
  {
    var bars := GroupTrades(ticks, BucketSecs(interval));
    GroupMeansFor(ticks, interval);
    candles := [];
    var i := 0;
    while i < |bars|
      invariant 0 <= i <= |bars|
      invariant |candles| == i && forall k | 0 <= k < i :: candles[k] == Summary(bars[k].time, bars[k].items)
    {
      var candle := Summarise(bars[i]);
      candles := candles + [candle];
      i := i + 1;
    }
    assert candles == Summaries(bars);
  }

  method GroupTrades(ticks: seq<Tick>, secs: int) returns (bars: seq<Bar>)
    requires secs > 0
    ensures bars == Group(ticks, secs) && Filled(bars) && Ascending(bars)
  {
    bars := [];
    var i := 0;
    while i < |ticks|
      invariant 0 <= i <= |ticks|
      invariant bars == Group(ticks[..i], secs)
    {
      var t := ticks[i];
      assert ticks[..i + 1][..i] == ticks[..i];
      bars := Push(bars, t.time - Rem(t.time, secs), Item(t.price, t.quantity));
      i := i + 1;
    }
    assert ticks[..i] == ticks;
    GroupShape(ticks, secs);
  }

  /** One pass over the trades of a group. */
  method Summarise(bar: Bar) returns (candle: Candle)
    requires bar.items != []
    ensures candle == Summary(bar.time, bar.items)
  {
    var items := bar.items;
    var high, low, volume := items[0].price, items[0].price, items[0].quantity;
    assert items[..1][..0] == [];
    assert Volume(items[..1]) == Volume(items[..1][..0]) + items[0].quantity;
    var i := 1;
    while i < |items|
      invariant 1 <= i <= |items|
      invariant high == High(items[..i]) && low == Low(items[..i]) && volume == Volume(items[..i])
    {
      assert items[..i + 1][..i] == items[..i];
      if items[i].price > high {
        high := items[i].price;
      }
      if items[i].price < low {
        low := items[i].price;
      }
      volume := volume + items[i].quantity;
      i := i + 1;
    }
    assert items[..i] == items;
    candle := Candle(bar.time, items[0].price, high, low, items[|items| - 1].price, volume);
  }

  // ---------- What candles are, without buckets and groups ----------

  /** The times of the candle that starts at `start`; the one at 0 reaches as far to the negative side. */
  predicate InCandle(time: int, start: int, secs: int) {
    if start > 0 then start <= time < start + secs
    else if start < 0 then start - secs < time <= start
    else -secs < time < secs
  }

  /** The trades at those times, in the order they came. */
  function Window(ticks: seq<Tick>, start: int, secs: int): seq<Tick> {
    if ticks == [] then []
    else
      var t := ticks[|ticks| - 1];
      Window(ticks[..|ticks| - 1], start, secs) + if InCandle(t.time, start, secs) then [t] else []
  }

  /** First, highest, lowest and last price of some trades, and how much they traded. */
  ghost predicate CandleOf(window: seq<Tick>, c: Candle) {
    && window != []
    && c.open == window[0].price && c.close == window[|window| - 1].price
    && (forall i | 0 <= i < |window| :: c.low <= window[i].price <= c.high)
    && (exists i :: 0 <= i < |window| && window[i].price == c.high)
    && (exists i :: 0 <= i < |window| && window[i].price == c.low)
    && c.volume == TotalQuantity(window)
  }

  /**
   Candles `secs` wide: in ascending time, at whole multiples, each of its own trades, and every trade in just
   one.
   */
  ghost predicate CandlesOf(ticks: seq<Tick>, secs: int, candles: seq<Candle>) {
    && secs > 0
    && (forall i, j | 0 <= i < j < |candles| :: candles[i].time < candles[j].time)
    && (forall i | 0 <= i < |candles| ::
          candles[i].time % secs == 0 && CandleOf(Window(ticks, candles[i].time, secs), candles[i]))
    && (forall i | 0 <= i < |ticks| :: InJustOne(ticks[i].time, candles, secs))
  }

  ghost predicate InJustOne(time: int, candles: seq<Candle>, secs: int) {
    exists k ::
      && 0 <= k < |candles| && InCandle(time, candles[k].time, secs)
      && forall j | 0 <= j < |candles| && j != k :: !InCandle(time, candles[j].time, secs)
  }

  /** The widths on offer, in seconds; any other name gets one minute. */
  ghost predicate CandlesFor(ticks: seq<Tick>, interval: string, candles: seq<Candle>) {
    && (interval == "5m" ==> CandlesOf(ticks, 300, candles))
    && (interval == "15m" ==> CandlesOf(ticks, 900, candles))
    && (interval == "30m" ==> CandlesOf(ticks, 1800, candles))
    && (interval == "1h" ==> CandlesOf(ticks, 3600, candles))
    && (interval == "4h" ==> CandlesOf(ticks, 14400, candles))
    && (interval == "1d" ==> CandlesOf(ticks, 86400, candles))
    && (interval == "1w" ==> CandlesOf(ticks, 604800, candles))
    && (interval !in ["5m", "15m", "30m", "1h", "4h", "1d", "1w"] ==> CandlesOf(ticks, 60, candles))
  }

  lemma {:induction false} MultipleOf(q: int, m: int)
    requires m > 0
    ensures (q * m) % m == 0
  {
    DivUnique(q * m, m, q);
  }

  lemma {:induction false} BucketIsMultiple(time: int, secs: int)
    requires secs > 0
    ensures Bucket(time, secs) % secs == 0
  {
    BucketIsFloor(time, secs);
    if time >= 0 { MultipleOf(time / secs, secs); } else { NegatedMultiple((-time) / secs, secs); }
  }

  lemma {:induction false} NegatedMultiple(q: int, m: int)
    requires m > 0
    ensures (-(q * m)) % m == 0
  {
    MultipleOf(-q, m);
    assert (-q) * m == -(q * m);
  }

  /** Between two multiples lies a whole width. */
  lemma {:induction false} MultiplesApart(a: int, b: int, secs: int)
    requires secs > 0 && a % secs == 0 && b % secs == 0 && a < b
    ensures a + secs <= b
  {
    MulMonotone(b / secs, a / secs, secs);
    MulMonotone(a / secs + 1, b / secs, secs);
  }

  lemma {:induction false} InCandleIff(time: int, start: int, secs: int)
    requires secs > 0 && start % secs == 0
    ensures InCandle(time, start, secs) <==> Bucket(time, secs) == start
  {
    var b := Bucket(time, secs);
    BucketIsMultiple(time, secs);
    BucketIsFloor(time, secs);
    FloorBounds(if time >= 0 then time else -time, secs);
    if b < start { MultiplesApart(b, start, secs); }
    if start < b { MultiplesApart(start, b, secs); }
    if b < 0 { MultiplesApart(b, 0, secs); }
    if 0 < start { MultiplesApart(0, start, secs); }
    if start < 0 { MultiplesApart(start, 0, secs); }
    if 0 < b { MultiplesApart(0, b, secs); }
  }

  function ItemsOf(window: seq<Tick>): (r: seq<Item>)
    ensures |r| == |window| && forall i | 0 <= i < |r| :: r[i] == Item(window[i].price, window[i].quantity)
  {
    seq(|window|, i requires 0 <= i < |window| => Item(window[i].price, window[i].quantity))
  }

  lemma {:induction false} WithinIsWindow(ticks: seq<Tick>, start: int, secs: int)
    requires secs > 0 && start % secs == 0
    ensures Within(ticks, secs, start) == ItemsOf(Window(ticks, start, secs))
  {
    if ticks != [] {
      var t := ticks[|ticks| - 1];
      WithinIsWindow(ticks[..|ticks| - 1], start, secs);
      InCandleIff(t.time, start, secs);
      var before := Window(ticks[..|ticks| - 1], start, secs);
      assert ItemsOf(before + [t]) == ItemsOf(before) + [Item(t.price, t.quantity)];
    }
  }

  lemma {:induction false} VolumeOfItems(window: seq<Tick>)
    ensures Volume(ItemsOf(window)) == TotalQuantity(window)
  {
    if window != [] {
      var before := window[..|window| - 1];
      VolumeOfItems(before);
      assert ItemsOf(window)[..|window| - 1] == ItemsOf(before);
    }
  }

  lemma {:induction false} SummaryIsCandle(window: seq<Tick>, time: int)
    requires window != []
    ensures CandleOf(window, Summary(time, ItemsOf(window)))
  {
    var items := ItemsOf(window);
    HighLowMeaning(items);
    VolumeOfItems(window);
    var h :| 0 <= h < |items| && items[h].price == High(items);
    var l :| 0 <= l < |items| && items[l].price == Low(items);
    assert window[h].price == High(items) && window[l].price == Low(items);
    assert forall i | 0 <= i < |window| :: window[i].price == items[i].price;
  }

  lemma {:induction false} ItemsAtOwn(bars: seq<Bar>, k: nat)
    requires Ascending(bars) && k < |bars|
    ensures ItemsAt(bars, bars[k].time) == bars[k].items
  {
    if k > 0 {
      assert bars[0].time < bars[k].time;
      ItemsAtOwn(bars[1..], k - 1);
    }
  }

  lemma {:induction false} GroupTimes(ticks: seq<Tick>, secs: int)
    requires secs > 0
    ensures forall b | b in Group(ticks, secs) :: b.time % secs == 0
  {
    if ticks != [] {
      var before, t := ticks[..|ticks| - 1], ticks[|ticks| - 1];
      GroupTimes(before, secs);
      GroupShape(before, secs);
      BucketIsMultiple(t.time, secs);
      PushMembers(Group(before, secs), Bucket(t.time, secs), Item(t.price, t.quantity));
    }
  }

  lemma {:induction false} WithinHas(ticks: seq<Tick>, secs: int, i: nat)
    requires secs > 0 && i < |ticks|
    ensures Within(ticks, secs, Bucket(ticks[i].time, secs)) != []
  {
    if i < |ticks| - 1 {
      WithinHas(ticks[..|ticks| - 1], secs, i);
    }
  }

  /** Every trade has its group. */
  lemma {:induction false} GroupCovers(ticks: seq<Tick>, secs: int, i: nat) returns (k: nat)
    requires secs > 0 && i < |ticks|
    ensures k < |Group(ticks, secs)| && Group(ticks, secs)[k].time == Bucket(ticks[i].time, secs)
  {
    var bars, time := Group(ticks, secs), Bucket(ticks[i].time, secs);
    WithinHas(ticks, secs, i);
    GroupHoldsBucket(ticks, secs, time);
    if forall b | b in bars :: b.time != time { AbsentItems(bars, time); }
    var b :| b in bars && b.time == time;
    k :| k < |bars| && bars[k] == b;
  }

  lemma {:induction false} TradeInOneCandle(ticks: seq<Tick>, secs: int, i: nat)
    requires secs > 0 && i < |ticks| && Filled(Group(ticks, secs))
    ensures InJustOne(ticks[i].time, Summaries(Group(ticks, secs)), secs)
  {
    var bars := Group(ticks, secs);
    var candles := Summaries(bars);
    GroupTimes(ticks, secs);
    GroupShape(ticks, secs);
    var k := GroupCovers(ticks, secs, i);
    forall j | 0 <= j < |candles| ensures InCandle(ticks[i].time, candles[j].time, secs) <==> j == k {
      assert bars[j] in bars;
      InCandleIff(ticks[i].time, bars[j].time, secs);
      assert j < k ==> bars[j].time < bars[k].time;
      assert k < j ==> bars[k].time < bars[j].time;
    }
  }

  lemma {:induction false} BarIsCandle(ticks: seq<Tick>, secs: int, k: nat)
    requires secs > 0 && Filled(Group(ticks, secs)) && k < |Group(ticks, secs)|
    ensures var c := Summaries(Group(ticks, secs))[k];
            c.time % secs == 0 && CandleOf(Window(ticks, c.time, secs), c)
  {
    var bars := Group(ticks, secs);
    GroupShape(ticks, secs);
    GroupTimes(ticks, secs);
    assert bars[k] in bars;
    ItemsAtOwn(bars, k);
    GroupHoldsBucket(ticks, secs, bars[k].time);
    WithinIsWindow(ticks, bars[k].time, secs);
    SummaryIsCandle(Window(ticks, bars[k].time, secs), bars[k].time);
  }

  /** Grouping by bucket and summarising makes the candles described. */
  lemma {:induction false} GroupMeans(ticks: seq<Tick>, secs: int)
    requires secs > 0
    ensures Filled(Group(ticks, secs)) && CandlesOf(ticks, secs, Summaries(Group(ticks, secs)))
  {
    GroupShape(ticks, secs);
    var candles := Summaries(Group(ticks, secs));
    forall i | 0 <= i < |candles|
      ensures candles[i].time % secs == 0 && CandleOf(Window(ticks, candles[i].time, secs), candles[i])
    {
      BarIsCandle(ticks, secs, i);
    }
    forall i | 0 <= i < |ticks| ensures InJustOne(ticks[i].time, candles, secs) {
      TradeInOneCandle(ticks, secs, i);
    }
  }

  lemma {:induction false} GroupMeansFor(ticks: seq<Tick>, interval: string)
    ensures var bars := Group(ticks, BucketSecs(interval));
            Filled(bars) && CandlesFor(ticks, interval, Summaries(bars))
  {
    GroupMeans(ticks, BucketSecs(interval));
  }

  // ---------- What the groups contain ----------

  lemma {:induction false} PushMembers(bars: seq<Bar>, time: int, x: Item)
    requires Filled(bars)
    ensures Filled(Push(bars, time, x))
    ensures forall b | b in Push(bars, time, x) :: b.time == time || b in bars
  {
    if bars != [] && bars[0].time < time {
      PushMembers(bars[1..], time, x);
    }
  }

  lemma {:induction false} AscendingCons(b: Bar, bars: seq<Bar>)
    requires Ascending(bars) && forall x | x in bars :: b.time < x.time
    ensures Ascending([b] + bars)
  {
  }

  lemma {:induction false} PushShape(bars: seq<Bar>, time: int, x: Item)
    requires Filled(bars) && Ascending(bars)
    ensures Filled(Push(bars, time, x)) && Ascending(Push(bars, time, x))
  {
    PushMembers(bars, time, x);
    if bars != [] && bars[0].time < time {
      PushShape(bars[1..], time, x);
      PushMembers(bars[1..], time, x);
      AscendingCons(bars[0], Push(bars[1..], time, x));
    }
  }

  lemma {:induction false} GroupShape(ticks: seq<Tick>, secs: int)
    requires secs > 0
    ensures Filled(Group(ticks, secs)) && Ascending(Group(ticks, secs))
  {
    if ticks != [] {
      GroupShape(ticks[..|ticks| - 1], secs);
      var t := ticks[|ticks| - 1];
      PushShape(Group(ticks[..|ticks| - 1], secs), Bucket(t.time, secs), Item(t.price, t.quantity));
    }
  }

  /** The trades whose bucket is `time`, in the order they came. */
  function Within(ticks: seq<Tick>, secs: int, time: int): seq<Item>
    requires secs > 0
  {
    if ticks == [] then []
    else
      var t := ticks[|ticks| - 1];
      Within(ticks[..|ticks| - 1], secs, time)
      + if Bucket(t.time, secs) == time then [Item(t.price, t.quantity)] else []
  }

  /** The items stored under a key, none if the key is absent. */
  function ItemsAt(bars: seq<Bar>, time: int): seq<Item> {
    if bars == [] then [] else if bars[0].time == time then bars[0].items else ItemsAt(bars[1..], time)
  }

  lemma {:induction false} AbsentItems(bars: seq<Bar>, time: int)
    requires forall b | b in bars :: b.time != time
    ensures ItemsAt(bars, time) == []
  {
    if bars != [] {
      assert bars[0] in bars;
      AbsentItems(bars[1..], time);
    }
  }

  lemma {:induction false} PushItems(bars: seq<Bar>, time: int, x: Item, key: int)
    requires Ascending(bars)
    ensures ItemsAt(Push(bars, time, x), key) == ItemsAt(bars, key) + if key == time then [x] else []
  {
    var r := Push(bars, time, x);
    if bars == [] || time < bars[0].time {
      assert r[1..] == bars;
      if key == time {
        forall b | b in bars ensures b.time != time {
          var i :| 0 <= i < |bars| && bars[i] == b;
          assert i > 0 ==> bars[0].time < bars[i].time;
        }
        AbsentItems(bars, time);
      }
    } else if bars[0].time == time {
      assert r[1..] == bars[1..];
    } else {
      PushItems(bars[1..], time, x, key);
      assert r[1..] == Push(bars[1..], time, x);
    }
  }

  /** Whatever the order of the trades, each group holds exactly the trades of its bucket, in order. */
  lemma {:induction false} GroupHoldsBucket(ticks: seq<Tick>, secs: int, time: int)
    requires secs > 0
    ensures ItemsAt(Group(ticks, secs), time) == Within(ticks, secs, time)
  {
    if ticks != [] {
      var before, t := ticks[..|ticks| - 1], ticks[|ticks| - 1];
      GroupShape(before, secs);
      GroupHoldsBucket(before, secs, time);
      PushItems(Group(before, secs), Bucket(t.time, secs), Item(t.price, t.quantity), time);
    }
  }

  function TotalQuantity(ticks: seq<Tick>): real {
    if ticks == [] then 0.0 else TotalQuantity(ticks[..|ticks| - 1]) + ticks[|ticks| - 1].quantity
  }

  function BarsVolume(bars: seq<Bar>): real {
    if bars == [] then 0.0 else Volume(bars[0].items) + BarsVolume(bars[1..])
  }

  function TotalVolume(candles: seq<Candle>): real {
    if candles == [] then 0.0 else candles[0].volume + TotalVolume(candles[1..])
  }

  lemma {:induction false} PushVolume(bars: seq<Bar>, time: int, x: Item)
    ensures BarsVolume(Push(bars, time, x)) == BarsVolume(bars) + x.quantity
  {
    var r := Push(bars, time, x);
    if bars == [] || time < bars[0].time {
      assert r[1..] == bars;
      assert [x][..0] == [] && Volume([x]) == Volume([x][..0]) + x.quantity;
    } else if bars[0].time == time {
      assert r[1..] == bars[1..];
      assert (bars[0].items + [x])[..|bars[0].items|] == bars[0].items;
    } else {
      PushVolume(bars[1..], time, x);
      assert r[1..] == Push(bars[1..], time, x);
    }
  }

  lemma {:induction false} SummariesVolume(bars: seq<Bar>)
    requires Filled(bars)
    ensures TotalVolume(Summaries(bars)) == BarsVolume(bars)
  {
    if bars != [] {
      SummariesVolume(bars[1..]);
      assert Summaries(bars)[1..] == Summaries(bars[1..]);
    }
  }

  /** The candles' volumes add up to the traded quantity. */
  lemma {:induction false} VolumeConserved(ticks: seq<Tick>, secs: int)
    requires secs > 0
    ensures Filled(Group(ticks, secs)) && TotalVolume(Summaries(Group(ticks, secs))) == TotalQuantity(ticks)
  {
    GroupShape(ticks, secs);
    SummariesVolume(Group(ticks, secs));
    GroupVolume(ticks, secs);
  }

  lemma {:induction false} GroupVolume(ticks: seq<Tick>, secs: int)
    requires secs > 0
    ensures BarsVolume(Group(ticks, secs)) == TotalQuantity(ticks)
  {
    if ticks != [] {
      var before, t := ticks[..|ticks| - 1], ticks[|ticks| - 1];
      GroupVolume(before, secs);
      PushVolume(Group(before, secs), Bucket(t.time, secs), Item(t.price, t.quantity));
    }
  }

  /** Every trade of a candle lies between its low and its high, and both are prices that traded. */
  lemma {:induction false} HighLowMeaning(items: seq<Item>)
    requires items != []
    ensures forall i | 0 <= i < |items| :: Low(items) <= items[i].price <= High(items)
    ensures exists i :: 0 <= i < |items| && items[i].price == High(items)
    ensures exists i :: 0 <= i < |items| && items[i].price == Low(items)
  {
    if |items| == 1 {
      assert items[0].price == High(items) && items[0].price == Low(items);
    } else {
      var before, last := items[..|items| - 1], items[|items| - 1];
      HighLowMeaning(before);
      var h :| 0 <= h < |before| && before[h].price == High(before);
      var l :| 0 <= l < |before| && before[l].price == Low(before);
      assert items[if High(items) == last.price then |items| - 1 else h].price == High(items);
      assert items[if Low(items) == last.price then |items| - 1 else l].price == Low(items);
      forall i | 0 <= i < |items| ensures Low(items) <= items[i].price <= High(items) {
        if i < |before| { assert items[i] == before[i]; }
      }
    }
  }

  // ---------- Rollup ----------

  /** Adds a candle to a list of coarser ones: it extends the last when it falls in the same bucket. */
  function AddCandle(out: seq<Candle>, c: Candle, secs: int): seq<Candle>
    requires secs > 0
  {
    var n, time := |out|, Bucket(c.time, secs);
    if n > 0 && out[n - 1].time == time then out[..n - 1] + [Merge(out[n - 1], c)] else out + [c.(time := time)]
  }

  /** Merges adjacent candles that fall in the same bucket of width `secs`. */
  function Rollup(candles: seq<Candle>, secs: int): seq<Candle>
    requires secs > 0
  {
    if candles == [] then [] else AddCandle(Rollup(candles[..|candles| - 1], secs), candles[|candles| - 1], secs)
  }

  ghost predicate TimeSorted(ticks: seq<Tick>) {
    forall i, j | 0 <= i <= j < |ticks| :: ticks[i].time <= ticks[j].time
  }

  /** The largest multiple of `m` up to `x`. */
  function Floor(x: int, m: int): int
    requires m > 0 && x >= 0
  {
    (x / m) * m
  }

  lemma {:induction false} MulMonotone(a: int, b: int, m: int)
    requires m > 0
    ensures a <= b ==> a * m <= b * m
  {
  }

  lemma {:induction false} DivUnique(x: int, m: int, q: int)
    requires m > 0 && q * m <= x < q * m + m
    ensures x / m == q
  {
    var d := x / m;
    assert d * m <= x < d * m + m;
    MulMonotone(d + 1, q, m);
    MulMonotone(q + 1, d, m);
  }

  lemma {:induction false} FloorBounds(x: int, m: int)
    requires m > 0 && x >= 0
    ensures 0 <= Floor(x, m) <= x < Floor(x, m) + m
  {
  }

  lemma {:induction false} BucketIsFloor(x: int, m: int)
    requires m > 0
    ensures Bucket(x, m) == if x >= 0 then Floor(x, m) else -Floor(-x, m)
  {
  }

  lemma {:induction false} FloorMonotone(x: int, y: int, m: int)
    requires m > 0 && 0 <= x <= y
    ensures Floor(x, m) <= Floor(y, m)
  {
    FloorBounds(x, m);
    FloorBounds(y, m);
    MulMonotone(y / m + 1, x / m, m);
    MulMonotone(x / m, y / m, m);
  }

  /** Flooring to a multiple of `fine` first does not change the floor to a multiple of `fine * k`. */
  lemma {:induction false} FloorNests(x: int, fine: int, k: int)
    requires x >= 0 && fine > 0 && k > 0
    ensures fine * k > 0 && Floor(x, fine) >= 0 && Floor(Floor(x, fine), fine * k) == Floor(x, fine * k)
  {
    var m, p := fine * k, x / fine;
    var q := x / m;
    FloorBounds(x, fine);
    FloorBounds(x, m);
    assert q * m == (q * k) * fine;
    MulMonotone(p + 1, q * k, fine);
    MulMonotone(q * k, p, fine);
    DivUnique(p * fine, m, q);
  }

  /** Bucketing a bucket start again gives the coarse bucket of the trade itself. */
  lemma {:induction false} BucketNests(time: int, fine: int, k: int)
    requires fine > 0 && k > 0
    ensures fine * k > 0 && Bucket(Bucket(time, fine), fine * k) == Bucket(time, fine * k)
  {
    FloorNests(if time >= 0 then time else -time, fine, k);
    BucketIsFloor(time, fine);
    BucketIsFloor(time, fine * k);
    BucketIsFloor(Bucket(time, fine), fine * k);
  }

  lemma {:induction false} BucketMonotone(x: int, y: int, m: int)
    requires m > 0 && x <= y
    ensures Bucket(x, m) <= Bucket(y, m)
  {
    BucketIsFloor(x, m);
    BucketIsFloor(y, m);
    if x >= 0 {
      FloorMonotone(x, y, m);
    } else if y < 0 {
      FloorMonotone(-y, -x, m);
    } else {
      FloorBounds(-x, m);
      FloorBounds(y, m);
    }
  }

  // Time-sorted trades always land in the last group or a new one after it.

  lemma {:induction false} GroupLast(ticks: seq<Tick>, secs: int)
    requires secs > 0 && TimeSorted(ticks) && ticks != []
    ensures var bars := Group(ticks, secs);
            bars != [] && bars[|bars| - 1].time == Bucket(ticks[|ticks| - 1].time, secs)
  {
    var before, t := ticks[..|ticks| - 1], ticks[|ticks| - 1];
    GroupShape(before, secs);
    if before == [] {
      assert Group(before, secs) == [];
    } else {
      GroupLast(before, secs);
      BucketMonotone(before[|before| - 1].time, t.time, secs);
      PushLast(Group(before, secs), Bucket(t.time, secs), Item(t.price, t.quantity));
    }
  }

  lemma {:induction false} PushLast(bars: seq<Bar>, time: int, x: Item)
    requires Ascending(bars) && bars != [] && bars[|bars| - 1].time <= time
    ensures var n := |bars|;
            Push(bars, time, x) == if bars[n - 1].time == time
                                   then bars[..n - 1] + [Bar(time, bars[n - 1].items + [x])]
                                   else bars + [Bar(time, [x])]
  {
    var n := |bars|;
    if n > 1 {
      assert bars[0].time < bars[n - 1].time;
      PushLast(bars[1..], time, x);
      assert bars[1..][n - 2] == bars[n - 1];
      assert [bars[0]] + bars[1..][..n - 2] == bars[..n - 1];
      assert [bars[0]] + bars[1..] == bars;
    } else {
      assert bars == [bars[0]];
    }
  }

  lemma {:induction false} SummaryAppend(time: int, items: seq<Item>, x: Item)
    requires items != []
    ensures Summary(time, items + [x]) == Merge(Summary(time, items), Summary(time, [x]))
  {
    var all := items + [x];
    assert all[..|all| - 1] == items;
    assert [x][..0] == [] && Volume([x]) == Volume([x][..0]) + x.quantity;
  }

  function TickCandle(t: Tick, secs: int): Candle
    requires secs > 0
  {
    Candle(Bucket(t.time, secs), t.price, t.price, t.price, t.price, t.quantity)
  }

  /** A trade no earlier than the last group extends the last candle or opens one. */
  lemma {:induction false} SummariesPush(bars: seq<Bar>, time: int, x: Item)
    requires Filled(bars) && Ascending(bars) && (bars != [] ==> bars[|bars| - 1].time <= time)
    ensures Filled(Push(bars, time, x))
    ensures Summaries(Push(bars, time, x)) == Extend(Summaries(bars), Summary(time, [x]))
  {
    PushShape(bars, time, x);
    if bars == [] {
      assert Push(bars, time, x) == [Bar(time, [x])];
    } else {
      var front, last := bars[..|bars| - 1], bars[|bars| - 1];
      PushLast(bars, time, x);
      SummariesSnoc(front, last);
      assert bars == front + [last];
      if last.time == time {
        SummariesSnoc(front, Bar(time, last.items + [x]));
        SummaryAppend(time, last.items, x);
      } else {
        SummariesSnoc(bars, Bar(time, [x]));
      }
    }
  }

  lemma {:induction false} SummariesSnoc(bars: seq<Bar>, b: Bar)
    requires Filled(bars) && b.items != []
    ensures Filled(bars + [b]) && Summaries(bars + [b]) == Summaries(bars) + [Summary(b.time, b.items)]
  {
  }

  lemma {:induction false} TickCandleIsSummary(t: Tick, secs: int)
    requires secs > 0
    ensures TickCandle(t, secs) == Summary(Bucket(t.time, secs), [Item(t.price, t.quantity)])
  {
    var items := [Item(t.price, t.quantity)];
    assert items[..0] == [];
    assert Volume(items) == Volume(items[..0]) + t.quantity;
  }

  /**
   The candles of time-sorted trades can be built one trade at a time, each extending the last candle or opening
   one.
   */
  lemma {:induction false} CandlesSnoc(ticks: seq<Tick>, secs: int)
    requires secs > 0 && TimeSorted(ticks) && ticks != []
    ensures var before, t := ticks[..|ticks| - 1], ticks[|ticks| - 1];
            && Filled(Group(before, secs)) && Filled(Group(ticks, secs))
            && Summaries(Group(ticks, secs)) == Extend(Summaries(Group(before, secs)), TickCandle(t, secs))
  {
    var before, t := ticks[..|ticks| - 1], ticks[|ticks| - 1];
    GroupShape(before, secs);
    LastGroupNotLater(before, t, secs);
    SummariesPush(Group(before, secs), Bucket(t.time, secs), Item(t.price, t.quantity));
    TickCandleIsSummary(t, secs);
  }

  lemma {:induction false} LastGroupNotLater(before: seq<Tick>, t: Tick, secs: int)
    requires secs > 0 && TimeSorted(before + [t])
    ensures var bars := Group(before, secs); bars != [] ==> bars[|bars| - 1].time <= Bucket(t.time, secs)
  {
    if before != [] {
      var all := before + [t];
      assert forall i | 0 <= i < |before| :: all[i] == before[i];
      assert all[|before| - 1].time <= all[|before|].time;
      GroupLast(before, secs);
      BucketMonotone(before[|before| - 1].time, t.time, secs);
    }
  }

  /** `AddCandle` for a candle whose time is already a bucket start of the list's own width. */
  function Extend(out: seq<Candle>, c: Candle): seq<Candle> {
    var n := |out|;
    if n > 0 && out[n - 1].time == c.time then out[..n - 1] + [Merge(out[n - 1], c)] else out + [c]
  }

  /** Adding a fine candle and then its extension is adding the extended candle. */
  lemma {:induction false} AddMerged(out: seq<Candle>, last: Candle, c: Candle, secs: int)
    requires secs > 0 && last.time == c.time
    ensures AddCandle(AddCandle(out, last, secs), c, secs) == AddCandle(out, Merge(last, c), secs)
  {
  }

  /** Extending the last fine candle extends the last coarse one. */
  lemma {:induction false} RollupExtend(fine: seq<Candle>, c: Candle, secs: int)
    requires secs > 0
    ensures Rollup(Extend(fine, c), secs) == AddCandle(Rollup(fine, secs), c, secs)
  {
    var n := |fine|;
    if n > 0 && fine[n - 1].time == c.time {
      RollupSnoc(fine[..n - 1], Merge(fine[n - 1], c), secs);
      AddMerged(Rollup(fine[..n - 1], secs), fine[n - 1], c, secs);
    } else {
      RollupSnoc(fine, c, secs);
    }
  }

  lemma {:induction false} RollupSnoc(candles: seq<Candle>, c: Candle, secs: int)
    requires secs > 0
    ensures Rollup(candles + [c], secs) == AddCandle(Rollup(candles, secs), c, secs)
  {
  }

  lemma {:induction false} AddFineTick(out: seq<Candle>, t: Tick, fine: int, coarse: int)
    requires fine > 0 && coarse > 0 && Bucket(Bucket(t.time, fine), coarse) == Bucket(t.time, coarse)
    ensures AddCandle(out, TickCandle(t, fine), coarse) == Extend(out, TickCandle(t, coarse))
  {
  }

  lemma {:induction false} RollupOfNested(ticks: seq<Tick>, fine: int, coarse: int)
    requires fine > 0 && coarse > 0 && TimeSorted(ticks)
    requires forall x: int :: Bucket(Bucket(x, fine), coarse) == Bucket(x, coarse)
    ensures Filled(Group(ticks, fine)) && Filled(Group(ticks, coarse))
    ensures Summaries(Group(ticks, coarse)) == Rollup(Summaries(Group(ticks, fine)), coarse)
  {
    if ticks == [] {
      assert Group(ticks, fine) == [] && Group(ticks, coarse) == [];
    } else {
      var before, t := ticks[..|ticks| - 1], ticks[|ticks| - 1];
      RollupOfNested(before, fine, coarse);
      CandlesSnoc(ticks, fine);
      CandlesSnoc(ticks, coarse);
      RollupExtend(Summaries(Group(before, fine)), TickCandle(t, fine), coarse);
      AddFineTick(Rollup(Summaries(Group(before, fine)), coarse), t, fine, coarse);
    }
  }

  /**
   Rollup: for time-sorted trades, when one width divides another, merging the fine candles that fall in the same
   coarse bucket gives the coarse candles.
   */
  lemma {:induction false} CoarseIsRollupOfFine(ticks: seq<Tick>, fine: int, k: int)
    requires fine > 0 && k > 0 && TimeSorted(ticks)
    ensures fine * k > 0 && Filled(Group(ticks, fine)) && Filled(Group(ticks, fine * k))
    ensures Summaries(Group(ticks, fine * k)) == Rollup(Summaries(Group(ticks, fine)), fine * k)
  {
    MulMonotone(1, k, fine);
    forall x: int ensures Bucket(Bucket(x, fine), fine * k) == Bucket(x, fine * k) {
      BucketNests(x, fine, k);
    }
    RollupOfNested(ticks, fine, fine * k);
  }

  const OFFERED := ["1m", "5m", "15m", "30m", "1h", "4h", "1d", "1w"]

  /** The widths on offer are these, and each divides every later one, so every coarser chart rolls up a finer one. */
  lemma {:induction false} OfferedWidthsNest(i: nat, j: nat)
    requires i <= j < |OFFERED|
    ensures BucketSecs(OFFERED[i]) == [60, 300, 900, 1800, 3600, 14400, 86400, 604800][i]
    ensures BucketSecs(OFFERED[j]) % BucketSecs(OFFERED[i]) == 0
  {
  }
}
