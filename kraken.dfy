/** The exchange-side helpers: which tickers are fiat money, and how the
    fetched activity is cut to the reporting window and put in time order.
    The signed HTTP requests themselves are outside the model; their
    decoded answers are the inputs of `FetchKrakenActivity`. */
module Kraken {
  import Calendar

  // ---------------------------------------------------------------------
  // Fiat tickers

  /** The fiat codes, each also listed with Kraken's 'Z' prefix. */
  const FiatCodes: seq<string> :=
    ["USD", "EUR", "GBP", "JPY", "CAD", "AUD", "MXN", "CHF", "BRL", "ARS", "AED"]

  const FiatCurrencies: set<string> := {
    "USD", "ZUSD", "EUR", "ZEUR", "GBP", "ZGBP", "JPY", "ZJPY", "CAD", "ZCAD", "AUD", "ZAUD",
    "MXN", "ZMXN", "CHF", "ZCHF", "BRL", "ZBRL", "ARS", "ZARS", "AED", "ZAED"
  }

  /** ASCII upper-casing of one character. */
  function UpperChar(c: char): (u: char)
    ensures 'a' <= c <= 'z' ==> u as int == c as int - 32
    ensures !('a' <= c <= 'z') ==> u == c
  {
    if 'a' <= c <= 'z' then (c as int - 32) as char else c
  }

  /** ASCII upper-casing of a ticker (`to_uppercase`), character by
      character. */
  function Upper(s: string): (r: string)
    ensures |r| == |s|
    ensures forall i :: 0 <= i < |s| ==> r[i] == UpperChar(s[i])
  {
    seq(|s|, i requires 0 <= i < |s| => UpperChar(s[i]))
  }

  /** `is_fiat`: membership of the upper-cased ticker in the fixed set. */
  predicate IsFiat(ticker: string) {
    Upper(ticker) in FiatCurrencies
  }

  lemma UpperIdempotent(s: string)
    ensures Upper(Upper(s)) == Upper(s)
  {
    var u := Upper(s);
    assert forall i :: 0 <= i < |u| ==> Upper(u)[i] == u[i];
  }

  /** Case does not matter to `is_fiat`. */
  lemma IsFiatIgnoresCase(ticker: string)
    ensures IsFiat(ticker) <==> IsFiat(Upper(ticker))
  {
    UpperIdempotent(ticker);
  }

  /** Every listed code is fiat, bare and with its 'Z' prefix. */
  lemma FiatCodesAreFiat(k: nat)
    requires k < |FiatCodes|
    ensures FiatCodes[k] in FiatCurrencies && "Z" + FiatCodes[k] in FiatCurrencies
  {
    if k == 0 {
      assert "Z" + FiatCodes[0] == "ZUSD";
    } else if k == 1 {
      assert "Z" + FiatCodes[1] == "ZEUR";
    } else if k == 2 {
      assert "Z" + FiatCodes[2] == "ZGBP";
    } else if k == 3 {
      assert "Z" + FiatCodes[3] == "ZJPY";
    } else if k == 4 {
      assert "Z" + FiatCodes[4] == "ZCAD";
    } else if k == 5 {
      assert "Z" + FiatCodes[5] == "ZAUD";
    } else if k == 6 {
      assert "Z" + FiatCodes[6] == "ZMXN";
    } else if k == 7 {
      assert "Z" + FiatCodes[7] == "ZCHF";
    } else if k == 8 {
      assert "Z" + FiatCodes[8] == "ZBRL";
    } else if k == 9 {
      assert "Z" + FiatCodes[9] == "ZARS";
    } else {
      assert "Z" + FiatCodes[10] == "ZAED";
    }
  }

  /** Nothing else is fiat: each member of the set is a listed code, bare
      or with its 'Z' prefix. */
  lemma FiatCurrencyIsACode(t: string)
    requires t in FiatCurrencies
    ensures exists k :: 0 <= k < |FiatCodes| && (t == FiatCodes[k] || t == "Z" + FiatCodes[k])
  {
    if t == "USD" || t == "ZUSD" {
      assert "Z" + FiatCodes[0] == "ZUSD";
    } else if t == "EUR" || t == "ZEUR" {
      assert "Z" + FiatCodes[1] == "ZEUR";
    } else if t == "GBP" || t == "ZGBP" {
      assert "Z" + FiatCodes[2] == "ZGBP";
    } else if t == "JPY" || t == "ZJPY" {
      assert "Z" + FiatCodes[3] == "ZJPY";
    } else if t == "CAD" || t == "ZCAD" {
      assert "Z" + FiatCodes[4] == "ZCAD";
    } else if t == "AUD" || t == "ZAUD" {
      assert "Z" + FiatCodes[5] == "ZAUD";
    } else if t == "MXN" || t == "ZMXN" {
      assert "Z" + FiatCodes[6] == "ZMXN";
    } else if t == "CHF" || t == "ZCHF" {
      assert "Z" + FiatCodes[7] == "ZCHF";
    } else if t == "BRL" || t == "ZBRL" {
      assert "Z" + FiatCodes[8] == "ZBRL";
    } else if t == "ARS" || t == "ZARS" {
      assert "Z" + FiatCodes[9] == "ZARS";
    } else {
      assert "Z" + FiatCodes[10] == "ZAED";
    }
  }

  /** Some tickers on either side of the line. */
  lemma FiatExamples()
    ensures IsFiat("USD") && IsFiat("zeur") && IsFiat("Brl") && IsFiat("ZMXN")
    ensures !IsFiat("BTC") && !IsFiat("XBT") && !IsFiat("USDT") && !IsFiat("USDC") && !IsFiat("XXBT")
  {
    assert Upper("zeur") == "ZEUR";
    assert Upper("Brl") == "BRL";
    assert Upper("USD") == "USD";
    assert Upper("ZMXN") == "ZMXN";
    assert Upper("BTC") == "BTC";
    assert Upper("XBT") == "XBT";
    assert Upper("USDT") == "USDT";
    assert Upper("USDC") == "USDC";
    assert Upper("XXBT") == "XXBT";
  }

  // ---------------------------------------------------------------------
  // The reporting window

  const U64Modulus: int := 0x1_0000_0000_0000_0000

  /** The range of Rust's `u64`. */
  newtype U64 = x: int | 0 <= x < 0x1_0000_0000_0000_0000

  /** `get_timestamp`: the Unix time of midnight opening the date, cast to
      `u64` (so a date before 1970 wraps around to a very large value). */
  function GetTimestamp(d: Calendar.Date): (ts: U64)
    requires Calendar.ValidDate(d) && Calendar.InRange(d)
    ensures Calendar.DayNumber(d) >= 0 ==> ts as int == Calendar.Timestamp(d)
    ensures Calendar.DayNumber(d) < 0 ==> ts as int == Calendar.Timestamp(d) + U64Modulus
  {
    Calendar.DayNumberBounds(d);
    var t := Calendar.Timestamp(d);
    (if t >= 0 then t else t + U64Modulus) as U64
  }

  /** The last second of the final day, `get_timestamp(final) + 24 * 60 * 60 - 1`,
      evaluated left to right with `u64` wrap-around as in a release build.
      The intermediate sum reaches 2^64 only for the final day 1969-12-31
      (`EndSumOverflows`); the subtraction then wraps back, so the result is
      still the last second of that day's wrapped timestamp. */
  function EndTimestamp(d: Calendar.Date): (ts: U64)
    requires Calendar.ValidDate(d) && Calendar.InRange(d)
    ensures ts as int == GetTimestamp(d) as int + Calendar.SecondsPerDay - 1
  {
    NegativeTimestampBound(d);
    var sum := GetTimestamp(d) as int + Calendar.SecondsPerDay;
    var wrapped := if sum >= U64Modulus then sum - U64Modulus else sum;
    (if wrapped == 0 then U64Modulus - 1 else wrapped - 1) as U64
  }

  /** Before 1970 a midnight's wrapped timestamp is at least a whole day
      below 2^64. */
  lemma NegativeTimestampBound(d: Calendar.Date)
    requires Calendar.ValidDate(d) && Calendar.InRange(d)
    ensures GetTimestamp(d) as int + Calendar.SecondsPerDay <= U64Modulus
    ensures Calendar.DayNumber(d) >= 0 ==> GetTimestamp(d) as int + Calendar.SecondsPerDay < U64Modulus
  {
    Calendar.DayNumberBounds(d);
  }

  /** The intermediate `get_timestamp(final) + 24 * 60 * 60` leaves the
      `u64` range, which panics in a debug build, exactly for the final day
      1969-12-31, the last day of the period for the arguments `1969 12`. */
  lemma EndSumOverflows(d: Calendar.Date)
    requires Calendar.ValidDate(d) && Calendar.InRange(d)
    ensures GetTimestamp(d) as int + Calendar.SecondsPerDay >= U64Modulus <==> d == Calendar.Date(1969, 12, 31)
  {
    Calendar.DayNumberBounds(d);
    LastDayOf1969();
    if Calendar.DayNumber(d) == -1 {
      Calendar.DayInMonthSpan(d, 1969, 12);
    }
  }

  lemma LastDayOf1969()
    ensures Calendar.DayNumber(Calendar.Date(1969, 12, 1)) == -31
    ensures Calendar.DayNumber(Calendar.Date(1969, 12, 31)) == -1
  {
    Calendar.DaysBeforeNextYear(1969);
    Calendar.MonthsFillYear(1969);
  }

  /** For dates from 1970 on, a second lies in the window exactly when its
      day lies between the initial and the final day, both included. */
  lemma WindowIsWholeDays(initial: Calendar.Date, final: Calendar.Date, secs: int)
    requires Calendar.ValidDate(initial) && Calendar.ValidDate(final)
    requires Calendar.InRange(initial) && Calendar.InRange(final)
    requires Calendar.DayNumber(initial) >= 0 && Calendar.DayNumber(final) >= 0
    ensures (GetTimestamp(initial) as int <= secs <= EndTimestamp(final) as int)
        <==> (Calendar.DayNumber(initial) <= secs / Calendar.SecondsPerDay <= Calendar.DayNumber(final))
  {
  }

  /** In terms of dates: an in-range second belongs to the window exactly
      when its calendar day does. */
  lemma WindowIsDateRange(initial: Calendar.Date, final: Calendar.Date, secs: int)
    requires Calendar.ValidDate(initial) && Calendar.ValidDate(final)
    requires Calendar.InRange(initial) && Calendar.InRange(final)
    requires Calendar.DayNumber(initial) >= 0 && Calendar.DayNumber(final) >= 0
    requires Calendar.FromTimestamp(secs).Some?
    ensures var day := Calendar.FromTimestamp(secs).value;
      (GetTimestamp(initial) as int <= secs <= EndTimestamp(final) as int)
        <==> (Calendar.DayNumber(initial) <= Calendar.DayNumber(day) <= Calendar.DayNumber(final))
  {
    WindowIsWholeDays(initial, final, secs);
  }

  // ---------------------------------------------------------------------
  // Fetched entries

  /** A deposit or withdrawal entry, with the fields the classifier reads. */
  datatype LedgerEntry = LedgerEntry(asset: string, amount: real, fee: real, time: U64)

  /** A trade entry; `time` is a decimal number of seconds and `side` is the
      entry's "type" ("buy" or "sell"). */
  datatype TradeEntry = TradeEntry(
    pair: string, vol: real, cost: real, fee: real, price: real, time: real, side: string)

  function LedgerTime(e: LedgerEntry): real {
    e.time as int as real
  }

  function TradeTime(e: TradeEntry): real {
    e.time
  }

  /** The entries whose key lies in [lo, hi], in their original order. */
  function InWindow<T>(s: seq<T>, key: T -> real, lo: real, hi: real): (r: seq<T>)
    ensures forall i :: 0 <= i < |r| ==> lo <= key(r[i]) <= hi
  {
    if s == [] then []
    else (if lo <= key(s[0]) <= hi then [s[0]] else []) + InWindow(s[1..], key, lo, hi)
  }

  /** The window keeps every entry inside it, as often as it occurs, and
      drops every entry outside it. */
  lemma {:induction false} InWindowKeepsExactly<T>(s: seq<T>, key: T -> real, lo: real, hi: real, x: T)
    ensures multiset(InWindow(s, key, lo, hi))[x] == if lo <= key(x) <= hi then multiset(s)[x] else 0
  {
    if s != [] {
      InWindowKeepsExactly(s[1..], key, lo, hi, x);
      assert s == [s[0]] + s[1..];
    }
  }

  predicate SortedBy<T>(s: seq<T>, key: T -> real) {
    forall i, j :: 0 <= i < j < |s| ==> key(s[i]) <= key(s[j])
  }

  /** Places x in front of the first element of s whose key is not below
      x's. */
  function Insert<T>(x: T, s: seq<T>, key: T -> real): (r: seq<T>)
    ensures multiset(r) == multiset(s) + multiset{x}
    ensures |r| == |s| + 1
  {
    if s == [] || key(x) <= key(s[0]) then [x] + s
    else
      assert s == [s[0]] + s[1..];
      [s[0]] + Insert(x, s[1..], key)
  }

  lemma {:induction false} InsertSorted<T>(x: T, s: seq<T>, key: T -> real)
    requires SortedBy(s, key)
    ensures SortedBy(Insert(x, s, key), key)
    ensures forall i :: 0 <= i < |Insert(x, s, key)| ==> Insert(x, s, key)[i] == x || Insert(x, s, key)[i] in s
  {
    if s != [] && key(x) > key(s[0]) {
      InsertSorted(x, s[1..], key);
      var r := Insert(x, s, key);
      assert r == [s[0]] + Insert(x, s[1..], key);
      forall i | 0 < i < |r| ensures key(s[0]) <= key(r[i]) {
        assert r[i] == x || r[i] in s[1..];
      }
    }
  }

  /** `sort_by_key` on the time: a stable sort, here as insertion sort. */
  function SortByKey<T>(s: seq<T>, key: T -> real): (r: seq<T>)
    ensures multiset(r) == multiset(s)
  {
    if s == [] then []
    else
      assert s == [s[0]] + s[1..];
      Insert(s[0], SortByKey(s[1..], key), key)
  }

  lemma {:induction false} SortByKeySorted<T>(s: seq<T>, key: T -> real)
    ensures SortedBy(SortByKey(s, key), key)
  {
    if s != [] {
      SortByKeySorted(s[1..], key);
      InsertSorted(s[0], SortByKey(s[1..], key), key);
    }
  }

  /** The entries of s with key k, in order. */
  function WithKey<T>(s: seq<T>, key: T -> real, k: real): seq<T> {
    if s == [] then [] else (if key(s[0]) == k then [s[0]] else []) + WithKey(s[1..], key, k)
  }

  /** Inserting x adds it to its own key group, in front of the entries
      already there. */
  lemma {:induction false} InsertKeepsTies<T>(x: T, s: seq<T>, key: T -> real, k: real)
    ensures WithKey(Insert(x, s, key), key, k)
         == (if key(x) == k then [x] else []) + WithKey(s, key, k)
  {
    var r := Insert(x, s, key);
    var hx: seq<T> := if key(x) == k then [x] else [];
    if s == [] || key(x) <= key(s[0]) {
      assert r[0] == x && r[1..] == s;
    } else {
      var h0: seq<T> := if key(s[0]) == k then [s[0]] else [];
      var w := WithKey(s[1..], key, k);
      assert WithKey(r, key, k) == h0 + (hx + w) by {
        assert r[0] == s[0] && r[1..] == Insert(x, s[1..], key);
        InsertKeepsTies(x, s[1..], key, k);
      }
      SwapHeads(h0, hx, w);
    }
  }

  /** Two heads of which one is empty can be put in either order. */
  lemma SwapHeads<T>(h0: seq<T>, hx: seq<T>, w: seq<T>)
    requires h0 == [] || hx == []
    ensures h0 + (hx + w) == hx + (h0 + w)
  {
    if hx == [] {
      assert hx + w == w && hx + (h0 + w) == h0 + w;
    } else {
      assert h0 + w == w && h0 + (hx + w) == hx + w;
    }
  }

  /** Stability: the entries sharing any one key keep their input order. */
  lemma {:induction false} SortByKeyStable<T>(s: seq<T>, key: T -> real, k: real)
    ensures WithKey(SortByKey(s, key), key, k) == WithKey(s, key, k)
  {
    if s != [] {
      SortByKeyStable(s[1..], key, k);
      InsertKeepsTies(s[0], SortByKey(s[1..], key), key, k);
    }
  }

  /** `fetch_kraken_activity` once the three HTTP answers are in hand: each
      list cut to [start, end] and sorted by time. */
  function FetchKrakenActivity(
    initial: Calendar.Date, final: Calendar.Date,
    depositAnswer: seq<LedgerEntry>, withdrawalAnswer: seq<LedgerEntry>, tradeAnswer: seq<TradeEntry>)
    : (r: (seq<LedgerEntry>, seq<LedgerEntry>, seq<TradeEntry>))
    requires Calendar.ValidDate(initial) && Calendar.ValidDate(final)
    requires Calendar.InRange(initial) && Calendar.InRange(final)
    ensures var (lo, hi) := (GetTimestamp(initial) as int as real, EndTimestamp(final) as int as real);
      && SortedBy(r.0, LedgerTime) && SortedBy(r.1, LedgerTime) && SortedBy(r.2, TradeTime)
      && multiset(r.0) == multiset(InWindow(depositAnswer, LedgerTime, lo, hi))
      && multiset(r.1) == multiset(InWindow(withdrawalAnswer, LedgerTime, lo, hi))
      && multiset(r.2) == multiset(InWindow(tradeAnswer, TradeTime, lo, hi))
  {
    var lo, hi := GetTimestamp(initial) as int as real, EndTimestamp(final) as int as real;
    var deposits := SortByKey(InWindow(depositAnswer, LedgerTime, lo, hi), LedgerTime);
    var withdrawals := SortByKey(InWindow(withdrawalAnswer, LedgerTime, lo, hi), LedgerTime);
    var trades := SortByKey(InWindow(tradeAnswer, TradeTime, lo, hi), TradeTime);
    SortByKeySorted(InWindow(depositAnswer, LedgerTime, lo, hi), LedgerTime);
    SortByKeySorted(InWindow(withdrawalAnswer, LedgerTime, lo, hi), LedgerTime);
    SortByKeySorted(InWindow(tradeAnswer, TradeTime, lo, hi), TradeTime);
    (deposits, withdrawals, trades)
  }
}
