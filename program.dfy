/** The program's entry point without its I/O: reading the command line,
    the reporting period of the requested month, the fetch-classify
    pipeline, and the total spent in purchases. */
module Program {
  import opened Wrappers
  import Calendar
  import Encoding
  import opened Transactions
  import Report
  import Kraken

  /** Why a run stops before writing the report. */
  datatype Failure =
    | NoProgramName
    | Usage
    | InvalidYear(text: string)
    | InvalidMonth(text: string)
    | NoSuchMonth(year: int, month: int)
    | NoFollowingMonth(year: int)
    | Aborted(reason: Report.Abort)

  // ---------------------------------------------------------------------
  // Command-line numbers

  const I32Min: int := -0x8000_0000
  const I32Max: int := 0x7fff_ffff
  const U32Max: int := 0xffff_ffff

  /** The value of a run of decimal digits; nothing for an empty run or a
      non-digit. */
  function Magnitude(digits: string): (r: Option<nat>)
    ensures r.Some? <==> digits != [] && Encoding.AllDigits(digits)
  {
    if digits != [] && Encoding.AllDigits(digits) then Some(Encoding.DigitsValue(digits)) else None
  }

  /** `str::parse::<i32>`: an optional sign, then at least one digit, and
      the value must fit in 32 bits. */
  function ParseI32(s: string): (r: Option<int>)
    ensures r.Some? ==> I32Min <= r.value <= I32Max
  {
    var negative := |s| > 0 && s[0] == '-';
    var digits := if |s| > 0 && (s[0] == '-' || s[0] == '+') then s[1..] else s;
    match Magnitude(digits)
    case None => None
    case Some(m) =>
      var v: int := if negative then -(m as int) else m;
      if I32Min <= v <= I32Max then Some(v) else None
  }

  /** `str::parse::<u32>`: an optional '+', then at least one digit, and
      the value must fit in 32 bits. */
  function ParseU32(s: string): (r: Option<int>)
    ensures r.Some? ==> 0 <= r.value <= U32Max
  {
    var digits := if |s| > 0 && s[0] == '+' then s[1..] else s;
    match Magnitude(digits)
    case None => None
    case Some(m) => if m <= U32Max then Some(m) else None
  }

  /** The usual decimal numeral of n. */
  function Numeral(n: int): string {
    if n < 0 then "-" + Encoding.DigitsOf(-n) else Encoding.DigitsOf(n)
  }

  /** Every 32-bit integer parses back from its numeral, and so does every
      `u32` from its digits. */
  lemma ParseNumeral(n: int)
    ensures I32Min <= n <= I32Max ==> ParseI32(Numeral(n)) == Some(n)
    ensures 0 <= n <= U32Max ==> ParseU32(Numeral(n)) == Some(n)
  {
    if n < 0 {
      NegativeNumeral(n);
    } else {
      NaturalNumeral(n);
    }
  }

  lemma NegativeNumeral(n: int)
    requires n < 0
    ensures ParseI32(Numeral(n)) == if I32Min <= n then Some(n) else None
  {
    var digits := Encoding.DigitsOf(-n);
    assert Magnitude(digits) == Some(-n) by {
      Encoding.DigitsRoundTrip(-n);
    }
    var s := Numeral(n);
    assert s == "-" + digits;
    assert s[0] == '-' && s[1..] == digits;
  }

  lemma NaturalNumeral(n: nat)
    ensures ParseI32(Numeral(n)) == if n <= I32Max then Some(n) else None
    ensures ParseU32(Numeral(n)) == if n <= U32Max then Some(n) else None
  {
    var digits := Encoding.DigitsOf(n);
    assert Magnitude(digits) == Some(n) by {
      Encoding.DigitsRoundTrip(n);
    }
    assert Encoding.IsDigit(digits[0]);
  }

  /** A minus sign is not accepted for the month, and a sign without
      digits is not a year. */
  lemma ParseRejects(s: string)
    ensures |s| > 0 && s[0] == '-' ==> ParseU32(s).None?
    ensures ParseI32("").None? && ParseI32("-").None? && ParseI32("+").None?
  {
    if |s| > 0 && s[0] == '-' {
      assert !Encoding.IsDigit(s[0]);
    }
  }

  // ---------------------------------------------------------------------
  // The reporting period

  /** The first day of the month and, through the first day of the next
      month (January of the next year after December), its last day. */
  function ReportingPeriod(year: int, month: int): (r: Result<(Calendar.Date, Calendar.Date), Failure>)
    ensures r.Ok? <==> 1 <= month <= 12 && Calendar.MinYear <= year <= Calendar.MaxYear
                       && (month == 12 ==> year < Calendar.MaxYear)
    ensures r.Ok? ==> r.value.0 == Calendar.Date(year, month, 1)
    ensures r.Ok? ==> r.value.1 == Calendar.Date(year, month, Calendar.DaysInMonth(year, month))
    ensures r.Ok? ==> Calendar.ValidDate(r.value.0) && Calendar.InRange(r.value.0)
    ensures r.Ok? ==> Calendar.ValidDate(r.value.1) && Calendar.InRange(r.value.1)
  {
    match Calendar.FromYmd(year, month, 1)
    case None => Err(NoSuchMonth(year, month))
    case Some(first) =>
      var next := if month == 12 then Calendar.FromYmd(year + 1, 1, 1) else Calendar.FromYmd(year, month + 1, 1);
      match next
      case None => Err(NoFollowingMonth(year))
      case Some(following) => Ok((first, Calendar.Pred(following)))
  }

  /** The period covers the whole month: its last day is followed by the
      first day of the next month (of the next year after December), and
      it spans as many days as the month has. */
  lemma PeriodCoversMonth(year: int, month: int)
    requires ReportingPeriod(year, month).Ok?
    ensures var (first, last) := ReportingPeriod(year, month).value;
      && Calendar.Succ(last) == (if month == 12 then Calendar.Date(year + 1, 1, 1) else Calendar.Date(year, month + 1, 1))
      && Calendar.DayNumber(last) - Calendar.DayNumber(first) + 1 == Calendar.DaysInMonth(year, month)
  {
  }

  /** For a month from 1970 on, the fetch window built from the period holds
      exactly the seconds whose calendar day falls in that month. */
  lemma MonthWindow(year: int, month: int, secs: int)
    requires ReportingPeriod(year, month).Ok? && year >= 1970
    requires Calendar.FromTimestamp(secs).Some?
    ensures var (first, last) := ReportingPeriod(year, month).value;
      var day := Calendar.FromTimestamp(secs).value;
      (Kraken.GetTimestamp(first) as int <= secs <= Kraken.EndTimestamp(last) as int)
        <==> day.year == year && day.month == month
  {
    var (first, last) := ReportingPeriod(year, month).value;
    Calendar.EpochYearsNonNegative(year);
    Kraken.WindowIsDateRange(first, last, secs);
    Calendar.DayInMonthSpan(Calendar.FromTimestamp(secs).value, year, month);
  }

  // ---------------------------------------------------------------------
  // The purchase total

  /** What one record adds to the total: a purchase's value and its fee
      when it has one; nothing for any other record. */
  function Contribution(t: Transaction): real {
    match t
    case Purchase(b, value, _) => value + (match b.operationFees case Some(f) => f case None => 0.0)
    case _ => 0.0
  }

  /** The total spent in purchases over a list of records. */
  function PurchaseTotal(ts: seq<Transaction>): real {
    if ts == [] then 0.0 else PurchaseTotal(ts[..|ts| - 1]) + Contribution(ts[|ts| - 1])
  }

  /** The `brl_spent_in_purchases` accumulation. */
  method BrlSpentInPurchases(transactions: seq<Transaction>) returns (total: real)
    ensures total == PurchaseTotal(transactions)
  {
    total := 0.0;
    var i := 0;
    while i < |transactions|
      invariant 0 <= i <= |transactions|
      invariant total == PurchaseTotal(transactions[..i])
    {
      var t := transactions[i];
      assert transactions[..i + 1][..i] == transactions[..i];
      if t.Purchase? {
        total := total + t.operationValue;
        if t.base.operationFees.Some? {
          total := total + t.base.operationFees.value;
        }
      }
      i := i + 1;
    }
    assert transactions[..i] == transactions;
  }

  /** The total of two lists one after the other is the sum of their
      totals. */
  lemma {:induction false} PurchaseTotalAppend(xs: seq<Transaction>, ys: seq<Transaction>)
    ensures PurchaseTotal(xs + ys) == PurchaseTotal(xs) + PurchaseTotal(ys)
    decreases |ys|
  {
    if ys != [] {
      var init := ys[..|ys| - 1];
      assert (xs + ys)[..|xs + ys| - 1] == xs + init;
      assert (xs + ys)[|xs + ys| - 1] == ys[|ys| - 1];
      PurchaseTotalAppend(xs, init);
    } else {
      assert xs + ys == xs;
    }
  }

  /** Records other than purchases add nothing. */
  lemma {:induction false} NoPurchaseNoTotal(ts: seq<Transaction>)
    requires forall i :: 0 <= i < |ts| ==> !ts[i].Purchase?
    ensures PurchaseTotal(ts) == 0.0
  {
    if ts != [] {
      NoPurchaseNoTotal(ts[..|ts| - 1]);
    }
  }

  /** A purchase the classifier emits adds the trade's gross cost at the
      rate of its quote currency on its day. */
  lemma PurchaseAddsGrossCost(e: Kraken.TradeEntry, rate: Report.RateLookup)
    requires Report.TradeRecord(e, rate).Ok? && Report.TradeRecord(e, rate).value.Some?
    requires Report.TradeRecord(e, rate).value.value.Purchase?
    ensures Report.PairSplit(e.pair).Some? && Calendar.FromTimestamp(Report.IntPart(e.time)).Some?
    ensures var quote := Report.PairSplit(e.pair).value.1;
      var d := Calendar.FromTimestamp(Report.IntPart(e.time)).value;
      rate(d, quote).Some?
      && Contribution(Report.TradeRecord(e, rate).value.value) == Report.AtRate(e.cost, rate(d, quote).value.1)
  {
    Report.TradeRecordMeaning(e, rate);
  }

  /** Over a run, only the trade records count: deposit and withdrawal
      records add nothing to the total. */
  lemma RunTotalIsTradeTotal(
    deposits: seq<Kraken.LedgerEntry>, withdrawals: seq<Kraken.LedgerEntry>,
    trades: seq<Kraken.TradeEntry>, rate: Report.RateLookup)
    requires Report.Classification(deposits, withdrawals, trades, rate).Ok?
    ensures PurchaseTotal(Report.Classification(deposits, withdrawals, trades, rate).value)
         == PurchaseTotal(Report.Emits(trades, Report.TradeRecords(rate)))
  {
    Report.ClassificationLayout(deposits, withdrawals, trades, rate);
    var ds, ws := Report.Emits(deposits, Report.DepositRecord), Report.Emits(withdrawals, Report.WithdrawalRecord);
    var ts := Report.Emits(trades, Report.TradeRecords(rate));
    Report.DepositsEmitTransfers(deposits);
    Report.WithdrawalsEmitWithdrawals(withdrawals);
    assert forall i :: 0 <= i < |ds + ws| ==> (ds + ws)[i] in ds || (ds + ws)[i] in ws;
    NoPurchaseNoTotal(ds + ws);
    PurchaseTotalAppend(ds + ws, ts);
  }

  // ---------------------------------------------------------------------
  // A whole run

  /** A run of the program on its arguments (program name first), the three
      answers the exchange would give and the rate lookup: the records it
      would write and the total it would print. The report file itself is
      not part of this model. */
  method RunReport(
    args: seq<string>,
    depositAnswer: seq<Kraken.LedgerEntry>, withdrawalAnswer: seq<Kraken.LedgerEntry>,
    tradeAnswer: seq<Kraken.TradeEntry>, rate: Report.RateLookup)
    returns (r: Result<(seq<Transaction>, real), Failure>)
    ensures |args| == 0 ==> r == Err(NoProgramName)
    ensures 0 < |args| < 4 ==> r == Err(Usage)
    ensures |args| >= 4 && ParseI32(args[1]).None? ==> r == Err(InvalidYear(args[1]))
    ensures |args| >= 4 && ParseI32(args[1]).Some? && ParseU32(args[2]).None? ==> r == Err(InvalidMonth(args[2]))
    ensures |args| >= 4 && ParseI32(args[1]).Some? && ParseU32(args[2]).Some? ==>
      var (year, month) := (ParseI32(args[1]).value, ParseU32(args[2]).value);
      && (ReportingPeriod(year, month).Err? ==> r == Err(ReportingPeriod(year, month).error))
      && (ReportingPeriod(year, month).Ok? ==>
            var (first, last) := ReportingPeriod(year, month).value;
            var (deposits, withdrawals, trades) :=
              Kraken.FetchKrakenActivity(first, last, depositAnswer, withdrawalAnswer, tradeAnswer);
            var c := Report.Classification(deposits, withdrawals, trades, rate);
            && (c.Err? ==> r == Err(Aborted(c.error)))
            && (c.Ok? ==> r == Ok((c.value, PurchaseTotal(c.value)))))
    ensures r.Ok? ==>
      && |args| >= 4 && ParseI32(args[1]).Some? && ParseU32(args[2]).Some?
      && var (year, month) := (ParseI32(args[1]).value, ParseU32(args[2]).value);
      && ReportingPeriod(year, month).Ok?
      && var (first, last) := ReportingPeriod(year, month).value;
      && var (deposits, withdrawals, trades) :=
           Kraken.FetchKrakenActivity(first, last, depositAnswer, withdrawalAnswer, tradeAnswer);
      && Report.Classification(deposits, withdrawals, trades, rate) == Ok(r.value.0)
      && r.value.1 == PurchaseTotal(r.value.0)
  {
    if |args| == 0 {
      return Err(NoProgramName);
    }
    if |args| < 4 {
      return Err(Usage);
    }
    var year := ParseI32(args[1]);
    if year.None? {
      return Err(InvalidYear(args[1]));
    }
    var month := ParseU32(args[2]);
    if month.None? {
      return Err(InvalidMonth(args[2]));
    }
    var period := ReportingPeriod(year.value, month.value);
    if period.Err? {
      return Err(period.error);
    }
    var (first, last) := period.value;
    var (deposits, withdrawals, trades) :=
      Kraken.FetchKrakenActivity(first, last, depositAnswer, withdrawalAnswer, tradeAnswer);
    var transactions := Report.ProcessKrakenData(deposits, withdrawals, trades, rate);
    if transactions.Err? {
      return Err(Aborted(transactions.error));
    }
    var total := BrlSpentInPurchases(transactions.value);
    r := Ok((transactions.value, total));
  }
}
