/** The classifier: turns the fetched deposits, withdrawals and trades into
    declaration records, converting trade values with a rate lookup and
    aborting the whole run wherever the program panics. */
module Report {
  import opened Wrappers
  import Calendar
  import opened Transactions
  import Kraken

  /** The venue written on every record this exchange produces. */
  const KrakenExchange: ExchangeInfo := ExchangeInfo("Kraken", "https://www.kraken.com", "US")

  /** The reasons the program panics while classifying. */
  datatype Abort =
    | MalformedPair(pair: string)
    | TimestampOutOfRange(seconds: int)
    | DivisionByZero
    | RateUnavailable(asset: string, date: Calendar.Date)
    | UnknownTradeType(side: string)
    | CryptoCryptoTrade
    | FiatCryptoTrade(pair: string)

  /** The rate lookup: for a date and an asset, the date the rate is quoted
      for and the rate in the reporting currency, or nothing on failure. */
  type RateLookup = (Calendar.Date, string) -> Option<(Calendar.Date, real)>

  // ---------------------------------------------------------------------
  // Integer helpers

  /** Truncation toward zero (`Decimal::trunc`). */
  function Trunc(x: real): (r: int)
    ensures x >= 0.0 ==> r as real <= x < r as real + 1.0
    ensures x < 0.0 ==> r as real - 1.0 < x <= r as real
  {
    if x >= 0.0 then x.Floor else -((-x).Floor)
  }

  /** Two's-complement reinterpretation of the low 64 bits (`as i64`). */
  function ToI64(n: int): (r: int)
    ensures -0x8000_0000_0000_0000 <= r < 0x8000_0000_0000_0000
    ensures (r - n) % 0x1_0000_0000_0000_0000 == 0
    ensures -0x8000_0000_0000_0000 <= n < 0x8000_0000_0000_0000 ==> r == n
  {
    var low := n % 0x1_0000_0000_0000_0000;
    if low < 0x8000_0000_0000_0000 then low else low - 0x1_0000_0000_0000_0000
  }

  /** `int_part`: the integer part of a decimal, as an `i64`. The scale
      check in the source always passes, since a truncated decimal has
      scale zero. */
  function IntPart(x: real): int {
    ToI64(Trunc(x))
  }

  /** The integer part of any timestamp within the `i64` range is the
      timestamp rounded toward zero. */
  lemma IntPartOfTimestamp(x: real)
    requires -9223372036854775808.0 < x < 9223372036854775808.0
    ensures x >= 0.0 ==> IntPart(x) as real <= x < IntPart(x) as real + 1.0
    ensures x < 0.0 ==> IntPart(x) as real - 1.0 < x <= IntPart(x) as real
  {
  }

  // ---------------------------------------------------------------------
  // Trading pairs

  /** `trim_start_matches` of 'X' and 'Z'. */
  function TrimXZ(s: string): (r: string)
    ensures |r| <= |s| && r == s[|s| - |r|..]
    ensures forall i :: 0 <= i < |s| - |r| ==> s[i] == 'X' || s[i] == 'Z'
    ensures r == [] || (r[0] != 'X' && r[0] != 'Z')
  {
    if s != [] && (s[0] == 'X' || s[0] == 'Z') then TrimXZ(s[1..]) else s
  }

  /** The fiat codes tried, in order, when splitting a pair. MXN, which
      `is_fiat` accepts, is not among them. */
  const FiatPositions: seq<string> := ["USD", "EUR", "GBP", "JPY", "CAD", "AUD", "CHF", "BRL", "ARS", "AED"]

  predicate OccursAt(s: string, pat: string, i: nat) {
    i + |pat| <= |s| && s[i..i + |pat|] == pat
  }

  /** The first position at or after i where pat occurs in s. */
  function FindFrom(s: string, pat: string, i: nat): (r: Option<nat>)
    requires i <= |s|
    ensures r.Some? ==> i <= r.value && OccursAt(s, pat, r.value)
    ensures r.Some? ==> forall j :: i <= j < r.value ==> !OccursAt(s, pat, j)
    ensures r.None? ==> forall j :: i <= j <= |s| ==> !OccursAt(s, pat, j)
    decreases |s| - i
  {
    if OccursAt(s, pat, i) then Some(i)
    else if i == |s| then None
    else FindFrom(s, pat, i + 1)
  }

  /** `str::find`: the first position where pat occurs. */
  function Find(s: string, pat: string): (r: Option<nat>)
    ensures r.Some? ==> OccursAt(s, pat, r.value) && forall j :: 0 <= j < r.value ==> !OccursAt(s, pat, j)
    ensures r.None? ==> forall j :: 0 <= j <= |s| ==> !OccursAt(s, pat, j)
  {
    FindFrom(s, pat, 0)
  }

  /** The split point given by the first code of `FiatPositions`, from
      index k on, whose first occurrence is past position 0. */
  function FiatSplit(clean: string, k: nat): (r: Option<nat>)
    requires k <= |FiatPositions|
    decreases |FiatPositions| - k
  {
    if k == |FiatPositions| then None
    else match Find(clean, FiatPositions[k])
      case Some(p) => if p > 0 then Some(p) else FiatSplit(clean, k + 1)
      case None => FiatSplit(clean, k + 1)
  }

  /** The code occurs in clean, and first past position 0. */
  predicate FoundPastStart(clean: string, code: string) {
    Find(clean, code).Some? && Find(clean, code).value > 0
  }

  predicate StartsWith(s: string, prefix: string) {
    |prefix| <= |s| && s[..|prefix|] == prefix
  }

  /** Where the pair is split when no fiat code is found past position 0. */
  function DefaultSplit(clean: string): nat {
    if StartsWith(clean, "USDT") || StartsWith(clean, "USDC") then 4 else 3
  }

  /** What `parse_trading_pair` returns; `None` where `split_at` panics
      because the trimmed pair is too short. */
  function PairSplit(pair: string): Option<(string, string)> {
    SplitTrimmed(TrimXZ(pair))
  }

  /** The split of a pair whose leading 'X'/'Z' are already trimmed. */
  function SplitTrimmed(clean: string): Option<(string, string)> {
    var pos := match FiatSplit(clean, 0) case Some(p) => p case None => DefaultSplit(clean);
    if pos <= |clean| then Some((clean[..pos], clean[pos..])) else None
  }

  /** `parse_trading_pair`: tries the fiat codes in order, stopping at the
      first whose first occurrence is past the start, and otherwise splits
      after the default base length. */
  method ParseTradingPair(pair: string) returns (r: Option<(string, string)>)
    ensures r == PairSplit(pair)
  {
    var clean := TrimXZ(pair);
    var splitPos := FirstFiatSplit(clean);
    var pos: nat;
    if splitPos.Some? {
      pos := splitPos.value;
    } else if StartsWith(clean, "USDT") || StartsWith(clean, "USDC") {
      pos := 4;
    } else {
      pos := 3;
    }
    if pos <= |clean| {
      r := Some((clean[..pos], clean[pos..]));
    } else {
      r := None;
    }
  }

  /** The search loop of `parse_trading_pair`. */
  method FirstFiatSplit(clean: string) returns (splitPos: Option<nat>)
    ensures splitPos == FiatSplit(clean, 0)
  {
    splitPos := None;
    var k := 0;
    while k < |FiatPositions|
      invariant 0 <= k <= |FiatPositions|
      invariant FiatSplit(clean, 0) == FiatSplit(clean, k)
      decreases |FiatPositions| - k
    {
      var found := Find(clean, FiatPositions[k]);
      if found.Some? && found.value > 0 {
        splitPos := found;
        return;
      }
      k := k + 1;
    }
  }

  /** Base and quote together are the trimmed pair. */
  lemma PairSplitConcat(clean: string)
    requires SplitTrimmed(clean).Some?
    ensures SplitTrimmed(clean).value.0 + SplitTrimmed(clean).value.1 == clean
  {
    var (b, q) := SplitTrimmed(clean).value;
    assert clean == clean[..|b|] + clean[|b|..];
  }

  /** The fiat split point found from index k is the first occurrence of
      some code k' >= k, after every earlier code either is absent or first
      occurs at position 0. */
  lemma {:induction false} FiatSplitIsFirstMatch(clean: string, k: nat)
    requires k <= |FiatPositions|
    ensures FiatSplit(clean, k).Some? ==>
      exists k' :: k <= k' < |FiatPositions|
        && Find(clean, FiatPositions[k']) == FiatSplit(clean, k)
        && FiatSplit(clean, k).value > 0
        && forall j :: k <= j < k' ==> !FoundPastStart(clean, FiatPositions[j])
    ensures FiatSplit(clean, k).None? ==>
      forall j :: k <= j < |FiatPositions| ==> !FoundPastStart(clean, FiatPositions[j])
    decreases |FiatPositions| - k
  {
    if k < |FiatPositions| {
      FiatSplitIsFirstMatch(clean, k + 1);
      var f := Find(clean, FiatPositions[k]);
      if f.Some? && f.value > 0 {
        assert Find(clean, FiatPositions[k]) == FiatSplit(clean, k);
      } else if FiatSplit(clean, k + 1).Some? {
        var k' :| k + 1 <= k' < |FiatPositions|
          && Find(clean, FiatPositions[k']) == FiatSplit(clean, k + 1)
          && FiatSplit(clean, k + 1).value > 0
          && forall j :: k + 1 <= j < k' ==> !FoundPastStart(clean, FiatPositions[j]);
        assert forall j :: k <= j < k' ==> !FoundPastStart(clean, FiatPositions[j]);
      }
    }
  }

  /** The trimmed pair is split at the first occurrence of the k-th listed
      code, which lies past position 0, every earlier code being absent
      or first occurring at position 0. */
  predicate SplitAtFiat(clean: string, base: string, quote: string, k: int) {
    && 0 <= k < |FiatPositions|
    && Find(clean, FiatPositions[k]) == Some(|base|) && |base| > 0
    && StartsWith(quote, FiatPositions[k])
    && forall j :: 0 <= j < k ==> !FoundPastStart(clean, FiatPositions[j])
  }

  /** No listed code is found past position 0. */
  predicate NoFiatPastStart(clean: string) {
    forall j :: 0 <= j < |FiatPositions| ==> !FoundPastStart(clean, FiatPositions[j])
  }

  /** Where the split falls: at the first occurrence of the first listed
      fiat code found past position 0, so that the quote opens with that
      code and the base is not empty; otherwise after 4 characters for
      USDT/USDC and after 3 for anything else. */
  lemma PairSplitPoint(clean: string)
    requires SplitTrimmed(clean).Some?
    ensures var (base, quote) := SplitTrimmed(clean).value;
      || (exists k :: SplitAtFiat(clean, base, quote, k))
      || (NoFiatPastStart(clean) && |base| == DefaultSplit(clean))
  {
    if FiatSplit(clean, 0).Some? {
      FiatSplitChosen(clean);
    } else {
      FiatSplitIsFirstMatch(clean, 0);
    }
  }

  lemma FiatSplitChosen(clean: string)
    requires SplitTrimmed(clean).Some? && FiatSplit(clean, 0).Some?
    ensures exists k :: SplitAtFiat(clean, SplitTrimmed(clean).value.0, SplitTrimmed(clean).value.1, k)
  {
    FiatSplitIsFirstMatch(clean, 0);
    var k :| 0 <= k < |FiatPositions|
      && Find(clean, FiatPositions[k]) == FiatSplit(clean, 0) && FiatSplit(clean, 0).value > 0
      && forall j :: 0 <= j < k ==> !FoundPastStart(clean, FiatPositions[j]);
    FiatSplitWitness(clean, k);
  }

  lemma FiatSplitWitness(clean: string, k: nat)
    requires SplitTrimmed(clean).Some?
    requires k < |FiatPositions| && FiatSplit(clean, 0).Some?
    requires Find(clean, FiatPositions[k]) == FiatSplit(clean, 0)
    requires FiatSplit(clean, 0).value > 0
    requires forall j :: 0 <= j < k ==> !FoundPastStart(clean, FiatPositions[j])
    ensures SplitAtFiat(clean, SplitTrimmed(clean).value.0, SplitTrimmed(clean).value.1, k)
  {
    var p := FiatSplit(clean, 0).value;
    var (base, quote) := SplitTrimmed(clean).value;
    assert base == clean[..p] && quote == clean[p..];
    assert OccursAt(clean, FiatPositions[k], p);
    assert quote[..|FiatPositions[k]|] == clean[p..p + |FiatPositions[k]|];
  }

  /** `split_at` panics only when no fiat code is found past the start and
      the trimmed pair has fewer than three characters. */
  lemma PairSplitFails(clean: string)
    ensures SplitTrimmed(clean).None? <==> FiatSplit(clean, 0).None? && |clean| < 3
  {
    if FiatSplit(clean, 0).Some? {
      FiatSplitFits(clean, 0);
    } else {
      DefaultSplitFits(clean);
    }
  }

  /** Every listed code is three characters long. */
  lemma FiatCodeLengths()
    ensures forall k :: 0 <= k < |FiatPositions| ==> |FiatPositions[k]| == 3
  {
  }

  /** A fiat split point leaves room for the whole code after it. */
  lemma {:induction false} FiatSplitFits(clean: string, k: nat)
    requires k <= |FiatPositions| && FiatSplit(clean, k).Some?
    ensures FiatSplit(clean, k).value + 3 <= |clean|
    decreases |FiatPositions| - k
  {
    var f := Find(clean, FiatPositions[k]);
    if f.Some? && f.value > 0 {
      FiatCodeLengths();
      assert OccursAt(clean, FiatPositions[k], f.value);
    } else {
      FiatSplitFits(clean, k + 1);
    }
  }

  /** The default split point fits exactly when the pair has at least three
      characters. */
  lemma DefaultSplitFits(clean: string)
    ensures DefaultSplit(clean) <= |clean| <==> |clean| >= 3
  {
  }

  /** Kraken's own names: leading 'X'/'Z' are stripped before splitting,
      including the 'X' that belongs to XBT. */
  lemma PairSplitBitcoinEuro(pair: string)
    requires pair == "XXBTZEUR"
    ensures PairSplit(pair) == Some(("BTZ", "EUR"))
  {
    var clean := pair[2..];
    assert pair[0] == 'X' && pair[1] == 'X' && pair[2] == 'B';
    assert pair[1..][1..] == clean;
    assert TrimXZ(pair) == clean;
    CodeFoundAt(clean, "EUR", 3);
    AbsentCode(clean, "USD");
    FiatSplitPicks(clean, 0, 1);
    assert clean[..3] == "BTZ" && clean[3..] == "EUR";
  }

  /** Only the first occurrence of a code counts: USD at position 0 is
      passed over, and the stablecoin rule splits after four characters. */
  lemma PairSplitStablecoin(pair: string)
    requires pair == "USDTZUSD"
    ensures PairSplit(pair) == Some(("USDT", "ZUSD"))
  {
    assert pair[0] == 'U';
    assert TrimXZ(pair) == pair;
    CodeFoundAt(pair, "USD", 0);
    forall j | 1 <= j < |FiatPositions| ensures Find(pair, FiatPositions[j]).None? {
      AbsentCode(pair, FiatPositions[j]);
    }
    NoFiatSplit(pair, 0);
    assert pair[..4] == "USDT" && pair[4..] == "ZUSD";
  }

  /** MXN is fiat to `is_fiat` but is not among the split codes. */
  lemma PairSplitPeso(pair: string)
    requires pair == "ETHMXN"
    ensures PairSplit(pair) == Some(("ETH", "MXN"))
  {
    assert pair[0] == 'E';
    assert TrimXZ(pair) == pair;
    forall j | 0 <= j < |FiatPositions| ensures Find(pair, FiatPositions[j]).None? {
      AbsentCode(pair, FiatPositions[j]);
    }
    NoFiatSplit(pair, 0);
    assert pair[..4] == "ETHM";
    assert pair[..3] == "ETH" && pair[3..] == "MXN";
  }

  /** A three-letter code that mismatches at every position is not found. */
  lemma AbsentCode(clean: string, code: string)
    requires |code| == 3
    requires forall i :: 0 <= i && i + 3 <= |clean| ==>
      clean[i] != code[0] || clean[i + 1] != code[1] || clean[i + 2] != code[2]
    ensures Find(clean, code).None?
  {
    forall i | 0 <= i <= |clean| ensures !OccursAt(clean, code, i) {
      if i + 3 <= |clean| {
        var w := clean[i..i + 3];
        assert w[0] == clean[i] && w[1] == clean[i + 1] && w[2] == clean[i + 2];
      }
    }
  }

  /** A three-letter code found at p and mismatching everywhere before. */
  lemma CodeFoundAt(clean: string, code: string, p: nat)
    requires |code| == 3 && p + 3 <= |clean|
    requires clean[p] == code[0] && clean[p + 1] == code[1] && clean[p + 2] == code[2]
    requires forall i :: 0 <= i < p ==>
      clean[i] != code[0] || clean[i + 1] != code[1] || clean[i + 2] != code[2]
    ensures Find(clean, code) == Some(p)
  {
    assert OccursAt(clean, code, p);
    AbsentCode(clean[..p + 2], code);
    forall i | 0 <= i < p ensures !OccursAt(clean, code, i) {
      assert !OccursAt(clean[..p + 2], code, i);
      assert clean[i..i + 3] == clean[..p + 2][i..i + 3];
    }
  }

  lemma {:induction false} NoFiatSplit(clean: string, from: nat)
    requires from <= |FiatPositions|
    requires forall j :: from <= j < |FiatPositions| ==> !FoundPastStart(clean, FiatPositions[j])
    ensures FiatSplit(clean, from).None?
    decreases |FiatPositions| - from
  {
    if from < |FiatPositions| {
      NoFiatSplit(clean, from + 1);
    }
  }

  lemma {:induction false} FiatSplitPicks(clean: string, from: nat, k: nat)
    requires from <= k < |FiatPositions|
    requires Find(clean, FiatPositions[k]).Some? && Find(clean, FiatPositions[k]).value > 0
    requires forall j :: from <= j < k ==> Find(clean, FiatPositions[j]).None?
    ensures FiatSplit(clean, from) == Find(clean, FiatPositions[k])
    decreases k - from
  {
    if from < k {
      FiatSplitPicks(clean, from + 1, k);
    }
  }

  // ---------------------------------------------------------------------
  // Classifying one entry

  /** A deposit of a crypto asset becomes one transfer into the exchange,
      dated by the day holding its timestamp, with the fee as given;
      a fiat deposit yields nothing. */
  function DepositRecord(e: Kraken.LedgerEntry): Result<Option<Transaction>, Abort>
  {
    if Kraken.IsFiat(e.asset) then Ok(None)
    else
      var secs := ToI64(e.time as int);
      match Calendar.FromTimestamp(secs)
      case None => Err(TimestampOutOfRange(secs))
      case Some(d) => Ok(Some(TransferToExchange(TransactionBase(d, Some(e.fee), e.asset, e.amount), None, None)))
  }

  lemma DepositRecordMeaning(e: Kraken.LedgerEntry)
    ensures DepositRecord(e) == Ok(None) <==> Kraken.IsFiat(e.asset)
    ensures DepositRecord(e).Err? <==> !Kraken.IsFiat(e.asset) && Calendar.FromTimestamp(ToI64(e.time as int)).None?
    ensures DepositRecord(e).Ok? && DepositRecord(e).value.Some? ==>
      var t := DepositRecord(e).value.value;
      && t.TransferToExchange? && t.originWallet.None? && t.originExchangeName.None?
      && t.base.cryptoSymbol == e.asset && t.base.cryptoAmount == e.amount
      && t.base.operationFees == Some(e.fee)
      && Calendar.ValidDate(t.base.operationDate) && Calendar.InRange(t.base.operationDate)
      && Calendar.Timestamp(t.base.operationDate) <= ToI64(e.time as int)
           < Calendar.Timestamp(t.base.operationDate) + Calendar.SecondsPerDay
  {
  }

  /** A withdrawal of a crypto asset becomes one withdrawal from this
      exchange, with the fee as given (not converted); a fiat withdrawal
      yields nothing. */
  function WithdrawalRecord(e: Kraken.LedgerEntry): Result<Option<Transaction>, Abort>
  {
    if Kraken.IsFiat(e.asset) then Ok(None)
    else
      var secs := ToI64(e.time as int);
      match Calendar.FromTimestamp(secs)
      case None => Err(TimestampOutOfRange(secs))
      case Some(d) => Ok(Some(WithdrawalFromExchange(TransactionBase(d, Some(e.fee), e.asset, e.amount), KrakenExchange)))
  }

  lemma WithdrawalRecordMeaning(e: Kraken.LedgerEntry)
    ensures WithdrawalRecord(e) == Ok(None) <==> Kraken.IsFiat(e.asset)
    ensures WithdrawalRecord(e).Err? <==> !Kraken.IsFiat(e.asset) && Calendar.FromTimestamp(ToI64(e.time as int)).None?
    ensures WithdrawalRecord(e).Ok? && WithdrawalRecord(e).value.Some? ==>
      var t := WithdrawalRecord(e).value.value;
      && t.WithdrawalFromExchange? && t.originExchange == KrakenExchange
      && t.base.cryptoSymbol == e.asset && t.base.cryptoAmount == e.amount
      && t.base.operationFees == Some(e.fee)
      && Calendar.ValidDate(t.base.operationDate) && Calendar.InRange(t.base.operationDate)
      && Calendar.Timestamp(t.base.operationDate) <= ToI64(e.time as int)
           < Calendar.Timestamp(t.base.operationDate) + Calendar.SecondsPerDay
  {
  }

  /** A trade: split the pair, date it by the integer part of its time,
      then classify it by whether base and quote are fiat. */
  function TradeRecord(e: Kraken.TradeEntry, rate: RateLookup): Result<Option<Transaction>, Abort> {
    match PairSplit(e.pair)
    case None => Err(MalformedPair(e.pair))
    case Some((base, quote)) =>
      var secs := IntPart(e.time);
      match Calendar.FromTimestamp(secs)
      case None => Err(TimestampOutOfRange(secs))
      case Some(d) => TradeOnDay(e, base, quote, d, rate)
  }

  /** A dated trade of base against quote: a crypto/fiat trade is a
      purchase or sale valued at the quote's rate, a fiat/fiat trade
      yields nothing, and anything else aborts. */
  function TradeOnDay(e: Kraken.TradeEntry, base: string, quote: string, d: Calendar.Date, rate: RateLookup)
    : Result<Option<Transaction>, Abort>
  {
    if !Kraken.IsFiat(base) && Kraken.IsFiat(quote) then
      if e.price == 0.0 then Err(DivisionByZero)
      else match rate(d, quote)
        case None => Err(RateUnavailable(quote, d))
        case Some((_, brl)) => ConvertedTrade(e, base, d, brl)
    else if !Kraken.IsFiat(base) then Err(CryptoCryptoTrade)
    else if !Kraken.IsFiat(quote) then Err(FiatCryptoTrade(e.pair))
    else Ok(None)
  }

  /** An amount of the quote currency in the reporting currency, at rate
      brl. */
  function AtRate(amount: real, brl: real): real {
    amount * brl
  }

  /** A crypto/fiat trade converted at rate brl: net amount, value and fee,
      as a purchase for "buy" and a sale for "sell". */
  function ConvertedTrade(e: Kraken.TradeEntry, base: string, d: Calendar.Date, brl: real)
    : Result<Option<Transaction>, Abort>
    requires e.price != 0.0
  {
    var b := TransactionBase(d, Some(AtRate(e.fee, brl)), base, e.vol - e.fee / e.price);
    if e.side == "buy" then Ok(Some(Purchase(b, AtRate(e.cost - e.fee, brl), KrakenExchange)))
    else if e.side == "sell" then Ok(Some(Sale(b, AtRate(e.cost - e.fee, brl), KrakenExchange)))
    else Err(UnknownTradeType(e.side))
  }

  /** `TradeRecord` under a fixed rate lookup, as a classifier. */
  function TradeRecords(rate: RateLookup): Kraken.TradeEntry -> Result<Option<Transaction>, Abort> {
    e => TradeRecord(e, rate)
  }

  /** Which trades get through: every trade that does not abort has a fiat
      quote, and it yields nothing exactly when its base is fiat too. A pair
      that does not split or a time without a date aborts; a dated fiat/fiat
      trade is skipped; crypto/crypto and fiat/crypto trades abort; a
      crypto/fiat trade aborts on a zero price, on a missing rate and on a
      side other than "buy" and "sell". */
  lemma TradeOutcomes(e: Kraken.TradeEntry, rate: RateLookup)
    ensures TradeRecord(e, rate).Ok? ==>
      && PairSplit(e.pair).Some? && Calendar.FromTimestamp(IntPart(e.time)).Some?
      && Kraken.IsFiat(PairSplit(e.pair).value.1)
      && (TradeRecord(e, rate).value.None? <==> Kraken.IsFiat(PairSplit(e.pair).value.0))
    ensures PairSplit(e.pair).None? ==> TradeRecord(e, rate) == Err(MalformedPair(e.pair))
    ensures PairSplit(e.pair).Some? && Calendar.FromTimestamp(IntPart(e.time)).None? ==>
      TradeRecord(e, rate) == Err(TimestampOutOfRange(IntPart(e.time)))
    ensures PairSplit(e.pair).Some? && Calendar.FromTimestamp(IntPart(e.time)).Some? ==>
      var (base, quote) := PairSplit(e.pair).value;
      var d := Calendar.FromTimestamp(IntPart(e.time)).value;
      && (Kraken.IsFiat(base) && Kraken.IsFiat(quote) ==> TradeRecord(e, rate) == Ok(None))
      && (!Kraken.IsFiat(base) && !Kraken.IsFiat(quote) ==> TradeRecord(e, rate) == Err(CryptoCryptoTrade))
      && (Kraken.IsFiat(base) && !Kraken.IsFiat(quote) ==> TradeRecord(e, rate) == Err(FiatCryptoTrade(e.pair)))
      && (!Kraken.IsFiat(base) && Kraken.IsFiat(quote) && e.price == 0.0 ==>
            TradeRecord(e, rate) == Err(DivisionByZero))
      && (!Kraken.IsFiat(base) && Kraken.IsFiat(quote) && e.price != 0.0 && rate(d, quote).None? ==>
            TradeRecord(e, rate) == Err(RateUnavailable(quote, d)))
      && (!Kraken.IsFiat(base) && Kraken.IsFiat(quote) && e.price != 0.0 && rate(d, quote).Some? ==>
            (TradeRecord(e, rate).Ok? <==> e.side == "buy" || e.side == "sell")
            && (TradeRecord(e, rate).Err? ==> TradeRecord(e, rate) == Err(UnknownTradeType(e.side))))
  {
  }

  /** What a record emitted for trade e says: a purchase for "buy" and a
      sale for "sell" of the base asset, on day d, by this exchange; the
      amount is the volume less the fee expressed in the base asset, and
      value plus fee is the gross cost at rate brl. */
  predicate ConvertedRecord(t: Transaction, e: Kraken.TradeEntry, base: string, d: Calendar.Date, brl: real) {
    && (t.Purchase? <==> e.side == "buy") && (t.Sale? <==> e.side == "sell")
    && (t.Purchase? ==> t.buyerExchange == KrakenExchange)
    && (t.Sale? ==> t.sellerExchange == KrakenExchange)
    && (t.Purchase? || t.Sale?)
    && t.base.operationDate == d && t.base.cryptoSymbol == base
    && (e.vol - t.base.cryptoAmount) * e.price == e.fee
    && t.base.operationFees == Some(AtRate(e.fee, brl))
    && t.operationValue + AtRate(e.fee, brl) == AtRate(e.cost, brl)
  }

  /** An emitted trade record comes from a crypto/fiat trade with a nonzero
      price whose rate was found, and says what `ConvertedRecord` says at
      that rate, dated by the day holding the trade's time. */
  lemma TradeRecordMeaning(e: Kraken.TradeEntry, rate: RateLookup)
    requires TradeRecord(e, rate).Ok? && TradeRecord(e, rate).value.Some?
    ensures PairSplit(e.pair).Some? && Calendar.FromTimestamp(IntPart(e.time)).Some?
    ensures var (base, quote) := PairSplit(e.pair).value;
      var d := Calendar.FromTimestamp(IntPart(e.time)).value;
      && !Kraken.IsFiat(base) && Kraken.IsFiat(quote) && e.price != 0.0 && rate(d, quote).Some?
      && Calendar.Timestamp(d) <= IntPart(e.time) < Calendar.Timestamp(d) + Calendar.SecondsPerDay
      && ConvertedRecord(TradeRecord(e, rate).value.value, e, base, d, rate(d, quote).value.1)
  {
    var (base, quote) := PairSplit(e.pair).value;
    var d := Calendar.FromTimestamp(IntPart(e.time)).value;
    assert TradeRecord(e, rate) == TradeOnDay(e, base, quote, d, rate);
    DatedTradeEmits(e, base, quote, d, rate);
    ConvertedTradeMeaning(e, base, d, rate(d, quote).value.1);
  }

  /** A dated trade emits a record only as a crypto/fiat trade whose rate
      is found. */
  lemma DatedTradeEmits(e: Kraken.TradeEntry, base: string, quote: string, d: Calendar.Date, rate: RateLookup)
    requires TradeOnDay(e, base, quote, d, rate).Ok? && TradeOnDay(e, base, quote, d, rate).value.Some?
    ensures !Kraken.IsFiat(base) && Kraken.IsFiat(quote) && e.price != 0.0 && rate(d, quote).Some?
    ensures TradeOnDay(e, base, quote, d, rate) == ConvertedTrade(e, base, d, rate(d, quote).value.1)
  {
  }

  lemma ConvertedTradeMeaning(e: Kraken.TradeEntry, base: string, d: Calendar.Date, brl: real)
    requires e.price != 0.0 && ConvertedTrade(e, base, d, brl).Ok?
    ensures ConvertedTrade(e, base, d, brl).value.Some?
    ensures ConvertedRecord(ConvertedTrade(e, base, d, brl).value.value, e, base, d, brl)
  {
    ConvertedTradeShape(e, base, d, brl);
    NetOfFee(e.vol, e.fee, e.price);
    GrossCost(e.cost, e.fee, brl);
  }

  lemma ConvertedTradeShape(e: Kraken.TradeEntry, base: string, d: Calendar.Date, brl: real)
    requires e.price != 0.0 && ConvertedTrade(e, base, d, brl).Ok?
    ensures e.side == "buy" || e.side == "sell"
    ensures var b := TransactionBase(d, Some(AtRate(e.fee, brl)), base, e.vol - e.fee / e.price);
      ConvertedTrade(e, base, d, brl).value
        == Some(if e.side == "buy" then Purchase(b, AtRate(e.cost - e.fee, brl), KrakenExchange)
                else Sale(b, AtRate(e.cost - e.fee, brl), KrakenExchange))
  {
  }

  /** The volume less the fee in base units, times the price, falls short
      of the volume's worth by exactly the fee. */
  lemma NetOfFee(vol: real, fee: real, price: real)
    requires price != 0.0
    ensures (vol - (vol - fee / price)) * price == fee
  {
  }

  lemma GrossCost(cost: real, fee: real, brl: real)
    ensures AtRate(cost - fee, brl) + AtRate(fee, brl) == AtRate(cost, brl)
  {
  }

  // ---------------------------------------------------------------------
  // Classifying a list

  /** The records of a list of entries, classified front to back: the
      first entry that aborts aborts the whole list. */
  function Collect<T>(s: seq<T>, classify: T -> Result<Option<Transaction>, Abort>): (r: Result<seq<Transaction>, Abort>)
  {
    if s == [] then Ok([])
    else
      var init := s[..|s| - 1];
      match Collect(init, classify)
      case Err(a) => Err(a)
      case Ok(prefix) =>
        match classify(s[|s| - 1])
        case Err(a) => Err(a)
        case Ok(None) => Ok(prefix)
        case Ok(Some(t)) => Ok(prefix + [t])
  }

  /** A list classifies without aborting exactly when each of its entries
      does; otherwise it aborts with the reason of its first entry that
      aborts. */
  lemma {:induction false} CollectAborts<T>(s: seq<T>, classify: T -> Result<Option<Transaction>, Abort>)
    ensures Collect(s, classify).Ok? <==> forall i :: 0 <= i < |s| ==> classify(s[i]).Ok?
    ensures Collect(s, classify).Err? ==> exists i :: (0 <= i < |s| && classify(s[i]) == Err(Collect(s, classify).error)
      && forall j :: 0 <= j < i ==> classify(s[j]).Ok?)
  {
    if s != [] {
      var init := s[..|s| - 1];
      CollectAborts(init, classify);
      assert forall i :: 0 <= i < |init| ==> init[i] == s[i];
    }
  }

  /** The records a list of entries yields, entry by entry in order. */
  function Emits<T>(s: seq<T>, classify: T -> Result<Option<Transaction>, Abort>): seq<Transaction> {
    if s == [] then []
    else (match classify(s[0]) case Ok(Some(t)) => [t] case _ => []) + Emits(s[1..], classify)
  }

  lemma {:induction false} EmitsAppend<T>(s: seq<T>, x: T, classify: T -> Result<Option<Transaction>, Abort>)
    ensures Emits(s + [x], classify)
         == Emits(s, classify) + (match classify(x) case Ok(Some(t)) => [t] case _ => [])
  {
    if s != [] {
      assert (s + [x])[1..] == s[1..] + [x];
      EmitsAppend(s[1..], x, classify);
    }
  }

  /** A list that classifies without aborting yields the records of its
      entries in the order of the entries. */
  lemma {:induction false} CollectEmits<T>(s: seq<T>, classify: T -> Result<Option<Transaction>, Abort>)
    requires Collect(s, classify).Ok?
    ensures Collect(s, classify).value == Emits(s, classify)
  {
    if s != [] {
      var init := s[..|s| - 1];
      CollectEmits(init, classify);
      EmitsAppend(init, s[|s| - 1], classify);
      assert init + [s[|s| - 1]] == s;
    }
  }

  /** One more entry classified: how `Collect` of a prefix grows by one. */
  lemma CollectStep<T>(s: seq<T>, i: nat, classify: T -> Result<Option<Transaction>, Abort>)
    requires i < |s|
    ensures Collect(s[..i + 1], classify) ==
      match Collect(s[..i], classify)
      case Err(a) => Err(a)
      case Ok(prefix) =>
        match classify(s[i])
        case Err(a) => Err(a)
        case Ok(None) => Ok(prefix)
        case Ok(Some(t)) => Ok(prefix + [t])
  {
    assert s[..i + 1][..i] == s[..i];
  }

  /** The records one classified entry adds. */
  function Pushed(o: Option<Transaction>): seq<Transaction> {
    match o case None => [] case Some(t) => [t]
  }

  /** Pushing a classified entry's record onto a list that holds the
      records so far. */
  lemma PushOnto(transactions: seq<Transaction>, acc: seq<Transaction>, o: Option<Transaction>)
    ensures transactions + (acc + Pushed(o))
         == if o.Some? then (transactions + acc) + [o.value] else transactions + acc
  {
    if o.None? {
      assert acc + Pushed(o) == acc;
    }
  }

  /** One more entry, whose classification is known, after a prefix that
      classified into acc. */
  lemma CollectExtends<T>(s: seq<T>, i: nat, classify: T -> Result<Option<Transaction>, Abort>,
                          acc: seq<Transaction>, outcome: Result<Option<Transaction>, Abort>)
    requires i < |s| && Collect(s[..i], classify) == Ok(acc) && classify(s[i]) == outcome
    ensures outcome.Err? ==> Collect(s[..i + 1], classify) == Err(outcome.error)
    ensures outcome.Ok? ==> Collect(s[..i + 1], classify) == Ok(acc + Pushed(outcome.value))
  {
    CollectStep(s, i, classify);
    if outcome == Ok(None) {
      assert acc + Pushed(outcome.value) == acc;
    }
  }

  /** Once a prefix aborts, the whole list aborts with the same reason. */
  lemma {:induction false} CollectAbortSticks<T>(s: seq<T>, n: nat, classify: T -> Result<Option<Transaction>, Abort>)
    requires n <= |s| && Collect(s[..n], classify).Err?
    ensures Collect(s, classify) == Collect(s[..n], classify)
    decreases |s| - n
  {
    if n < |s| {
      var s' := s[..n + 1];
      assert s'[..n] == s[..n];
      assert Collect(s', classify) == Collect(s[..n], classify);
      CollectAbortSticks(s, n + 1, classify);
    } else {
      assert s[..n] == s;
    }
  }

  /** Every record a list yields satisfies whatever every record of one
      entry satisfies. */
  lemma {:induction false} EmitsAll<T>(s: seq<T>, classify: T -> Result<Option<Transaction>, Abort>, p: Transaction -> bool)
    requires forall x :: classify(x).Ok? && classify(x).value.Some? ==> p(classify(x).value.value)
    ensures forall t :: t in Emits(s, classify) ==> p(t)
  {
    if s != [] {
      EmitsAll(s[1..], classify, p);
    }
  }

  /** The number of entries of a ledger list whose asset is not fiat. */
  function CryptoCount(s: seq<Kraken.LedgerEntry>): nat {
    if s == [] then 0 else (if Kraken.IsFiat(s[0].asset) then 0 else 1) + CryptoCount(s[1..])
  }

  /** A ledger list that classifies without aborting yields exactly one
      record per crypto entry. */
  lemma {:induction false} OneRecordPerCrypto(s: seq<Kraken.LedgerEntry>, classify: Kraken.LedgerEntry -> Result<Option<Transaction>, Abort>)
    requires classify == DepositRecord || classify == WithdrawalRecord
    requires forall i :: 0 <= i < |s| ==> classify(s[i]).Ok?
    ensures |Emits(s, classify)| == CryptoCount(s)
  {
    if s != [] {
      OneRecordPerCrypto(s[1..], classify);
    }
  }

  // ---------------------------------------------------------------------
  // The whole classifier

  /** The records of a run: the deposits' records, then the withdrawals',
      then the trades'; the first entry that aborts aborts the run. */
  function Classification(
    deposits: seq<Kraken.LedgerEntry>, withdrawals: seq<Kraken.LedgerEntry>,
    trades: seq<Kraken.TradeEntry>, rate: RateLookup): Result<seq<Transaction>, Abort>
  {
    match Collect(deposits, DepositRecord)
    case Err(a) => Err(a)
    case Ok(ts) =>
      match Collect(withdrawals, WithdrawalRecord)
      case Err(a) => Err(a)
      case Ok(ws) =>
        match Collect(trades, TradeRecords(rate))
        case Err(a) => Err(a)
        case Ok(rs) => Ok(ts + ws + rs)
  }

  /** `process_kraken_data`: three passes pushing onto one list. */
  method ProcessKrakenData(
    deposits: seq<Kraken.LedgerEntry>, withdrawals: seq<Kraken.LedgerEntry>,
    trades: seq<Kraken.TradeEntry>, rate: RateLookup)
    returns (r: Result<seq<Transaction>, Abort>)
    ensures r == Classification(deposits, withdrawals, trades, rate)
  {
    var transactions := DepositPass([], deposits);
    if transactions.Err? {
      return transactions;
    }
    var ts := Collect(deposits, DepositRecord).value;
    assert transactions.value == ts;
    transactions := WithdrawalPass(ts, withdrawals);
    if transactions.Err? {
      return transactions;
    }
    var ws := Collect(withdrawals, WithdrawalRecord).value;
    assert transactions.value == ts + ws;
    r := TradePass(ts + ws, trades, rate);
  }

  /** The deposit pass: crypto deposits pushed as transfers in. */
  method DepositPass(transactions: seq<Transaction>, deposits: seq<Kraken.LedgerEntry>)
    returns (r: Result<seq<Transaction>, Abort>)
    ensures Collect(deposits, DepositRecord).Ok? ==> r == Ok(transactions + Collect(deposits, DepositRecord).value)
    ensures Collect(deposits, DepositRecord).Err? ==> r == Err(Collect(deposits, DepositRecord).error)
  {
    var pushed := transactions;
    ghost var acc: seq<Transaction> := [];
    var i := 0;
    while i < |deposits|
      invariant 0 <= i <= |deposits|
      invariant Collect(deposits[..i], DepositRecord) == Ok(acc)
      invariant pushed == transactions + acc
    {
      var deposit := deposits[i];
      CollectExtends(deposits, i, DepositRecord, acc, DepositRecord(deposit));
      if !Kraken.IsFiat(deposit.asset) {
        var secs := ToI64(deposit.time as int);
        var time := Calendar.FromTimestamp(secs);
        if time.None? {
          CollectAbortSticks(deposits, i + 1, DepositRecord);
          return Err(TimestampOutOfRange(secs));
        }
        pushed := pushed + [TransferToExchange(
          TransactionBase(time.value, Some(deposit.fee), deposit.asset, deposit.amount), None, None)];
      }
      PushOnto(transactions, acc, DepositRecord(deposit).value);
      acc := acc + Pushed(DepositRecord(deposit).value);
      i := i + 1;
    }
    assert deposits[..i] == deposits;
    r := Ok(pushed);
  }

  /** The withdrawal pass: crypto withdrawals pushed as withdrawals from
      this exchange. */
  method WithdrawalPass(transactions: seq<Transaction>, withdrawals: seq<Kraken.LedgerEntry>)
    returns (r: Result<seq<Transaction>, Abort>)
    ensures Collect(withdrawals, WithdrawalRecord).Ok? ==> r == Ok(transactions + Collect(withdrawals, WithdrawalRecord).value)
    ensures Collect(withdrawals, WithdrawalRecord).Err? ==> r == Err(Collect(withdrawals, WithdrawalRecord).error)
  {
    var pushed := transactions;
    ghost var acc: seq<Transaction> := [];
    var i := 0;
    while i < |withdrawals|
      invariant 0 <= i <= |withdrawals|
      invariant Collect(withdrawals[..i], WithdrawalRecord) == Ok(acc)
      invariant pushed == transactions + acc
    {
      var withdrawal := withdrawals[i];
      CollectExtends(withdrawals, i, WithdrawalRecord, acc, WithdrawalRecord(withdrawal));
      if !Kraken.IsFiat(withdrawal.asset) {
        var secs := ToI64(withdrawal.time as int);
        var time := Calendar.FromTimestamp(secs);
        if time.None? {
          CollectAbortSticks(withdrawals, i + 1, WithdrawalRecord);
          return Err(TimestampOutOfRange(secs));
        }
        pushed := pushed + [WithdrawalFromExchange(
          TransactionBase(time.value, Some(withdrawal.fee), withdrawal.asset, withdrawal.amount), KrakenExchange)];
      }
      PushOnto(transactions, acc, WithdrawalRecord(withdrawal).value);
      acc := acc + Pushed(WithdrawalRecord(withdrawal).value);
      i := i + 1;
    }
    assert withdrawals[..i] == withdrawals;
    r := Ok(pushed);
  }

  /** The trade pass: each trade classified, its record pushed if any. */
  method TradePass(transactions: seq<Transaction>, trades: seq<Kraken.TradeEntry>, rate: RateLookup)
    returns (r: Result<seq<Transaction>, Abort>)
    ensures Collect(trades, TradeRecords(rate)).Ok? ==> r == Ok(transactions + Collect(trades, TradeRecords(rate)).value)
    ensures Collect(trades, TradeRecords(rate)).Err? ==> r == Err(Collect(trades, TradeRecords(rate)).error)
  {
    var pushed := transactions;
    ghost var acc: seq<Transaction> := [];
    var i := 0;
    while i < |trades|
      invariant 0 <= i <= |trades|
      invariant Collect(trades[..i], TradeRecords(rate)) == Ok(acc)
      invariant pushed == transactions + acc
    {
      var outcome := TradeStep(trades[i], rate);
      CollectExtends(trades, i, TradeRecords(rate), acc, outcome);
      if outcome.Err? {
        CollectAbortSticks(trades, i + 1, TradeRecords(rate));
        return Err(outcome.error);
      }
      if outcome.value.Some? {
        pushed := pushed + [outcome.value.value];
      }
      PushOnto(transactions, acc, outcome.value);
      acc := acc + Pushed(outcome.value);
      i := i + 1;
    }
    assert trades[..i] == trades;
    r := Ok(pushed);
  }

  /** The body of the trade pass for one trade. */
  method TradeStep(trade: Kraken.TradeEntry, rate: RateLookup) returns (r: Result<Option<Transaction>, Abort>)
    ensures r == TradeRecord(trade, rate)
  {
    var split := ParseTradingPair(trade.pair);
    if split.None? {
      return Err(MalformedPair(trade.pair));
    }
    var (base, quote) := split.value;
    assert PairSplit(trade.pair) == Some((base, quote));
    var secs := IntPart(trade.time);
    var time := Calendar.FromTimestamp(secs);
    if time.None? {
      assert TradeRecord(trade, rate) == Err(TimestampOutOfRange(secs));
      return Err(TimestampOutOfRange(secs));
    }
    r := DatedTradeStep(trade, base, quote, time.value, rate);
  }

  /** The body of the trade pass once the trade is split and dated. */
  method DatedTradeStep(trade: Kraken.TradeEntry, base: string, quote: string, time: Calendar.Date, rate: RateLookup)
    returns (r: Result<Option<Transaction>, Abort>)
    ensures r == TradeOnDay(trade, base, quote, time, rate)
  {
    var baseFiat, quoteFiat := Kraken.IsFiat(base), Kraken.IsFiat(quote);
    if !baseFiat && quoteFiat {
      if trade.price == 0.0 {
        return Err(DivisionByZero);
      }
      var operationValue := trade.cost - trade.fee;
      var cryptoAmount := trade.vol - trade.fee / trade.price;
      var quoted := rate(time, quote);
      if quoted.None? {
        return Err(RateUnavailable(quote, time));
      }
      var brl := quoted.value.1;
      var b := TransactionBase(time, Some(AtRate(trade.fee, brl)), base, cryptoAmount);
      if trade.side == "buy" {
        r := Ok(Some(Purchase(b, AtRate(operationValue, brl), KrakenExchange)));
      } else if trade.side == "sell" {
        r := Ok(Some(Sale(b, AtRate(operationValue, brl), KrakenExchange)));
      } else {
        r := Err(UnknownTradeType(trade.side));
      }
    } else if !baseFiat {
      r := Err(CryptoCryptoTrade);
    } else if !quoteFiat {
      r := Err(FiatCryptoTrade(trade.pair));
    } else {
      r := Ok(None);
    }
  }

  /** The run succeeds exactly when no entry aborts. */
  lemma ClassificationSucceeds(
    deposits: seq<Kraken.LedgerEntry>, withdrawals: seq<Kraken.LedgerEntry>,
    trades: seq<Kraken.TradeEntry>, rate: RateLookup)
    ensures Classification(deposits, withdrawals, trades, rate).Ok? <==>
      && (forall i :: 0 <= i < |deposits| ==> DepositRecord(deposits[i]).Ok?)
      && (forall i :: 0 <= i < |withdrawals| ==> WithdrawalRecord(withdrawals[i]).Ok?)
      && (forall i :: 0 <= i < |trades| ==> TradeRecord(trades[i], rate).Ok?)
  {
    CollectAborts(deposits, DepositRecord);
    CollectAborts(withdrawals, WithdrawalRecord);
    CollectAborts(trades, TradeRecords(rate));
  }

  /** A run that succeeds lists the deposit records, the withdrawal
      records and the trade records, each group in input order: one
      transfer in per crypto deposit, then one withdrawal per crypto
      withdrawal, then purchases and sales, and never a swap. */
  lemma ClassificationLayout(
    deposits: seq<Kraken.LedgerEntry>, withdrawals: seq<Kraken.LedgerEntry>,
    trades: seq<Kraken.TradeEntry>, rate: RateLookup)
    requires Classification(deposits, withdrawals, trades, rate).Ok?
    ensures var out := Classification(deposits, withdrawals, trades, rate).value;
      var a, b := CryptoCount(deposits), CryptoCount(deposits) + CryptoCount(withdrawals);
      && out == Emits(deposits, DepositRecord) + Emits(withdrawals, WithdrawalRecord) + Emits(trades, TradeRecords(rate))
      && a <= b <= |out|
      && (forall i :: 0 <= i < a ==> out[i].TransferToExchange?)
      && (forall i :: a <= i < b ==> out[i].WithdrawalFromExchange?)
      && (forall i :: b <= i < |out| ==> out[i].Purchase? || out[i].Sale?)
  {
    ClassificationIsEmits(deposits, withdrawals, trades, rate);
    OneRecordPerCrypto(deposits, DepositRecord);
    OneRecordPerCrypto(withdrawals, WithdrawalRecord);
    DepositsEmitTransfers(deposits);
    WithdrawalsEmitWithdrawals(withdrawals);
    TradesEmitPurchasesAndSales(trades, rate);
    Segments(Emits(deposits, DepositRecord), Emits(withdrawals, WithdrawalRecord), Emits(trades, TradeRecords(rate)));
  }

  lemma ClassificationIsEmits(
    deposits: seq<Kraken.LedgerEntry>, withdrawals: seq<Kraken.LedgerEntry>,
    trades: seq<Kraken.TradeEntry>, rate: RateLookup)
    requires Classification(deposits, withdrawals, trades, rate).Ok?
    ensures forall i :: 0 <= i < |deposits| ==> DepositRecord(deposits[i]).Ok?
    ensures forall i :: 0 <= i < |withdrawals| ==> WithdrawalRecord(withdrawals[i]).Ok?
    ensures Classification(deposits, withdrawals, trades, rate).value
      == Emits(deposits, DepositRecord) + Emits(withdrawals, WithdrawalRecord) + Emits(trades, TradeRecords(rate))
  {
    ClassificationSucceeds(deposits, withdrawals, trades, rate);
    CollectEmits(deposits, DepositRecord);
    CollectEmits(withdrawals, WithdrawalRecord);
    CollectEmits(trades, TradeRecords(rate));
  }

  lemma Segments(ds: seq<Transaction>, ws: seq<Transaction>, ts: seq<Transaction>)
    requires forall t :: t in ds ==> t.TransferToExchange?
    requires forall t :: t in ws ==> t.WithdrawalFromExchange?
    requires forall t :: t in ts ==> t.Purchase? || t.Sale?
    ensures var out := ds + ws + ts;
      && (forall i :: 0 <= i < |ds| ==> out[i].TransferToExchange?)
      && (forall i :: |ds| <= i < |ds| + |ws| ==> out[i].WithdrawalFromExchange?)
      && (forall i :: |ds| + |ws| <= i < |out| ==> out[i].Purchase? || out[i].Sale?)
  {
    var out := ds + ws + ts;
    forall i | 0 <= i < |ds| ensures out[i].TransferToExchange? {
      assert out[i] == ds[i];
    }
    forall i | |ds| <= i < |ds| + |ws| ensures out[i].WithdrawalFromExchange? {
      assert out[i] == ws[i - |ds|];
    }
    forall i | |ds| + |ws| <= i < |out| ensures out[i].Purchase? || out[i].Sale? {
      assert out[i] == ts[i - |ds| - |ws|];
    }
  }

  lemma DepositsEmitTransfers(deposits: seq<Kraken.LedgerEntry>)
    ensures forall t :: t in Emits(deposits, DepositRecord) ==> t.TransferToExchange?
  {
    forall x | DepositRecord(x).Ok? && DepositRecord(x).value.Some?
      ensures DepositRecord(x).value.value.TransferToExchange?
    {
      DepositRecordMeaning(x);
    }
    EmitsAll(deposits, DepositRecord, (t: Transaction) => t.TransferToExchange?);
  }

  lemma WithdrawalsEmitWithdrawals(withdrawals: seq<Kraken.LedgerEntry>)
    ensures forall t :: t in Emits(withdrawals, WithdrawalRecord) ==> t.WithdrawalFromExchange?
  {
    forall x | WithdrawalRecord(x).Ok? && WithdrawalRecord(x).value.Some?
      ensures WithdrawalRecord(x).value.value.WithdrawalFromExchange?
    {
      WithdrawalRecordMeaning(x);
    }
    EmitsAll(withdrawals, WithdrawalRecord, (t: Transaction) => t.WithdrawalFromExchange?);
  }

  lemma TradesEmitPurchasesAndSales(trades: seq<Kraken.TradeEntry>, rate: RateLookup)
    ensures forall t :: t in Emits(trades, TradeRecords(rate)) ==> t.Purchase? || t.Sale?
  {
    forall x | TradeRecords(rate)(x).Ok? && TradeRecords(rate)(x).value.Some?
      ensures TradeRecords(rate)(x).value.value.Purchase? || TradeRecords(rate)(x).value.value.Sale?
    {
      TradeRecordMeaning(x, rate);
    }
    EmitsAll(trades, TradeRecords(rate), (t: Transaction) => t.Purchase? || t.Sale?);
  }
}
