/** The declaration records: seven variants, each tied to one record code
    and roman-numeral category, each written as one row with a fixed field
    layout. */
module Transactions {
  import opened Wrappers
  import Calendar
  import opened Encoding

  /** Fields shared by most records. The fee is already in the reporting
      currency. */
  datatype TransactionBase = TransactionBase(
    operationDate: Calendar.Date,
    operationFees: Option<real>,
    cryptoSymbol: string,
    cryptoAmount: real)

  /** The venue a record discloses. */
  datatype ExchangeInfo = ExchangeInfo(name: string, url: string, country: string)

  datatype Transaction =
    | Purchase(base: TransactionBase, operationValue: real, buyerExchange: ExchangeInfo)
    | Sale(base: TransactionBase, operationValue: real, sellerExchange: ExchangeInfo)
    | Swap(
        operationDate: Calendar.Date,
        operationFees: Option<real>,
        receivedCryptoSymbol: string,
        receivedCryptoAmount: real,
        givenCryptoSymbol: string,
        givenCryptoAmount: real,
        exchange: ExchangeInfo)
    | TransferToExchange(base: TransactionBase, originWallet: Option<string>, originExchangeName: Option<string>)
    | WithdrawalFromExchange(base: TransactionBase, originExchange: ExchangeInfo)
    | CryptoPaymentReceiver(base: TransactionBase, receiverExchange: ExchangeInfo)
    | CryptoPaymentSender(base: TransactionBase, senderExchange: ExchangeInfo)

  /** The (record code, category) pair of each variant. */
  function RecordType(t: Transaction): (string, string) {
    match t
    case Purchase(_, _, _) => ("0110", "I")
    case Sale(_, _, _) => ("0120", "I")
    case Swap(_, _, _, _, _, _, _) => ("0210", "II")
    case TransferToExchange(_, _, _) => ("0410", "IV")
    case WithdrawalFromExchange(_, _) => ("0510", "V")
    case CryptoPaymentReceiver(_, _) => ("0710", "VII")
    case CryptoPaymentSender(_, _) => ("0720", "VII")
  }

  /** The roman numeral of a digit 1..9, as the categories are written. */
  function Roman(k: int): string
    requires 1 <= k <= 9
  {
    ["I", "II", "III", "IV", "V", "VI", "VII", "VIII", "IX"][k - 1]
  }

  /** Position of each variant in the declaration of the type. */
  function VariantIndex(t: Transaction): nat {
    match t
    case Purchase(_, _, _) => 0
    case Sale(_, _, _) => 1
    case Swap(_, _, _, _, _, _, _) => 2
    case TransferToExchange(_, _, _) => 3
    case WithdrawalFromExchange(_, _) => 4
    case CryptoPaymentReceiver(_, _) => 5
    case CryptoPaymentSender(_, _) => 6
  }

  /** Every record code is four digits opening with '0', and the category
      is the roman numeral of the code's second digit. */
  lemma RecordCodeShape(t: Transaction)
    ensures var (code, category) := RecordType(t);
      && |code| == 4 && AllDigits(code) && code[0] == '0'
      && category == Roman(code[1] as int - '0' as int)
  {
  }

  /** Codes grow with the variant order, so different variants never share
      a code. */
  lemma RecordCodesOrdered(t: Transaction, u: Transaction)
    requires VariantIndex(t) < VariantIndex(u)
    ensures DigitsValue(RecordType(t).0) < DigitsValue(RecordType(u).0)
    ensures RecordType(t).0 != RecordType(u).0
  {
    CodeValue(t);
    CodeValue(u);
  }

  /** The numeric value of each variant's record code. */
  lemma CodeValue(t: Transaction)
    ensures DigitsValue(RecordType(t).0) == [110, 120, 210, 410, 510, 710, 720][VariantIndex(t)]
  {
    RecordCodeShape(t);
    FourDigitValue(RecordType(t).0);
  }

  lemma FourDigitValue(s: string)
    requires |s| == 4 && AllDigits(s)
    ensures DigitsValue(s) == 1000 * (s[0] as int - '0' as int) + 100 * (s[1] as int - '0' as int)
                              + 10 * (s[2] as int - '0' as int) + (s[3] as int - '0' as int)
  {
    var s3, s2, s1 := s[..3], s[..2], s[..1];
    assert s3[..2] == s2 && s2[..1] == s1 && s1[..0] == [];
    assert DigitsValue(s1) == s[0] as int - '0' as int;
    assert DigitsValue(s2) == DigitsValue(s1) * 10 + (s[1] as int - '0' as int);
    assert DigitsValue(s3) == DigitsValue(s2) * 10 + (s[2] as int - '0' as int);
  }

  /** The date a record is declared under. */
  function OperationDate(t: Transaction): Calendar.Date {
    if t.Swap? then t.operationDate else t.base.operationDate
  }

  /** An absent fee is an empty field; a present one has two places. */
  function FeeField(fees: Option<real>): (f: Field)
    ensures fees.None? ==> f == Empty
    ensures fees.Some? ==> f == DecimalNumber(fees.value, 2)
  {
    match fees
    case None => Empty
    case Some(v) => DecimalNumber(v, 2)
  }

  /** `ExchangeInfo::fields`: name, URL, country. */
  function ExchangeFields(e: ExchangeInfo): seq<Field> {
    [AlphaNumber(e.name), AlphaNumber(e.url), AlphaNumber(e.country)]
  }

  /** `TransactionBase::common_fields`: date, category, fee, symbol, amount
      at ten places. */
  function CommonFields(b: TransactionBase, category: string): seq<Field> {
    [Date(b.operationDate), AlphaNumber(category), FeeField(b.operationFees),
     AlphaNumber(b.cryptoSymbol), DecimalNumber(b.cryptoAmount, 10)]
  }

  function OptionalText(o: Option<string>): Field {
    match o
    case None => Empty
    case Some(s) => AlphaNumber(s)
  }

  /** The ordered field list `write_transaction` builds for a record. */
  function TransactionFields(t: Transaction): seq<Field> {
    var (code, category) := RecordType(t);
    match t
    case Purchase(b, value, exchange) =>
      [AlphaNumber(code), Date(b.operationDate), AlphaNumber(category), DecimalNumber(value, 2),
       FeeField(b.operationFees), AlphaNumber(b.cryptoSymbol), DecimalNumber(b.cryptoAmount, 10)]
      + ExchangeFields(exchange)
    case Sale(b, value, exchange) =>
      [AlphaNumber(code), Date(b.operationDate), AlphaNumber(category), DecimalNumber(value, 2),
       FeeField(b.operationFees), AlphaNumber(b.cryptoSymbol), DecimalNumber(b.cryptoAmount, 12)]
      + ExchangeFields(exchange)
    case Swap(date, fees, rSym, rAmt, gSym, gAmt, exchange) =>
      [AlphaNumber(code), Date(date), AlphaNumber(category), FeeField(fees),
       AlphaNumber(rSym), DecimalNumber(rAmt, 10), AlphaNumber(gSym), DecimalNumber(gAmt, 10)]
      + ExchangeFields(exchange)
    case TransferToExchange(b, wallet, origin) =>
      [AlphaNumber(code)] + CommonFields(b, category) + [OptionalText(wallet), OptionalText(origin)]
    case WithdrawalFromExchange(b, exchange) =>
      [AlphaNumber(code)] + CommonFields(b, category) + ExchangeFields(exchange)
    case CryptoPaymentReceiver(b, exchange) =>
      [AlphaNumber(code)] + CommonFields(b, category) + ExchangeFields(exchange)
    case CryptoPaymentSender(b, exchange) =>
      [AlphaNumber(code)] + CommonFields(b, category) + ExchangeFields(exchange)
  }

  /** `write_transaction`: the one row a record contributes to the file. */
  function WriteTransaction(t: Transaction): (row: string)
    ensures |row| >= 2 && row[|row| - 2..] == LineEnd
  {
    RegisterRow(TransactionFields(t))
  }

  /** The number of fields each variant's row has. */
  function FieldCount(t: Transaction): nat {
    match t
    case Purchase(_, _, _) => 10
    case Sale(_, _, _) => 10
    case Swap(_, _, _, _, _, _, _) => 11
    case TransferToExchange(_, _, _) => 8
    case WithdrawalFromExchange(_, _) => 9
    case CryptoPaymentReceiver(_, _) => 9
    case CryptoPaymentSender(_, _) => 9
  }

  /** Every row opens with code, date and category, in that order, and has
      the variant's fixed number of fields. */
  lemma RowPrefixAndWidth(t: Transaction)
    ensures |TransactionFields(t)| == FieldCount(t)
    ensures TransactionFields(t)[..3]
      == [AlphaNumber(RecordType(t).0), Date(OperationDate(t)), AlphaNumber(RecordType(t).1)]
  {
  }

  /** The free-text parts of a record (symbols, venue, wallet), which the
      row writer emits without checking for the delimiter. */
  function Texts(t: Transaction): seq<string> {
    match t
    case Purchase(b, _, e) => [b.cryptoSymbol, e.name, e.url, e.country]
    case Sale(b, _, e) => [b.cryptoSymbol, e.name, e.url, e.country]
    case Swap(_, _, r, _, g, _, e) => [r, g, e.name, e.url, e.country]
    case TransferToExchange(b, w, o) =>
      [b.cryptoSymbol] + (if w.Some? then [w.value] else []) + (if o.Some? then [o.value] else [])
    case WithdrawalFromExchange(b, e) => [b.cryptoSymbol, e.name, e.url, e.country]
    case CryptoPaymentReceiver(b, e) => [b.cryptoSymbol, e.name, e.url, e.country]
    case CryptoPaymentSender(b, e) => [b.cryptoSymbol, e.name, e.url, e.country]
  }

  function FeeText(fees: Option<real>): string {
    Render(FeeField(fees))
  }

  function OptionalTextOf(o: Option<string>): string {
    if o.Some? then o.value else ""
  }

  lemma TextFieldsOfRecord(t: Transaction, i: nat)
    requires i < |TransactionFields(t)| && TransactionFields(t)[i].AlphaNumber?
    ensures TransactionFields(t)[i].text in Texts(t) + [RecordType(t).0, RecordType(t).1]
  {
  }

  /** The columns of a record's row, as the declaration layout lists them:
      code, date, category, then the variant's own columns, with an absent
      fee or origin as an empty column. */
  function Columns(t: Transaction): seq<string> {
    var (code, category) := RecordType(t);
    var date := RenderDate(OperationDate(t));
    match t
    case Purchase(b, value, e) =>
      [code, date, category, RenderDecimal(value, 2), FeeText(b.operationFees),
       b.cryptoSymbol, RenderDecimal(b.cryptoAmount, 10), e.name, e.url, e.country]
    case Sale(b, value, e) =>
      [code, date, category, RenderDecimal(value, 2), FeeText(b.operationFees),
       b.cryptoSymbol, RenderDecimal(b.cryptoAmount, 12), e.name, e.url, e.country]
    case Swap(_, fees, rSym, rAmt, gSym, gAmt, e) =>
      [code, date, category, FeeText(fees), rSym, RenderDecimal(rAmt, 10),
       gSym, RenderDecimal(gAmt, 10), e.name, e.url, e.country]
    case TransferToExchange(b, w, o) =>
      [code, date, category, FeeText(b.operationFees), b.cryptoSymbol, RenderDecimal(b.cryptoAmount, 10),
       OptionalTextOf(w), OptionalTextOf(o)]
    case WithdrawalFromExchange(b, e) =>
      [code, date, category, FeeText(b.operationFees), b.cryptoSymbol, RenderDecimal(b.cryptoAmount, 10),
       e.name, e.url, e.country]
    case CryptoPaymentReceiver(b, e) =>
      [code, date, category, FeeText(b.operationFees), b.cryptoSymbol, RenderDecimal(b.cryptoAmount, 10),
       e.name, e.url, e.country]
    case CryptoPaymentSender(b, e) =>
      [code, date, category, FeeText(b.operationFees), b.cryptoSymbol, RenderDecimal(b.cryptoAmount, 10),
       e.name, e.url, e.country]
  }

  /** The rendered fields of a record are its layout's columns. */
  lemma RenderedFields(t: Transaction)
    ensures Rendered(TransactionFields(t)) == Columns(t)
  {
    var (code, category) := RecordType(t);
    var date := OperationDate(t);
    var fields := TransactionFields(t);
    match t
    case Purchase(b, v, e) =>
      assert fields == [AlphaNumber(code), Date(date), AlphaNumber(category), DecimalNumber(v, 2),
        FeeField(b.operationFees), AlphaNumber(b.cryptoSymbol), DecimalNumber(b.cryptoAmount, 10),
        AlphaNumber(e.name), AlphaNumber(e.url), AlphaNumber(e.country)];
      RenderedTradeShape(code, date, category, v, 2, b.operationFees, b.cryptoSymbol, b.cryptoAmount, 10, e);
    case Sale(b, v, e) =>
      assert fields == [AlphaNumber(code), Date(date), AlphaNumber(category), DecimalNumber(v, 2),
        FeeField(b.operationFees), AlphaNumber(b.cryptoSymbol), DecimalNumber(b.cryptoAmount, 12),
        AlphaNumber(e.name), AlphaNumber(e.url), AlphaNumber(e.country)];
      RenderedTradeShape(code, date, category, v, 2, b.operationFees, b.cryptoSymbol, b.cryptoAmount, 12, e);
    case Swap(_, f, rs, ra, gs, ga, e) =>
      assert fields == [AlphaNumber(code), Date(date), AlphaNumber(category), FeeField(f),
        AlphaNumber(rs), DecimalNumber(ra, 10), AlphaNumber(gs), DecimalNumber(ga, 10),
        AlphaNumber(e.name), AlphaNumber(e.url), AlphaNumber(e.country)];
      RenderedSwapShape(code, date, category, f, rs, ra, gs, ga, e);
    case TransferToExchange(b, w, o) =>
      assert fields == [AlphaNumber(code), Date(date), AlphaNumber(category), FeeField(b.operationFees),
        AlphaNumber(b.cryptoSymbol), DecimalNumber(b.cryptoAmount, 10), OptionalText(w), OptionalText(o)];
      RenderedTransferShape(code, date, category, b.operationFees, b.cryptoSymbol, b.cryptoAmount, w, o);
    case WithdrawalFromExchange(b, e) =>
      assert fields == [AlphaNumber(code), Date(date), AlphaNumber(category), FeeField(b.operationFees),
        AlphaNumber(b.cryptoSymbol), DecimalNumber(b.cryptoAmount, 10),
        AlphaNumber(e.name), AlphaNumber(e.url), AlphaNumber(e.country)];
      RenderedVenueShape(code, date, category, b.operationFees, b.cryptoSymbol, b.cryptoAmount, e);
    case CryptoPaymentReceiver(b, e) =>
      assert fields == [AlphaNumber(code), Date(date), AlphaNumber(category), FeeField(b.operationFees),
        AlphaNumber(b.cryptoSymbol), DecimalNumber(b.cryptoAmount, 10),
        AlphaNumber(e.name), AlphaNumber(e.url), AlphaNumber(e.country)];
      RenderedVenueShape(code, date, category, b.operationFees, b.cryptoSymbol, b.cryptoAmount, e);
    case CryptoPaymentSender(b, e) =>
      assert fields == [AlphaNumber(code), Date(date), AlphaNumber(category), FeeField(b.operationFees),
        AlphaNumber(b.cryptoSymbol), DecimalNumber(b.cryptoAmount, 10),
        AlphaNumber(e.name), AlphaNumber(e.url), AlphaNumber(e.country)];
      RenderedVenueShape(code, date, category, b.operationFees, b.cryptoSymbol, b.cryptoAmount, e);
  }

  // The rendering of each row shape, for any contents.

  /** A purchase or sale row: value to p places, amount to q places. */
  lemma RenderedTradeShape(code: string, d: Calendar.Date, category: string, v: real, p: nat,
                           fees: Option<real>, symbol: string, amount: real, q: nat, e: ExchangeInfo)
    ensures Rendered([AlphaNumber(code), Date(d), AlphaNumber(category), DecimalNumber(v, p), FeeField(fees),
                      AlphaNumber(symbol), DecimalNumber(amount, q), AlphaNumber(e.name), AlphaNumber(e.url), AlphaNumber(e.country)])
         == [code, RenderDate(d), category, RenderDecimal(v, p), FeeText(fees),
             symbol, RenderDecimal(amount, q), e.name, e.url, e.country]
  {
    MapTen(Render, AlphaNumber(code), Date(d), AlphaNumber(category), DecimalNumber(v, p), FeeField(fees), AlphaNumber(symbol), DecimalNumber(amount, q), AlphaNumber(e.name), AlphaNumber(e.url), AlphaNumber(e.country));
  }

  /** A swap row: received then given currency. */
  lemma RenderedSwapShape(code: string, d: Calendar.Date, category: string, fees: Option<real>,
                          rs: string, ra: real, gs: string, ga: real, e: ExchangeInfo)
    ensures Rendered([AlphaNumber(code), Date(d), AlphaNumber(category), FeeField(fees),
                      AlphaNumber(rs), DecimalNumber(ra, 10), AlphaNumber(gs), DecimalNumber(ga, 10),
                      AlphaNumber(e.name), AlphaNumber(e.url), AlphaNumber(e.country)])
         == [code, RenderDate(d), category, FeeText(fees), rs, RenderDecimal(ra, 10),
             gs, RenderDecimal(ga, 10), e.name, e.url, e.country]
  {
    MapEleven(Render, AlphaNumber(code), Date(d), AlphaNumber(category), FeeField(fees), AlphaNumber(rs), DecimalNumber(ra, 10), AlphaNumber(gs), DecimalNumber(ga, 10), AlphaNumber(e.name), AlphaNumber(e.url), AlphaNumber(e.country));
  }

  /** A transfer row: empty columns for an absent wallet or exchange name. */
  lemma RenderedTransferShape(code: string, d: Calendar.Date, category: string, fees: Option<real>,
                              symbol: string, amount: real, w: Option<string>, o: Option<string>)
    ensures Rendered([AlphaNumber(code), Date(d), AlphaNumber(category), FeeField(fees),
                      AlphaNumber(symbol), DecimalNumber(amount, 10), OptionalText(w), OptionalText(o)])
         == [code, RenderDate(d), category, FeeText(fees), symbol, RenderDecimal(amount, 10),
             OptionalTextOf(w), OptionalTextOf(o)]
  {
    MapEight(Render, AlphaNumber(code), Date(d), AlphaNumber(category), FeeField(fees), AlphaNumber(symbol), DecimalNumber(amount, 10), OptionalText(w), OptionalText(o));
  }

  /** A row of common fields followed by an exchange. */
  lemma RenderedVenueShape(code: string, d: Calendar.Date, category: string, fees: Option<real>,
                           symbol: string, amount: real, e: ExchangeInfo)
    ensures Rendered([AlphaNumber(code), Date(d), AlphaNumber(category), FeeField(fees),
                      AlphaNumber(symbol), DecimalNumber(amount, 10),
                      AlphaNumber(e.name), AlphaNumber(e.url), AlphaNumber(e.country)])
         == [code, RenderDate(d), category, FeeText(fees), symbol, RenderDecimal(amount, 10),
             e.name, e.url, e.country]
  {
    MapNine(Render, AlphaNumber(code), Date(d), AlphaNumber(category), FeeField(fees), AlphaNumber(symbol), DecimalNumber(amount, 10), AlphaNumber(e.name), AlphaNumber(e.url), AlphaNumber(e.country));
  }

  /** With delimiter-free texts, the written row reads back, column by
      column, as the layout of its variant (`Columns`). */
  lemma RowColumns(t: Transaction)
    requires NoDelimiters(Texts(t))
    ensures Split(Line(WriteTransaction(t))) == Columns(t)
    ensures Count(Line(WriteTransaction(t)), Delimiter) == FieldCount(t) - 1
  {
    var fields := TransactionFields(t);
    forall i | 0 <= i < |fields| && fields[i].AlphaNumber?
      ensures Delimiter !in fields[i].text
    {
      TextFieldsOfRecord(t, i);
    }
    RowPrefixAndWidth(t);
    RowFraming(fields);
    RenderedFields(t);
  }

  /** The row writer does not re-check text it is handed: a symbol holding
      the delimiter yields a row with one column too many. */
  lemma UncheckedSymbolBreaksFraming(b: TransactionBase, e: ExchangeInfo, x: string, y: string)
    requires b.cryptoSymbol == x + [Delimiter] + y
    requires NoDelimiters([x, y, e.name, e.url, e.country])
    ensures var t := WithdrawalFromExchange(b, e);
      |Split(Line(WriteTransaction(t)))| == FieldCount(t) + 1
  {
    var t := WithdrawalFromExchange(b, e);
    var fields := TransactionFields(t);
    var parts := Rendered(fields);
    RowPrefixAndWidth(t);
    var pieces := parts[..4] + [x, y] + parts[5..];
    assert fields[4] == AlphaNumber(b.cryptoSymbol);
    assert fields[6..] == [AlphaNumber(e.name), AlphaNumber(e.url), AlphaNumber(e.country)];
    var texts := [x, y, e.name, e.url, e.country];
    assert Delimiter !in texts[0] && Delimiter !in texts[1] && Delimiter !in texts[2]
      && Delimiter !in texts[3] && Delimiter !in texts[4];
    forall i | 0 <= i < |pieces| ensures Delimiter !in pieces[i] {
      if i < 4 { RenderedDelimiterComesFromText(fields[i]); }
      else if i >= 6 { RenderedDelimiterComesFromText(fields[i - 1]); }
    }
    assert Join(parts) == Join(pieces) by {
      JoinSplicesPart(parts[..4], x, y, parts[5..]);
      assert parts == parts[..4] + [x + [Delimiter] + y] + parts[5..];
    }
    SplitJoin(pieces);
  }
}
