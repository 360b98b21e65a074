/**
 * What `get_fmp_json` (app.py lines 13-25) makes of one answer of the
 * financial-statement API. The request itself is not modelled: its outcome is
 * the input.
 */
module FmpResponse {
  import opened Wrappers

  /** What Python's `float(value)` makes of one field of a statement: a number,
      or an exception (a string that is not a number, `null`, a list, ...). */
  datatype FieldValue = Num(x: real) | NotNumeric

  /** One statement: field name to value. */
  type Record = map<string, FieldValue>

  /** One element of the JSON array the API answers with. Every element that
      is not an object (a number, a string, a list, `null`) is `NonObject`. */
  datatype JsonValue = Object(fields: Record) | NonObject

  /** What `res.json()` yields: an array, some other JSON value, or an
      exception because the body is not JSON. */
  datatype Body = JsonArray(items: seq<JsonValue>) | JsonNonArray | Malformed

  /** The outcome of `requests.get`: a response, or an exception. */
  datatype Response = Response(status: int, body: Body) | RequestFailed

  /** `get_fmp_json`: the first element of the array when the status is 200
      and the body is a non-empty array; `None` in every other case, the
      caught exceptions included. */
  function SelectRecord(resp: Response): (r: Option<JsonValue>)
    ensures r.Some? <==>
              resp.Response? && resp.status == 200 && resp.body.JsonArray? && |resp.body.items| > 0
    ensures r.Some? ==> r.value == resp.body.items[0] && r.value in resp.body.items
  {
    match resp
    case RequestFailed => None
    case Response(status, body) =>
      if status != 200 then None
      else match body
        case JsonArray(items) => if |items| > 0 then Some(items[0]) else None
        case _ => None
  }

  /** Only the first element matters: appending further elements to a
      non-empty array selects the same record. */
  lemma SelectRecordFirstOnly(status: int, items: seq<JsonValue>, more: seq<JsonValue>)
    requires |items| > 0
    ensures SelectRecord(Response(status, JsonArray(items + more))) ==
            SelectRecord(Response(status, JsonArray(items)))
  {
    assert (items + more)[0] == items[0];
  }
}

/**
 * The three ratios of the dashboard, `get_debt_to_equity`,
 * `get_current_ratio` and `get_roe` (app.py lines 28-71), as functions of what
 * `get_fmp_json` returned for each statement.
 */
module Ratios {
  import opened Wrappers
  import opened FmpResponse

  /** A cell of the result table: the string "N/A" or a percentage. */
  datatype Ratio = NA | Percent(value: real)

  const TotalLiabilities := "totalLiabilities"
  const TotalStockholdersEquity := "totalStockholdersEquity"
  const TotalCurrentAssets := "totalCurrentAssets"
  const TotalCurrentLiabilities := "totalCurrentLiabilities"
  const NetIncome := "netIncome"

  /** `data` passes the guard `if not data`: it is a non-empty object. An empty
      object and `None` fail it; any other element either fails it or makes the
      later `data.get` raise, which the `except` turns into "N/A" as well. */
  predicate Present(data: Option<JsonValue>) {
    data.Some? && data.value.Object? && data.value.fields != map[]
  }

  /** `float(data.get(key, 0))`: a missing field reads as the number 0. */
  function Field(m: Record, key: string): (v: FieldValue)
    ensures key in m ==> v == m[key]
    ensures key !in m ==> v == Num(0.0)
  {
    if key in m then m[key] else Num(0.0)
  }

  /** The field is there, converts to a number, and that number is not zero:
      it can serve as a denominator. */
  predicate Divisor(m: Record, key: string) {
    key in m && m[key].Num? && m[key].x != 0.0
  }

  /** The field converts to a number, or is missing and defaults to 0. */
  predicate Operand(m: Record, key: string) {
    key !in m || m[key].Num?
  }

  /** The number a numeric or missing field stands for. */
  function Amount(m: Record, key: string): real {
    if key in m && m[key].Num? then m[key].x else 0.0
  }

  /** `round((num / den) * 100, 2)` inside the `try`, guarded by `den != 0`:
      a percentage exactly when both convert and the denominator is not zero,
      and then the percentage times the denominator is 100 times the
      numerator. */
  function PercentOf(num: FieldValue, den: FieldValue): (r: Ratio)
    ensures r.Percent? <==> num.Num? && den.Num? && den.x != 0.0
    ensures r.Percent? ==> r.value * den.x == 100.0 * num.x
  {
    if num.Num? && den.Num? && den.x != 0.0 then Percent(num.x / den.x * 100.0) else NA
  }

  /** Debt-to-equity: total liabilities over stockholders' equity, in percent. */
  function DebtToEquity(balance: Option<JsonValue>): (r: Ratio)
    ensures !Present(balance) ==> r == NA
    ensures Present(balance) ==>
              var m := balance.value.fields;
              && (r.Percent? <==> Divisor(m, TotalStockholdersEquity) && Operand(m, TotalLiabilities))
              && (r.Percent? ==> r.value * Amount(m, TotalStockholdersEquity) == 100.0 * Amount(m, TotalLiabilities))
  {
    if !Present(balance) then NA
    else
      var m := balance.value.fields;
      PercentOf(Field(m, TotalLiabilities), Field(m, TotalStockholdersEquity))
  }

  /** Current ratio: current assets over current liabilities, in percent. */
  function CurrentRatio(balance: Option<JsonValue>): (r: Ratio)
    ensures !Present(balance) ==> r == NA
    ensures Present(balance) ==>
              var m := balance.value.fields;
              && (r.Percent? <==> Divisor(m, TotalCurrentLiabilities) && Operand(m, TotalCurrentAssets))
              && (r.Percent? ==> r.value * Amount(m, TotalCurrentLiabilities) == 100.0 * Amount(m, TotalCurrentAssets))
  {
    if !Present(balance) then NA
    else
      var m := balance.value.fields;
      PercentOf(Field(m, TotalCurrentAssets), Field(m, TotalCurrentLiabilities))
  }

  /** Return on equity: net income (income statement) over stockholders'
      equity (balance sheet), in percent. */
  function ReturnOnEquity(income: Option<JsonValue>, balance: Option<JsonValue>): (r: Ratio)
    ensures !Present(income) || !Present(balance) ==> r == NA
    ensures Present(income) && Present(balance) ==>
              var mi, mb := income.value.fields, balance.value.fields;
              && (r.Percent? <==> Divisor(mb, TotalStockholdersEquity) && Operand(mi, NetIncome))
              && (r.Percent? ==> r.value * Amount(mb, TotalStockholdersEquity) == 100.0 * Amount(mi, NetIncome))
  {
    if !Present(income) || !Present(balance) then NA
    else
      var mi, mb := income.value.fields, balance.value.fields;
      PercentOf(Field(mi, NetIncome), Field(mb, TotalStockholdersEquity))
  }

  /** Whenever a ratio is a number, the equation behind it has exactly one
      solution: the percentage is determined by the two fields. */
  lemma PercentUnique(v: real, w: real, den: real, num: real)
    requires den != 0.0
    requires v * den == 100.0 * num && w * den == 100.0 * num
    ensures v == w
  {
    assert (v - w) * den == 0.0;
  }

  /** Multiplying by a positive number keeps the order. */
  lemma ScaleMonotone(x: real, y: real, k: real)
    requires k > 0.0
    ensures x <= y <==> x * k <= y * k
  {
    if x <= y {
      assert y * k - x * k == (y - x) * k;
    } else {
      assert x * k - y * k == (x - y) * k;
    }
  }

  /** A missing numerator field counts as 0: with a usable denominator the
      ratio is 0 percent, not "N/A". */
  lemma MissingNumeratorIsZero(income: Record, balance: Record)
    requires income != map[] && balance != map[]
    ensures Divisor(balance, TotalStockholdersEquity) && TotalLiabilities !in balance ==>
              DebtToEquity(Some(Object(balance))) == Percent(0.0)
    ensures Divisor(balance, TotalCurrentLiabilities) && TotalCurrentAssets !in balance ==>
              CurrentRatio(Some(Object(balance))) == Percent(0.0)
    ensures Divisor(balance, TotalStockholdersEquity) && NetIncome !in income ==>
              ReturnOnEquity(Some(Object(income)), Some(Object(balance))) == Percent(0.0)
  {
    var e := Amount(balance, TotalStockholdersEquity);
    var l := Amount(balance, TotalCurrentLiabilities);
    if Divisor(balance, TotalStockholdersEquity) && TotalLiabilities !in balance {
      PercentUnique(DebtToEquity(Some(Object(balance))).value, 0.0, e, 0.0);
    }
    if Divisor(balance, TotalCurrentLiabilities) && TotalCurrentAssets !in balance {
      PercentUnique(CurrentRatio(Some(Object(balance))).value, 0.0, l, 0.0);
    }
    if Divisor(balance, TotalStockholdersEquity) && NetIncome !in income {
      PercentUnique(ReturnOnEquity(Some(Object(income)), Some(Object(balance))).value, 0.0, e, 0.0);
    }
  }

  /** With positive equity, ROE has the sign of net income. */
  lemma ReturnOnEquitySign(income: Option<JsonValue>, balance: Option<JsonValue>)
    requires ReturnOnEquity(income, balance).Percent?
    requires Amount(balance.value.fields, TotalStockholdersEquity) > 0.0
    ensures var v, n := ReturnOnEquity(income, balance).value, Amount(income.value.fields, NetIncome);
            (v > 0.0 <==> n > 0.0) && (v < 0.0 <==> n < 0.0) && (v == 0.0 <==> n == 0.0)
  {
    var v, n := ReturnOnEquity(income, balance).value, Amount(income.value.fields, NetIncome);
    var e := Amount(balance.value.fields, TotalStockholdersEquity);
    assert v * e == 100.0 * n;
    if v > 0.0 { assert v * e > 0.0; }
    if v < 0.0 { assert v * e < 0.0; }
  }

  /** With positive current liabilities, the current ratio is at least 100
      percent exactly when current assets cover current liabilities. */
  lemma CurrentRatioCoverage(balance: Option<JsonValue>)
    requires CurrentRatio(balance).Percent?
    requires Amount(balance.value.fields, TotalCurrentLiabilities) > 0.0
    ensures CurrentRatio(balance).value >= 100.0 <==>
            Amount(balance.value.fields, TotalCurrentAssets) >= Amount(balance.value.fields, TotalCurrentLiabilities)
  {
    var v := CurrentRatio(balance).value;
    var a := Amount(balance.value.fields, TotalCurrentAssets);
    var l := Amount(balance.value.fields, TotalCurrentLiabilities);
    assert v * l == 100.0 * a;
    ScaleMonotone(100.0, v, l);
  }

  /** Debt-to-equity reads only `totalLiabilities` and
      `totalStockholdersEquity`: two non-empty balance sheets that agree on
      those fields give the same ratio, whatever else (a `totalDebt` field, for
      one) they hold. */
  lemma DebtToEquityReadsTwoFields(m1: Record, m2: Record)
    requires m1 != map[] && m2 != map[]
    requires Field(m1, TotalLiabilities) == Field(m2, TotalLiabilities)
    requires Field(m1, TotalStockholdersEquity) == Field(m2, TotalStockholdersEquity)
    ensures DebtToEquity(Some(Object(m1))) == DebtToEquity(Some(Object(m2)))
  {
  }

  /** A fetch that selects no record (an error status, an empty or non-array
      body, a failed request) leaves every ratio "N/A". */
  lemma UnselectedGivesNA(balanceResp: Response, incomeResp: Response)
    ensures SelectRecord(balanceResp).None? ==>
              DebtToEquity(SelectRecord(balanceResp)) == NA &&
              CurrentRatio(SelectRecord(balanceResp)) == NA &&
              ReturnOnEquity(SelectRecord(incomeResp), SelectRecord(balanceResp)) == NA
    ensures SelectRecord(incomeResp).None? ==>
              ReturnOnEquity(SelectRecord(incomeResp), SelectRecord(balanceResp)) == NA
  {
  }
}
