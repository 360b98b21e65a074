# FMP financial-ratio dashboard: a Dafny model of its decision logic

`app.py` is a single-page Streamlit dashboard. You paste a list of stock
tickers, and for each ticker it fetches the latest balance sheet and income
statement from the Financial Modeling Prep (FMP) API. It then shows three
percentages: debt-to-equity, current ratio and return on equity (ROE). This
project models the deterministic logic inside the dashboard and proves
properties of it:

- **Ticker parsing** (module `Tickers`). This is the comprehension that turns
  the text area into a list of tickers. Newlines become commas, the text is
  split on commas, and each piece is stripped and upper-cased. Blank pieces
  are dropped. The Python string operations `replace`, `split(",")`,
  `strip()` and `upper()` are modelled on ASCII text. `Join` (Python's
  `",".join`) is not called by the dashboard; it is used to state that
  re-parsing the output is idempotent.
- **Button guard** (module `Dashboard`). Pressing the button gives one of
  three outcomes: an error for a missing API key, a warning for an empty
  ticker list, or analysis of the parsed tickers.
- **Response selection** (module `FmpResponse`). `get_fmp_json` yields the
  first element of the JSON array when the status is 200 and the array is
  non-empty. In every other case it yields `None`, including a failed request
  and a body that is not JSON. The outcome of the HTTP request is an input of
  the model.
- **Ratios** (module `Ratios`). These are `get_debt_to_equity`,
  `get_current_ratio` and `get_roe`, written as functions of what
  `get_fmp_json` returned. Python's `float(field)` becomes the value
  `FieldValue = Num(real) | NotNumeric`. The result is `NA` (the string "N/A")
  or `Percent(value)`, computed in exact real arithmetic.

Debt-to-equity divides `totalLiabilities`, not a total-debt field, by
`totalStockholdersEquity`; each ratio reads one record per statement.

## Model

| member | source | states |
|---|---|---|
| Tickers.UpperChar | app.py:84 | `upper()` on one character: the result is never a lower-case ASCII letter, a lower-case letter maps to its capital, and every other character is unchanged |
| Tickers.Upper | app.py:84 | each character is upper-cased as UpperChar does; the length is unchanged |
| Tickers.ReplaceNewlines | app.py:84 | every newline becomes a comma; every other character and the length are unchanged |
| Tickers.Split | app.py:84 | `split(sep)` always returns at least one piece; the empty text gives exactly one empty piece |
| Tickers.JoinSplit | app.py:84 | joining the pieces of `split` with the separator gives back the original text |
| Tickers.SplitJoin | app.py:84 | splitting the join of one or more pieces that contain no separator gives back the same pieces |
| Tickers.SplitAppend | app.py:84 | a separator between two texts splits them into the pieces of the left text followed by the pieces of the right text |
| Tickers.SplitWithoutSeparator | app.py:84 | text that contains no separator splits into a single piece, itself |
| Tickers.SplitPieces | app.py:84 | no piece contains the separator or any character that is absent from the text |
| Tickers.Strip | app.py:84 | `strip()` returns the empty string exactly when the piece is all whitespace; otherwise the result starts and ends with a non-whitespace character; text that already has no surrounding whitespace is returned unchanged |
| Tickers.StripSlice | app.py:84 | what `strip()` keeps is the slice of the piece that starts after its leading whitespace and, for a piece that is not blank, ends before its trailing whitespace |
| Tickers.StripCutsOnlySpace | app.py:84 | everything `strip()` cuts off, at the left end and at the right end, is whitespace |
| Tickers.Normalised | app.py:84 | a non-blank piece with no comma or newline, once stripped and upper-cased, is a well-formed ticker |
| Tickers.ParseTickers | app.py:84 | every returned ticker is non-empty, has no surrounding whitespace, contains no `,` and no newline, and has no lower-case ASCII letter |
| Tickers.ParseTickersAppend | app.py:84 | a comma or a newline between two texts yields the left text's tickers followed by the right text's tickers, so input order is kept |
| Tickers.ParseTickersPiece | app.py:84 | a single piece yields nothing if it is blank, and otherwise exactly one ticker: the piece stripped and upper-cased |
| Tickers.ParseTickersOne | app.py:84 | a well-formed ticker parses to itself |
| Tickers.ParseTickersJoin | app.py:84 | parsing the comma-join of well-formed tickers returns the same list |
| Tickers.ParseTickersIdempotent | app.py:84 | re-parsing the comma-join of the output returns the same list, so normalisation is idempotent |
| Tickers.ParseTickersEmpty | app.py:84-86 | the list is empty exactly when the text contains only whitespace, commas and newlines (including the empty text); this is the warning case |
| Dashboard.OnButton | app.py:80-88 | an empty API key gives the key error; otherwise blank ticker text gives the warning; otherwise analysis runs on the parsed tickers, which are then non-empty |
| FmpResponse.SelectRecord | app.py:13-25 | returns a record exactly when the request succeeded, the status is 200 and the body is a non-empty JSON array; that record is the array's first element |
| FmpResponse.SelectRecordFirstOnly | app.py:20-21 | elements after the first never affect the selected record |
| Ratios.Field | app.py:34 | `data.get(key, 0)`: a present field reads as its own value, and a missing field reads as the number 0 |
| Ratios.PercentOf | app.py:36-37 | a percentage is produced exactly when both values convert to numbers and the denominator is not zero; the percentage times the denominator equals 100 times the numerator |
| Ratios.DebtToEquity | app.py:28-40 | N/A when the balance sheet is absent, empty or not an object. Otherwise it is a number exactly when `totalStockholdersEquity` is present, numeric and non-zero and `totalLiabilities` is numeric or missing. The number times equity equals 100 times liabilities |
| Ratios.CurrentRatio | app.py:43-55 | N/A when the balance sheet is absent, empty or not an object. Otherwise it is a number exactly when `totalCurrentLiabilities` is present, numeric and non-zero and `totalCurrentAssets` is numeric or missing. The number times current liabilities equals 100 times current assets |
| Ratios.ReturnOnEquity | app.py:58-71 | N/A when either statement is absent, empty or not an object. Otherwise it is a number exactly when `totalStockholdersEquity` is present, numeric and non-zero and `netIncome` is numeric or missing. The number times equity equals 100 times net income |
| Ratios.MissingNumeratorIsZero | app.py:34-37 | with a usable denominator, a missing `totalLiabilities`, `totalCurrentAssets` or `netIncome` gives 0 percent, not N/A |
| Ratios.ReturnOnEquitySign | app.py:65-68 | with positive equity, ROE is positive, negative or zero exactly when net income is |
| Ratios.CurrentRatioCoverage | app.py:49-52 | with positive current liabilities, the current ratio is at least 100 percent exactly when current assets cover current liabilities |
| Ratios.DebtToEquityReadsTwoFields | app.py:34-35 | two non-empty balance sheets that agree on `totalLiabilities` and `totalStockholdersEquity` give the same debt-to-equity; any other field, such as `totalDebt`, has no effect |
| Ratios.UnselectedGivesNA | app.py:18-22 | when `get_fmp_json` yields `None` for a statement, every ratio that uses that statement is N/A |

## Left out

- The HTTP request, the URL with the API key, and `requests.get` (app.py:13-17) are network I/O. Their outcome is the `Response` input: either a status and a body, or a failed request.
- The warning that `get_fmp_json` writes to the page when it catches an exception (app.py:24) is a UI side effect.
- All Streamlit UI is left out: page configuration, inputs, progress bar, table and CSV download (app.py:8-10, 74-78, 88-111).
- The per-ticker driver loop (app.py:92-104) is left out. It calls the fetch four times per ticker, stamps `datetime.now()` and sleeps 0.3 seconds; it only orchestrates I/O and timing. Each ratio function therefore takes the fetched records as arguments, and the fetches may differ between calls.
- DebtToEquity: returns the exact real percentage. It does not model Python's `round(x, 2)` on binary floats, IEEE-754 rounding, infinities or NaN.
- CurrentRatio: returns the exact real percentage. It does not model `round(x, 2)` or floating point, for the same reason.
- ReturnOnEquity: returns the exact real percentage. It does not model `round(x, 2)` or floating point, for the same reason.
- Ratios.Field: the exact set of JSON values that Python's `float()` accepts is abstracted as `Num(real) | NotNumeric`. A value that raises is `NotNumeric`, and every ratio that reads it returns "N/A".
- FmpResponse.SelectRecord: every first element that is not a JSON object is one value, `NonObject`. A falsy one fails the `if not data` check, and a truthy one makes `data.get` raise inside the `try`; both give "N/A".
- Tickers.UpperChar: upper-cases ASCII letters only. Python's full Unicode `str.upper()` is not modelled, including mappings that change length, such as `ß` becoming `SS`.
- Tickers.Strip: strips ASCII whitespace only (tab, line feed, vertical tab, form feed, carriage return, characters 28 to 31, and space). Python's Unicode whitespace set is not modelled.
