/**
 * The decision the dashboard takes when the button is pressed (app.py lines
 * 80-88): complain about a missing API key, warn about an empty ticker list,
 * or go on to analyse the parsed tickers.
 */
module Dashboard {
  import opened Tickers

  datatype Action = MissingApiKey | NoTickers | Analyse(tickers: seq<string>)

  function OnButton(apiKey: string, tickerText: string): (a: Action)
    ensures a == MissingApiKey <==> apiKey == []
    ensures a == NoTickers <==> apiKey != [] && AllSeparators(tickerText)
    ensures a.Analyse? ==> a.tickers != [] && a.tickers == ParseTickers(tickerText)
  {
    ParseTickersEmpty(tickerText);
    if apiKey == [] then MissingApiKey
    else
      var tickers := ParseTickers(tickerText);
      if tickers == [] then NoTickers else Analyse(tickers)
  }
}
