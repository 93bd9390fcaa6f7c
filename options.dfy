/**
 * `SearchOptions`: the engine's configuration, fixed when the engine is built.
 * Each setter is a struct update: it returns a copy with one field replaced.
 */
module Options {
  datatype SearchOptions = SearchOptions(
    caseSensitive: bool,
    stopWhitespace: bool,
    stopWords: seq<string>,
    threshold: real)
  {
    /** `case_sensitive(b)`: only the case flag changes. */
    function CaseSensitive(b: bool): (r: SearchOptions)
      ensures r.caseSensitive == b
      ensures r.stopWhitespace == stopWhitespace && r.stopWords == stopWords && r.threshold == threshold
    {
      this.(caseSensitive := b)
    }

    /** `stop_whitespace(b)`: only the whitespace-splitting flag changes. */
    function StopWhitespace(b: bool): (r: SearchOptions)
      ensures r.stopWhitespace == b
      ensures r.caseSensitive == caseSensitive && r.stopWords == stopWords && r.threshold == threshold
    {
      this.(stopWhitespace := b)
    }

    /** `stop_words(ws)`: only the stop-word list changes. */
    function StopWords(ws: seq<string>): (r: SearchOptions)
      ensures r.stopWords == ws
      ensures r.caseSensitive == caseSensitive && r.stopWhitespace == stopWhitespace && r.threshold == threshold
    {
      this.(stopWords := ws)
    }

    /** `threshold(x)`: only the similarity threshold changes. */
    function Threshold(x: real): (r: SearchOptions)
      ensures r.threshold == x
      ensures r.caseSensitive == caseSensitive && r.stopWhitespace == stopWhitespace && r.stopWords == stopWords
    {
      this.(threshold := x)
    }
  }

  /** `SearchOptions::new()`: case-insensitive, split on whitespace, no stop words, threshold 0.8. */
  function Default(): (o: SearchOptions)
    ensures !o.caseSensitive && o.stopWhitespace && o.stopWords == [] && o.threshold == 0.8
  {
    SearchOptions(false, true, [], 0.8)
  }

  /** The setters touch separate fields, so the order of builder calls does not matter. */
  lemma SettersCommute(o: SearchOptions, c: bool, w: bool, ws: seq<string>, x: real)
    ensures o.CaseSensitive(c).StopWhitespace(w) == o.StopWhitespace(w).CaseSensitive(c)
    ensures o.CaseSensitive(c).StopWords(ws) == o.StopWords(ws).CaseSensitive(c)
    ensures o.CaseSensitive(c).Threshold(x) == o.Threshold(x).CaseSensitive(c)
    ensures o.StopWhitespace(w).StopWords(ws) == o.StopWords(ws).StopWhitespace(w)
    ensures o.StopWhitespace(w).Threshold(x) == o.Threshold(x).StopWhitespace(w)
    ensures o.StopWords(ws).Threshold(x) == o.Threshold(x).StopWords(ws)
  {
  }

  /** Setting a field twice keeps the last value. */
  lemma SetterLastWins(o: SearchOptions, c1: bool, c2: bool, ws1: seq<string>, ws2: seq<string>, x1: real, x2: real)
    ensures o.CaseSensitive(c1).CaseSensitive(c2) == o.CaseSensitive(c2)
    ensures o.StopWhitespace(c1).StopWhitespace(c2) == o.StopWhitespace(c2)
    ensures o.StopWords(ws1).StopWords(ws2) == o.StopWords(ws2)
    ensures o.Threshold(x1).Threshold(x2) == o.Threshold(x2)
  {
  }
}
