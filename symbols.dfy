/** The fixed-width market-code rule: a purely numeric symbol shorter than six
    characters is left-padded with zeros to six digits before it is looked up
    or stored. The price feed and the listing snapshot are parameters. */
module Symbols {
  import opened Wrappers

  const CodeWidth: nat := 6

  /** An ASCII decimal digit. Python's `str.isdigit()` also accepts the
      digits of other scripts; this model does not. */
  predicate IsDigit(c: char) {
    '0' <= c <= '9'
  }

  /** `str.isdigit()` restricted to ASCII: non-empty and made of the digits
      '0' to '9' only. */
  predicate IsAllDigits(s: string) {
    |s| > 0 && forall i :: 0 <= i < |s| ==> IsDigit(s[i])
  }

  /** `str.zfill(width)` on a string without a sign. */
  function ZeroFill(s: string, width: nat): (r: string)
    ensures |r| == if |s| >= width then |s| else width
    ensures r[|r| - |s|..] == s
    ensures forall i :: 0 <= i < |r| - |s| ==> r[i] == '0'
  {
    if |s| >= width then s
    else
      var pad := seq(width - |s|, _ => '0');
      assert (pad + s)[|pad|..] == s;
      pad + s
  }

  /** journal_app.py:125 and trade_logic.py:321-323, 339-341. */
  function NormalizeSymbol(s: string): (r: string)
    ensures IsAllDigits(s) && |s| < CodeWidth ==>
      && |r| == CodeWidth && IsAllDigits(r)
      && r[CodeWidth - |s|..] == s
      && forall i :: 0 <= i < CodeWidth - |s| ==> r[i] == '0'
    ensures !(IsAllDigits(s) && |s| < CodeWidth) ==> r == s
  {
    if IsAllDigits(s) && |s| < CodeWidth then ZeroFill(s, CodeWidth) else s
  }

  /** Padding twice is padding once, so a symbol stored already padded is
      looked up under the same code as the raw input. */
  lemma NormalizeSymbolIdempotent(s: string)
    ensures NormalizeSymbol(NormalizeSymbol(s)) == NormalizeSymbol(s)
  {
  }

  /** `fetch_current_price`: the feed is asked for the padded code; a failed or
      empty download is the feed answering `None`. */
  function FetchCurrentPrice(symbol: string, feed: string -> Option<real>): (r: Option<real>)
    ensures IsAllDigits(symbol) && |symbol| < CodeWidth ==> r == feed(ZeroFill(symbol, CodeWidth))
    ensures !(IsAllDigits(symbol) && |symbol| < CodeWidth) ==> r == feed(symbol)
  {
    feed(NormalizeSymbol(symbol))
  }

  /** `get_stock_name`: the cached code-to-name listing, read under the padded code. */
  function GetStockName(symbol: string, listing: map<string, string>): (r: Option<string>)
    ensures r.Some? <==> NormalizeSymbol(symbol) in listing
    ensures r.Some? ==> r.value == listing[NormalizeSymbol(symbol)]
  {
    var code := NormalizeSymbol(symbol);
    if code in listing then Some(listing[code]) else None
  }

  /** Normalising a symbol before storing it does not change what the price
      feed or the listing is asked for. */
  lemma LookupsIgnorePadding(symbol: string, feed: string -> Option<real>, listing: map<string, string>)
    ensures FetchCurrentPrice(NormalizeSymbol(symbol), feed) == FetchCurrentPrice(symbol, feed)
    ensures GetStockName(NormalizeSymbol(symbol), listing) == GetStockName(symbol, listing)
  {
    NormalizeSymbolIdempotent(symbol);
  }
}
