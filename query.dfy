/**
 * `parseQueryParams`: a query string becomes one `{key, value}` entry per
 * "&"-separated piece, in order and with duplicate keys kept.
 */
module QueryParams {
  import opened Wrappers
  import opened Strings

  /** One query entry; `value` is `undefined` (None) when the piece has no "=". */
  datatype Param = Param(key: string, value: Option<string>)

  /**
   * The entry for one piece, `query.split("=")` read at indices 0 and 1:
   * the key is the text before the first "=", the value the text between
   * the first and the second "=", absent when there is no "=".
   */
  function ParamOf(piece: string): (p: Param)
    ensures p.key == Before(piece, "=")
    ensures p.value.None? <==> '=' !in piece
    ensures p.value.Some? ==> Contains(piece, "=") && p.value.value == Before(After(piece, "="), "=")
  {
    var split := Split(piece, "=");
    SplitFirst(piece, "=");
    ContainsChar(piece, '=');
    if |split| > 1 then
      SplitFirst(After(piece, "="), "=");
      Param(split[0], Some(split[1]))
    else
      Param(split[0], None)
  }

  /**
   * `queryString.split("&").map(...)`: one entry per "&"-separated piece,
   * in order. The empty query string gives one entry with key "" and no value.
   */
  function ParseQueryParams(queryString: string): (params: seq<Param>)
    ensures |params| == Count(queryString, '&') + 1 == |Split(queryString, "&")|
    ensures forall i :: 0 <= i < |params| ==> params[i] == ParamOf(Split(queryString, "&")[i])
    ensures queryString == "" ==> params == [Param("", None)]
  {
    var pieces := Split(queryString, "&");
    SplitCount(queryString, '&');
    seq(|pieces|, i requires 0 <= i < |pieces| => ParamOf(pieces[i]))
  }

  /** The text an entry stands for: the key, then "=" and the value when there is one. */
  function Render(p: Param): string {
    p.key + match p.value
      case None => ""
      case Some(v) => "=" + v
  }

  /** A piece with at most one "=" is given back by rendering its entry. */
  lemma {:induction false} ParamRoundTrip(piece: string)
    requires Count(piece, '=') <= 1
    ensures Render(ParamOf(piece)) == piece
  {
    if '=' in piece {
      CountAfterFirst(piece, '=');
      var after := After(piece, "=");
      ContainsChar(after, '=');
      assert Before(after, "=") == after;
      assert ParamOf(piece) == Param(Before(piece, "="), Some(after));
    } else {
      ContainsChar(piece, '=');
      assert ParamOf(piece) == Param(piece, None);
    }
  }

  /**
   * The value is cut at the second "=": a piece with two or more "=" loses
   * the rest of its text.
   */
  lemma {:induction false} ValueTruncated(piece: string)
    requires Count(piece, '=') >= 2
    ensures ParamOf(piece).value.Some?
    ensures |Render(ParamOf(piece))| < |piece|
  {
    CountAfterFirst(piece, '=');
    var after := After(piece, "=");
    ContainsChar(after, '=');
    assert !Contains(Before(after, "="), "=");
  }

  /**
   * A query string whose pieces each hold at most one "=" is rebuilt by
   * rendering its entries and joining them with "&".
   */
  lemma {:induction false} QueryRoundTrip(queryString: string)
    requires forall piece :: piece in Split(queryString, "&") ==> Count(piece, '=') <= 1
    ensures var params := ParseQueryParams(queryString);
      Join(seq(|params|, i requires 0 <= i < |params| => Render(params[i])), "&") == queryString
  {
    var pieces := Split(queryString, "&");
    var params := ParseQueryParams(queryString);
    var rendered := seq(|params|, i requires 0 <= i < |params| => Render(params[i]));
    forall i | 0 <= i < |pieces| ensures rendered[i] == pieces[i] {
      ParamRoundTrip(pieces[i]);
    }
    assert rendered == pieces;
    JoinSplit(queryString, "&");
  }
}
