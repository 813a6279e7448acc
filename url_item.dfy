/**
 * `urlToItem`: one raw URL line, and an optional host override, become one
 * Postman request item. The URL is cut at "//" into scheme and rest, the
 * rest at "/" into authority and path, and the last path piece at "?" into
 * the final segment and the query text.
 */
module UrlItem {
  import opened Wrappers
  import opened Strings
  import opened QueryParams

  /** A request header; the items built here never carry one. */
  datatype Header = Header(key: string, value: string)

  datatype Url = Url(raw: string, host: string, path: seq<string>, query: seq<Param>)

  datatype Request = Request(httpMethod: string, header: seq<Header>, url: Url)

  datatype Item = Item(name: string, request: Request)

  /** The TypeError thrown when an `undefined` slot is read. */
  datatype UrlError =
    | NoDoubleSlash  // `doubleSlashSplit[1]` is undefined: the URL has no "//"
    | NoPathSegment  // `singleSlashSplit.pop()` is undefined: no "/" after the authority
    | NoQueryString  // `querySplit[1]` is undefined: the last path piece has no "?"

  /** JavaScript truthiness of the `host` option: present and not the empty string. */
  predicate Truthy(host: Option<string>) {
    host.Some? && host.value != ""
  }

  /** The text before the first "//", e.g. "https:". */
  function Scheme(url: string): string {
    Before(url, "//")
  }

  /** The text between the first and the second "//", or the end of the URL. */
  function Rest(url: string): string
    requires Contains(url, "//")
  {
    Before(After(url, "//"), "//")
  }

  /** The authority: the text of `rest` before its first "/". */
  function Authority(rest: string): string {
    Before(rest, "/")
  }

  /** The "/"-separated pieces of `rest` after the authority. */
  function Pieces(rest: string): (pieces: seq<string>)
    requires '/' in rest
    ensures |pieces| >= 1
  {
    ContainsChar(rest, '/');
    Split(After(rest, "/"), "/")
  }

  /** The last "/"-separated piece of `rest`. */
  function LastPiece(rest: string): string
    requires '/' in rest
  {
    var pieces := Pieces(rest);
    pieces[|pieces| - 1]
  }

  /**
   * The path: the pieces after the authority, the last one cut at its
   * first "?".
   */
  function Path(rest: string): (path: seq<string>)
    requires '/' in rest
  {
    var pieces := Pieces(rest);
    pieces[..|pieces| - 1] + [Before(pieces[|pieces| - 1], "?")]
  }

  /** The text between the first and the second "?" of the last piece. */
  function QueryText(last: string): string
    requires '?' in last
  {
    ContainsChar(last, '?');
    Before(After(last, "?"), "?")
  }

  /**
   * The request item for `url`, or the error `urlToItem` throws.
   * It fails exactly when the URL has no "//", when the text after it has
   * no "/", or when the last path piece has no "?", checked in that order.
   */
  function UrlToItem(url: string, host: Option<string>): (r: Result<Item, UrlError>)
    ensures r == Failure(NoDoubleSlash) <==> !Contains(url, "//")
    ensures r == Failure(NoPathSegment) <==> Contains(url, "//") && '/' !in Rest(url)
    ensures r == Failure(NoQueryString) <==>
      Contains(url, "//") && '/' in Rest(url) && '?' !in LastPiece(Rest(url))
    ensures r.Success? ==>
      && r.value.name == url
      && r.value.request.httpMethod == "GET"
      && r.value.request.header == []
      && r.value.request.url.raw == url
    ensures r.Success? && Truthy(host) ==> r.value.request.url.host == host.value
    ensures r.Success? && !Truthy(host) ==>
      r.value.request.url.host == Scheme(url) + "//" + Authority(Rest(url))
  {
    if !Contains(url, "//") then Failure(NoDoubleSlash)
    else
      var rest := Rest(url);
      ContainsChar(rest, '/');
      if !Contains(rest, "/") then Failure(NoPathSegment)
      else
        var last := LastPiece(rest);
        ContainsChar(last, '?');
        if !Contains(last, "?") then Failure(NoQueryString)
        else
          var parsedHost := Scheme(url) + "//" + Authority(rest);
          Success(Item(url, Request("GET", [], Url(
            url,
            if Truthy(host) then host.value else parsedHost,
            Path(rest),
            ParseQueryParams(QueryText(last))))))
  }

  /**
   * `urlToItem` step by step: the item's fields are set one by one and a
   * local sequence of "/"-pieces is updated as the array is, `shift` as
   * `[1..]`, `pop` as `[..n - 1]` and `push` as `+ [x]`.
   */
  method BuildItem(url: string, host: Option<string>) returns (r: Result<Item, UrlError>)
    ensures r == UrlToItem(url, host)
  {
    var name := url;
    var httpMethod := "GET";
    var header: seq<Header> := [];
    var raw := url;
    var doubleSlashSplit := Split(url, "//");
    assert |doubleSlashSplit| >= 2 <==> Contains(url, "//") by {
      SplitShape(url, "//");
    }
    if |doubleSlashSplit| < 2 {
      return Failure(NoDoubleSlash);
    }
    ghost var rest := Rest(url);
    assert doubleSlashSplit[0] == Scheme(url) && doubleSlashSplit[1] == rest by {
      SplitShape(url, "//");
    }
    var singleSlashSplit := Split(doubleSlashSplit[1], "/");
    assert && singleSlashSplit[0] == Authority(rest)
           && (|singleSlashSplit| >= 2 <==> '/' in rest)
           && ('/' in rest ==> singleSlashSplit[1..] == Pieces(rest)) by {
      SplitShape(rest, "/");
      ContainsChar(rest, '/');
    }
    // shift(): the authority leaves the front of the array
    var authority := singleSlashSplit[0];
    singleSlashSplit := singleSlashSplit[1..];
    var parsedHost := doubleSlashSplit[0] + "//" + authority;
    var itemHost := if Truthy(host) then host.value else parsedHost;
    // pop(): the last piece leaves the back; on an empty array it is undefined
    if |singleSlashSplit| == 0 {
      return Failure(NoPathSegment);
    }
    var last := singleSlashSplit[|singleSlashSplit| - 1];
    assert last == LastPiece(rest);
    singleSlashSplit := singleSlashSplit[..|singleSlashSplit| - 1];
    var querySplit := Split(last, "?");
    assert && querySplit[0] == Before(last, "?")
           && (|querySplit| >= 2 <==> '?' in last)
           && ('?' in last ==> querySplit[1] == QueryText(last)) by {
      SplitShape(last, "?");
      ContainsChar(last, '?');
    }
    // push(): the last piece returns without its query
    singleSlashSplit := singleSlashSplit + [querySplit[0]];
    var path := singleSlashSplit;
    assert path == Path(rest);
    // parseQueryParams(querySplit[1]) reads an undefined slot
    if |querySplit| < 2 {
      return Failure(NoQueryString);
    }
    var query := ParseQueryParams(querySplit[1]);
    r := Success(Item(name, Request(httpMethod, header, Url(raw, itemHost, path, query))));
    ItemShape(url, host);
  }

  /** The item `UrlToItem` builds for a URL it accepts. */
  lemma ItemShape(url: string, host: Option<string>)
    requires Contains(url, "//") && '/' in Rest(url) && '?' in LastPiece(Rest(url))
    ensures var rest := Rest(url);
      UrlToItem(url, host) == Success(Item(url, Request("GET", [], Url(
        url,
        if Truthy(host) then host.value else Scheme(url) + "//" + Authority(rest),
        Path(rest),
        ParseQueryParams(QueryText(LastPiece(rest)))))))
  {
    ContainsChar(Rest(url), '/');
    ContainsChar(LastPiece(Rest(url)), '?');
  }

  /** The pieces after the authority hold no "/" and spell the text after it. */
  lemma PiecesFree(rest: string)
    requires Contains(rest, "/")
    ensures '/' in rest
    ensures forall i :: 0 <= i < |Pieces(rest)| ==> '/' !in Pieces(rest)[i]
    ensures Join(Pieces(rest), "/") == After(rest, "/")
  {
    ContainsChar(rest, '/');
    var pieces := Pieces(rest);
    SplitPiecesFree(After(rest, "/"), "/");
    forall i | 0 <= i < |pieces| ensures '/' !in pieces[i] {
      ContainsChar(pieces[i], '/');
    }
    JoinSplit(After(rest, "/"), "/");
  }

  /** The path has as many segments as `rest` has "/" characters. */
  lemma {:induction false} PathCount(rest: string)
    requires '/' in rest
    ensures |Path(rest)| == Count(rest, '/')
  {
    ContainsChar(rest, '/');
    var before, after := Before(rest, "/"), After(rest, "/");
    SplitCount(after, '/');
    ContainsChar(before, '/');
    CountAppend(before + "/", after, '/');
    CountAppend(before, "/", '/');
  }

  /**
   * The path segments are the "/"-separated pieces of `rest` after the
   * authority, the last one cut before its first "?".
   */
  lemma {:induction false} PathPieces(rest: string)
    requires '/' in rest
    ensures Contains(rest, "/")
    ensures var path, last := Path(rest), LastPiece(rest);
      && (forall i :: 0 <= i < |path| ==> '/' !in path[i])
      && '?' !in path[|path| - 1]
      && (Contains(last, "?") ==> last == path[|path| - 1] + "?" + After(last, "?"))
      && rest == Authority(rest) + "/" + Join(path[..|path| - 1] + [last], "/")
  {
    ContainsChar(rest, '/');
    PathSlashFree(rest);
    ContainsChar(Before(LastPiece(rest), "?"), '?');
    PathSpellsRest(rest);
  }

  /** No path segment holds a "/". */
  lemma PathSlashFree(rest: string)
    requires '/' in rest
    ensures forall i :: 0 <= i < |Path(rest)| ==> '/' !in Path(rest)[i]
  {
    ContainsChar(rest, '/');
    var pieces, path, last := Pieces(rest), Path(rest), LastPiece(rest);
    PiecesFree(rest);
    forall i | 0 <= i < |path| ensures '/' !in path[i] {
      if i == |pieces| - 1 {
        assert '/' !in last;
      } else {
        assert path[i] == pieces[i];
      }
    }
  }

  /** The authority, "/" and the pieces joined by "/" spell `rest`. */
  lemma PathSpellsRest(rest: string)
    requires '/' in rest
    ensures Contains(rest, "/")
    ensures var path := Path(rest);
      rest == Authority(rest) + "/" + Join(path[..|path| - 1] + [LastPiece(rest)], "/")
  {
    ContainsChar(rest, '/');
    var pieces, path := Pieces(rest), Path(rest);
    PiecesFree(rest);
    assert path[..|pieces| - 1] + [LastPiece(rest)] == pieces;
    assert rest == Before(rest, "/") + "/" + After(rest, "/");
  }

  /** The path of an item has as many segments as the rest of its URL has "/" characters. */
  lemma PathLength(url: string, host: Option<string>)
    ensures UrlToItem(url, host).Success? ==>
      |UrlToItem(url, host).value.request.url.path| == Count(Rest(url), '/') >= 1
  {
    if UrlToItem(url, host).Success? {
      PathCount(Rest(url));
      ContainsChar(Rest(url), '/');
    }
  }

  /**
   * The segments of an item's path are verbatim "/"-separated pieces of the
   * rest of the URL: none holds a "/", the last holds no "?", and with the
   * authority and the text after the last piece's "?" they spell the rest.
   */
  lemma PathSegments(url: string, host: Option<string>)
    ensures UrlToItem(url, host).Success? ==>
      var path := UrlToItem(url, host).value.request.url.path;
      var rest := Rest(url);
      var last := LastPiece(rest);
      && (forall i :: 0 <= i < |path| ==> '/' !in path[i])
      && '?' !in path[|path| - 1]
      && last == path[|path| - 1] + "?" + After(last, "?")
      && rest == Authority(rest) + "/" + Join(path[..|path| - 1] + [last], "/")
  {
    if UrlToItem(url, host).Success? {
      PathPieces(Rest(url));
    }
  }

  /**
   * The query of an item is `parseQueryParams` applied to the text between
   * the first and the second "?" of the last path piece, whatever the host.
   */
  lemma ItemQuery(url: string, host: Option<string>)
    ensures UrlToItem(url, host).Success? ==>
      var q := QueryText(LastPiece(Rest(url)));
      && '?' !in q
      && UrlToItem(url, host).value.request.url.query == ParseQueryParams(q)
      && |UrlToItem(url, host).value.request.url.query| == Count(q, '&') + 1
  {
    if UrlToItem(url, host).Success? {
      ContainsChar(QueryText(LastPiece(Rest(url))), '?');
    }
  }

  /**
   * `rest` begins with the authority, "/", the path joined by "/", "?" and
   * the query text.
   */
  lemma {:induction false} RestRebuilt(rest: string)
    requires '/' in rest && '?' in LastPiece(rest)
    ensures Authority(rest) + "/" + Join(Path(rest), "/") + "?" + QueryText(LastPiece(rest)) <= rest
  {
    ContainsChar(LastPiece(rest), '?');
    var path, last := Path(rest), LastPiece(rest);
    var init, final := path[..|path| - 1], path[|path| - 1];
    var head, after := Authority(rest) + "/", After(last, "?");
    assert rest == head + Join(init + [last], "/") && last == final + "?" + after by {
      PathPieces(rest);
    }
    var lead := if init == [] then "" else Join(init, "/") + "/";
    assert path == init + [final];
    assert Join(path, "/") == lead + final by {
      JoinSnoc(init, final, "/");
    }
    assert Join(init + [last], "/") == lead + last by {
      JoinSnoc(init, last, "/");
    }
    assert QueryText(last) <= after;
    Reassemble(head, lead, final, after, QueryText(last), Join(path, "/"), Join(init + [last], "/"), last, rest);
  }

  /** The concatenation step of `RestRebuilt`, on plain strings. */
  lemma Reassemble(head: string, lead: string, final: string, after: string, query: string,
                   joinedPath: string, joinedPieces: string, last: string, rest: string)
    requires rest == head + joinedPieces && joinedPieces == lead + last
    requires last == final + "?" + after && joinedPath == lead + final
    requires query <= after
    ensures head + joinedPath + "?" + query <= rest
  {
    var front := head + lead + final + "?";
    assert rest == front + after;
    assert head + joinedPath + "?" == front;
    PrefixAppend(front, query, after);
  }

  /**
   * The item's URL begins with the parsed host, the path joined by "/",
   * "?" and the query text, in that order.
   */
  lemma UrlRebuilt(url: string, host: Option<string>)
    ensures UrlToItem(url, host).Success? ==>
      var u := UrlToItem(url, host).value.request.url;
      Scheme(url) + "//" + Authority(Rest(url)) + "/" + Join(u.path, "/") + "?"
        + QueryText(LastPiece(Rest(url))) <= url
  {
    if UrlToItem(url, host).Success? {
      var rest := Rest(url);
      var path, last := UrlToItem(url, host).value.request.url.path, LastPiece(rest);
      assert path == Path(rest);
      var scheme, authority, query := Scheme(url) + "//", Authority(rest), QueryText(last);
      assert authority + "/" + Join(path, "/") + "?" + query <= rest by {
        RestRebuilt(rest);
      }
      assert rest <= After(url, "//");
      assert url == scheme + After(url, "//");
      Behind(scheme, authority + "/" + Join(path, "/") + "?" + query, rest, After(url, "//"));
      Regroup(scheme, authority, Join(path, "/"), query);
    }
  }

  /** Regrouping the concatenation of `UrlRebuilt`. */
  lemma Regroup(scheme: string, authority: string, joined: string, query: string)
    ensures scheme + (authority + "/" + joined + "?" + query)
      == scheme + authority + "/" + joined + "?" + query
  {
  }

  /** A prefix of a prefix of `z`, behind a common front, is a prefix of `z` behind it. */
  lemma Behind(front: string, x: string, y: string, z: string)
    requires x <= y <= z
    ensures front + x <= front + z
  {
    assert x == z[..|x|];
    PrefixAppend(front, x, z);
  }

  /** A prefix stays a prefix behind a common front. */
  lemma PrefixAppend(front: string, x: string, y: string)
    requires x <= y
    ensures front + x <= front + y
  {
    assert front + x == (front + y)[..|front + x|];
  }

  /** Joining one more piece at the end. */
  lemma {:induction false} JoinSnoc(pieces: seq<string>, x: string, sep: string)
    ensures Join(pieces + [x], sep) == if pieces == [] then x else Join(pieces, sep) + sep + x
  {
    if |pieces| > 1 {
      assert (pieces + [x])[1..] == pieces[1..] + [x];
      JoinSnoc(pieces[1..], x, sep);
    } else if |pieces| == 1 {
      assert (pieces + [x])[1..] == [x];
    }
  }

  /** The host override changes the host and nothing else. */
  lemma OverrideOnlyChangesHost(url: string, host: Option<string>, other: Option<string>)
    ensures UrlToItem(url, host).Success? == UrlToItem(url, other).Success?
    ensures UrlToItem(url, host).Failure? ==> UrlToItem(url, host) == UrlToItem(url, other)
    ensures UrlToItem(url, host).Success? ==>
      var a, b := UrlToItem(url, host).value, UrlToItem(url, other).value;
      a.(request := a.request.(url := a.request.url.(host := b.request.url.host))) == b
  {
  }
}
