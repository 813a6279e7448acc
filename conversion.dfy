/**
 * The conversion around `urlToItem`: the file's text becomes the list of
 * its non-empty lines, an empty list is an error, and the items built from
 * the lines, in order, are wrapped in one collection with a fixed schema.
 */
module Conversion {
  import opened Wrappers
  import opened Strings
  import opened UrlItem

  /** The schema every produced collection names. */
  const SchemaUrl := "https://schema.getpostman.com/json/collection/v2.1.0/collection.json"

  /** The `name` option may be absent (`undefined`). */
  datatype Info = Info(name: Option<string>, schema: string)

  datatype Collection = Collection(info: Info, item: seq<Item>)

  datatype ConvertError =
    | EmptyFile                        // "File seems to be empty"
    | GenerateFailed(cause: UrlError)  // a URL line made `urlToItem` throw

  /**
   * `lines.filter((item) => item !== "")`: the non-empty lines, in order,
   * each as many times as it occurs.
   */
  function DropEmpty(lines: seq<string>): (kept: seq<string>)
    ensures forall i :: 0 <= i < |kept| ==> kept[i] != ""
    ensures forall x :: x != "" ==> multiset(kept)[x] == multiset(lines)[x]
    ensures Join(kept, "") == Join(lines, "")
    ensures (forall i :: 0 <= i < |lines| ==> lines[i] != "") ==> kept == lines
  {
    if lines == [] then []
    else
      var rest := DropEmpty(lines[1..]);
      var kept := if lines[0] == "" then rest else [lines[0]] + rest;
      KeptCounts(lines, rest, kept);
      KeptText(lines, rest, kept);
      KeptWhole(lines, rest, kept);
      kept
  }

  /** The multiplicity step of `DropEmpty`. */
  lemma KeptCounts(lines: seq<string>, rest: seq<string>, kept: seq<string>)
    requires lines != []
    requires forall x :: x != "" ==> multiset(rest)[x] == multiset(lines[1..])[x]
    requires kept == if lines[0] == "" then rest else [lines[0]] + rest
    ensures forall x :: x != "" ==> multiset(kept)[x] == multiset(lines)[x]
  {
    assert lines == [lines[0]] + lines[1..];
    assert multiset(lines) == multiset{lines[0]} + multiset(lines[1..]);
  }

  /** The concatenation step of `DropEmpty`. */
  lemma KeptText(lines: seq<string>, rest: seq<string>, kept: seq<string>)
    requires lines != []
    requires Join(rest, "") == Join(lines[1..], "")
    requires kept == if lines[0] == "" then rest else [lines[0]] + rest
    ensures Join(kept, "") == Join(lines, "")
  {
    assert lines == [lines[0]] + lines[1..];
    JoinNoSep(lines[0], lines[1..]);
    if lines[0] != "" {
      JoinNoSep(lines[0], rest);
    }
  }

  /** The no-empty-line step of `DropEmpty`. */
  lemma KeptWhole(lines: seq<string>, rest: seq<string>, kept: seq<string>)
    requires lines != []
    requires (forall i :: 0 <= i < |lines[1..]| ==> lines[1..][i] != "") ==> rest == lines[1..]
    requires kept == if lines[0] == "" then rest else [lines[0]] + rest
    ensures (forall i :: 0 <= i < |lines| ==> lines[i] != "") ==> kept == lines
  {
    if forall i :: 0 <= i < |lines| ==> lines[i] != "" {
      assert forall i :: 0 <= i < |lines[1..]| ==> lines[1..][i] == lines[i + 1];
      assert lines == [lines[0]] + lines[1..];
    }
  }

  /** Nothing is kept exactly when every line is empty. */
  lemma {:induction false} DropEmptyNothing(lines: seq<string>)
    ensures DropEmpty(lines) == [] <==> forall i :: 0 <= i < |lines| ==> lines[i] == ""
  {
    if lines != [] {
      DropEmptyNothing(lines[1..]);
      assert forall i :: 1 <= i < |lines| ==> lines[i] == lines[1..][i - 1];
    }
  }

  /**
   * The filter keeps file order: filtering a list cut in two is filtering
   * each part and putting the results one after the other. With the case of
   * a single line this determines `DropEmpty` completely.
   */
  lemma {:induction false} DropEmptyAppend(a: seq<string>, b: seq<string>)
    ensures DropEmpty(a + b) == DropEmpty(a) + DropEmpty(b)
  {
    if a == [] {
      assert a + b == b;
    } else {
      assert (a + b)[0] == a[0] && (a + b)[1..] == a[1..] + b;
      DropEmptyAppend(a[1..], b);
    }
  }

  /** A single line is kept exactly when it is not empty. */
  lemma DropEmptyOne(line: string)
    ensures DropEmpty([line]) == if line == "" then [] else [line]
  {
    assert [line][1..] == [];
  }

  /** With the empty separator, joining is concatenation. */
  lemma JoinNoSep(first: string, rest: seq<string>)
    ensures Join([first] + rest, "") == first + Join(rest, "")
  {
    if rest != [] {
      JoinCons(first, rest, "");
    }
  }

  /** The non-empty lines of the file's text. */
  function NonEmptyLines(text: string): (lines: seq<string>)
    ensures forall i :: 0 <= i < |lines| ==> lines[i] != "" && '\n' !in lines[i]
  {
    var lines := DropEmpty(Split(text, "\n"));
    SplitPiecesFree(text, "\n");
    forall i | 0 <= i < |lines| ensures '\n' !in lines[i] {
      assert multiset(lines)[lines[i]] > 0;
      assert lines[i] in Split(text, "\n");
      var j :| 0 <= j < |Split(text, "\n")| && Split(text, "\n")[j] == lines[i];
      ContainsChar(lines[i], '\n');
    }
    lines
  }

  /** Every character of a piece occurs in the joined text. */
  lemma {:induction false} JoinKeepsChars(pieces: seq<string>, sep: string, i: nat, k: nat)
    requires i < |pieces| && k < |pieces[i]|
    ensures pieces[i][k] in Join(pieces, sep)
  {
    if i > 0 {
      JoinKeepsChars(pieces[1..], sep, i - 1, k);
    }
  }

  /** Joining only empty pieces leaves nothing but separators. */
  lemma {:induction false} JoinOfEmpties(pieces: seq<string>, c: char)
    requires forall i :: 0 <= i < |pieces| ==> pieces[i] == ""
    ensures forall k :: 0 <= k < |Join(pieces, [c])| ==> Join(pieces, [c])[k] == c
  {
    if |pieces| > 1 {
      JoinOfEmpties(pieces[1..], c);
      assert Join(pieces, [c]) == [c] + Join(pieces[1..], [c]);
    }
  }

  /** The text has no non-empty line exactly when it is nothing but line breaks. */
  lemma OnlyLineBreaks(text: string)
    ensures NonEmptyLines(text) == [] <==> forall k :: 0 <= k < |text| ==> text[k] == '\n'
  {
    var pieces := Split(text, "\n");
    JoinSplit(text, "\n");
    SplitPiecesFree(text, "\n");
    DropEmptyNothing(pieces);
    if NonEmptyLines(text) == [] {
      JoinOfEmpties(pieces, '\n');
    }
    if forall k :: 0 <= k < |text| ==> text[k] == '\n' {
      forall i | 0 <= i < |pieces| ensures pieces[i] == "" {
        ContainsChar(pieces[i], '\n');
        if pieces[i] != "" {
          JoinKeepsChars(pieces, "\n", i, 0);
        }
      }
    }
  }

  /** Lines 41-43: the URL list, or the error for a file without one. */
  function UrlList(text: string): (r: Result<seq<string>, ConvertError>)
    ensures r.Failure? <==> forall k :: 0 <= k < |text| ==> text[k] == '\n'
    ensures r.Failure? ==> r.error == EmptyFile
    ensures r.Success? ==> r.value == NonEmptyLines(text) && |r.value| >= 1
  {
    var urlList := NonEmptyLines(text);
    OnlyLineBreaks(text);
    if |urlList| < 1 then Failure(EmptyFile) else Success(urlList)
  }

  /**
   * `xs.map(f)` for a callback that may throw: every result in order, or the
   * error of the first element whose callback throws.
   */
  function MapOrThrow<A, B, E>(xs: seq<A>, f: A -> Result<B, E>): (r: Result<seq<B>, E>)
    ensures r.Success? ==>
      && |r.value| == |xs|
      && forall i :: 0 <= i < |xs| ==> f(xs[i]) == Success(r.value[i])
    ensures r.Failure? ==>
      exists i :: 0 <= i < |xs| && f(xs[i]) == Failure(r.error)
        && (forall j :: 0 <= j < i ==> f(xs[j]).Success?)
  {
    if xs == [] then Success([])
    else
      var first := f(xs[0]);
      if first.Failure? then Failure(first.error)
      else
        var rest := MapOrThrow(xs[1..], f);
        if rest.Failure? then
          FirstThrowShifts(xs, f, rest.error);
          Failure(rest.error)
        else
          var results := [first.value] + rest.value;
          assert forall i :: 1 <= i < |xs| ==> xs[i] == xs[1..][i - 1] && results[i] == rest.value[i - 1];
          Success(results)
  }

  /** A first throw in `xs[1..]` behind a success at `xs[0]` is a first throw in `xs`. */
  lemma FirstThrowShifts<A, B, E>(xs: seq<A>, f: A -> Result<B, E>, e: E)
    requires |xs| >= 1 && f(xs[0]).Success?
    requires
      exists i :: 0 <= i < |xs[1..]| && f(xs[1..][i]) == Failure(e)
        && (forall j :: 0 <= j < i ==> f(xs[1..][j]).Success?)
    ensures
      exists i :: 0 <= i < |xs| && f(xs[i]) == Failure(e)
        && (forall j :: 0 <= j < i ==> f(xs[j]).Success?)
  {
    var i :| 0 <= i < |xs[1..]| && f(xs[1..][i]) == Failure(e)
      && (forall j :: 0 <= j < i ==> f(xs[1..][j]).Success?);
    assert xs[i + 1] == xs[1..][i];
    assert forall j :: 1 <= j < i + 1 ==> xs[j] == xs[1..][j - 1];
  }

  /**
   * `urlList.map((url) => urlToItem(url, host))`: one item per URL in the
   * same order, or the error of the first URL that throws.
   */
  function MapItems(urls: seq<string>, host: Option<string>): (r: Result<seq<Item>, UrlError>)
    ensures r.Success? ==>
      && |r.value| == |urls|
      && forall i :: 0 <= i < |urls| ==> UrlToItem(urls[i], host) == Success(r.value[i])
    ensures r.Failure? ==>
      exists i :: 0 <= i < |urls| && UrlToItem(urls[i], host) == Failure(r.error)
        && (forall j :: 0 <= j < i ==> UrlToItem(urls[j], host).Success?)
  {
    MapOrThrow(urls, url => UrlToItem(url, host))
  }

  /**
   * Lines 41-60 without the I/O: the text's URL list mapped to items and
   * wrapped in one collection under the given name and the fixed schema.
   */
  function Convert(text: string, name: Option<string>, host: Option<string>): (r: Result<Collection, ConvertError>)
    ensures r == Failure(EmptyFile) <==> forall k :: 0 <= k < |text| ==> text[k] == '\n'
    ensures r.Failure? && r.error.GenerateFailed? ==>
      exists i :: 0 <= i < |NonEmptyLines(text)|
        && UrlToItem(NonEmptyLines(text)[i], host) == Failure(r.error.cause)
        && (forall j :: 0 <= j < i ==> UrlToItem(NonEmptyLines(text)[j], host).Success?)
    ensures r.Success? ==>
      && r.value.info == Info(name, SchemaUrl)
      && |r.value.item| == |NonEmptyLines(text)| >= 1
      && forall i :: 0 <= i < |r.value.item| ==>
           UrlToItem(NonEmptyLines(text)[i], host) == Success(r.value.item[i])
  {
    match UrlList(text)
    case Failure(e) => Failure(e)
    case Success(urlList) =>
      match MapItems(urlList, host)
      case Failure(e) => Failure(GenerateFailed(e))
      case Success(item) => Success(Collection(Info(name, SchemaUrl), item))
  }

  /**
   * Every item of a converted collection is named by its own line, carries
   * it as its raw URL, and has the override as host when one is given.
   */
  lemma ItemsFollowLines(text: string, name: Option<string>, host: Option<string>)
    requires Convert(text, name, host).Success?
    ensures var c := Convert(text, name, host).value;
      forall i :: 0 <= i < |c.item| ==>
        && c.item[i].name == c.item[i].request.url.raw == NonEmptyLines(text)[i]
        && (Truthy(host) ==> c.item[i].request.url.host == host.value)
  {
  }

  /** The collection succeeds exactly when every non-empty line is a URL `urlToItem` accepts. */
  lemma {:induction false} MapItemsSucceeds(urls: seq<string>, host: Option<string>)
    ensures MapItems(urls, host).Success? <==> forall i :: 0 <= i < |urls| ==> UrlToItem(urls[i], host).Success?
  {
    if MapItems(urls, host).Failure? {
      var i :| 0 <= i < |urls| && UrlToItem(urls[i], host).Failure?;
    }
  }
}
