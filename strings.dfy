/**
 * Strings as `seq<char>` and the behaviour of JavaScript's
 * `String.prototype.split` with a non-empty string separator: the
 * separator's occurrences are found left to right without overlapping,
 * empty pieces are kept, and there is always at least one piece.
 */
module Strings {
  import opened Wrappers

  /** `sep` occurs in `s` starting at index `k`. */
  predicate OccursAt(s: string, sep: string, k: nat) {
    k + |sep| <= |s| && s[k..k + |sep|] == sep
  }


  /** An occurrence in `s[1..]` is an occurrence in `s`, one place further on. */
  lemma OccursAtTail(s: string, sep: string, k: nat)
    requires |s| > 0
    ensures OccursAt(s[1..], sep, k) <==> OccursAt(s, sep, k + 1)
  {
    if k + 1 + |sep| <= |s| {
      assert s[1..][k..k + |sep|] == s[k + 1..k + 1 + |sep|];
    }
  }

  /** The index of the first occurrence of `sep` in `s`, if any (`indexOf`). */
  function IndexOf(s: string, sep: string): (r: Option<nat>)
    requires |sep| > 0
    ensures r.Some? ==> OccursAt(s, sep, r.value)
    decreases |s|
  {
    if |s| < |sep| then
      None
    else if s[..|sep|] == sep then
      assert OccursAt(s, sep, 0);
      Some(0)
    else
      match IndexOf(s[1..], sep)
      case None => None
      case Some(k) => OccursAtTail(s, sep, k); Some(k + 1)
  }

  /**
   * `IndexOf` finds the first occurrence: none occurs before the index it
   * returns, and none at all when it returns nothing.
   */
  lemma {:induction false} IndexOfFirst(s: string, sep: string)
    requires |sep| > 0
    ensures IndexOf(s, sep).Some? ==> forall j: nat :: j < IndexOf(s, sep).value ==> !OccursAt(s, sep, j)
    ensures IndexOf(s, sep).None? ==> forall k: nat :: !OccursAt(s, sep, k)
    decreases |s|
  {
    if |s| >= |sep| && s[..|sep|] != sep {
      IndexOfFirst(s[1..], sep);
      TailOccurrences(s, sep);
    }
  }

  /** The occurrences of `sep` in `s` are 0 (possibly) and those of `s[1..]` moved one on. */
  lemma TailOccurrences(s: string, sep: string)
    requires |s| > 0
    ensures forall k: nat :: OccursAt(s[1..], sep, k) <==> OccursAt(s, sep, k + 1)
    ensures forall k: nat :: 1 <= k ==> (OccursAt(s, sep, k) <==> OccursAt(s[1..], sep, k - 1))
  {
    forall k: nat ensures OccursAt(s[1..], sep, k) <==> OccursAt(s, sep, k + 1) {
      OccursAtTail(s, sep, k);
    }
    forall k: nat | 1 <= k ensures OccursAt(s, sep, k) <==> OccursAt(s[1..], sep, k - 1) {
      OccursAtTail(s, sep, k - 1);
    }
  }

  /** `sep` occurs somewhere in `s`. */
  predicate Contains(s: string, sep: string)
    requires |sep| > 0
  {
    IndexOf(s, sep).Some?
  }

  /** An occurrence anywhere means `Contains`. */
  lemma OccurrenceContains(s: string, sep: string, k: nat)
    requires |sep| > 0
    requires OccursAt(s, sep, k)
    ensures Contains(s, sep)
  {
    IndexOfFirst(s, sep);
  }

  /** `s.split(sep)` for a non-empty string separator. */
  function Split(s: string, sep: string): (r: seq<string>)
    requires |sep| > 0
    ensures |r| >= 1
    decreases |s|
  {
    match IndexOf(s, sep)
    case None => [s]
    case Some(k) => [s[..k]] + Split(s[k + |sep|..], sep)
  }

  /** `pieces.join(sep)`: the inverse of `Split`. */
  function Join(pieces: seq<string>, sep: string): string {
    if |pieces| == 0 then ""
    else if |pieces| == 1 then pieces[0]
    else pieces[0] + sep + Join(pieces[1..], sep)
  }

  /** The text of `s` before the first `sep`, or all of `s` when there is none. */
  function Before(s: string, sep: string): (r: string)
    requires |sep| > 0
    ensures r <= s
    ensures !Contains(r, sep)
    ensures Contains(s, sep) ==> OccursAt(s, sep, |r|)
  {
    match IndexOf(s, sep)
    case None => s
    case Some(k) => NoOccurrenceInPrefix(s, sep, k); s[..k]
  }

  /** The text of `s` after its first `sep`. */
  function After(s: string, sep: string): (r: string)
    requires |sep| > 0
    requires Contains(s, sep)
    ensures s == Before(s, sep) + sep + r
  {
    var k := IndexOf(s, sep).value;
    assert s == s[..k] + s[k..k + |sep|] + s[k + |sep|..];
    s[k + |sep|..]
  }

  /** A prefix of `s` ending before the first occurrence of `sep` holds no `sep`. */
  lemma NoOccurrenceInPrefix(s: string, sep: string, k: nat)
    requires |sep| > 0
    requires IndexOf(s, sep) == Some(k)
    ensures k <= |s|
    ensures !Contains(s[..k], sep)
  {
    IndexOfFirst(s, sep);
    if Contains(s[..k], sep) {
      var j := IndexOf(s[..k], sep).value;
      assert s[..k][j..j + |sep|] == s[j..j + |sep|];
      assert OccursAt(s, sep, j);
    }
  }

  /** The first piece is the text before the first separator; the others split what follows it. */
  lemma {:induction false} SplitFirst(s: string, sep: string)
    requires |sep| > 0
    ensures Split(s, sep)[0] == Before(s, sep)
    ensures !Contains(s, sep) ==> Split(s, sep) == [s]
    ensures Contains(s, sep) ==> Split(s, sep) == [Before(s, sep)] + Split(After(s, sep), sep)
  {
  }

  /**
   * The shape of `Split` as a caller reads it by index: a second piece
   * exists exactly when the separator occurs, the first piece is the text
   * before it, and the pieces from index 1 on split the text after it.
   */
  lemma SplitShape(s: string, sep: string)
    requires |sep| > 0
    ensures |Split(s, sep)| >= 2 <==> Contains(s, sep)
    ensures Split(s, sep)[0] == Before(s, sep)
    ensures Contains(s, sep) ==>
      && Split(s, sep)[1..] == Split(After(s, sep), sep)
      && Split(s, sep)[1] == Before(After(s, sep), sep)
  {
    SplitFirst(s, sep);
    if Contains(s, sep) {
      SplitFirst(After(s, sep), sep);
    }
  }

  /** Joining the pieces with the separator gives back the input. */
  lemma {:induction false} JoinSplit(s: string, sep: string)
    requires |sep| > 0
    ensures Join(Split(s, sep), sep) == s
    decreases |s|
  {
    match IndexOf(s, sep)
    case None =>
    case Some(k) =>
      var rest := s[k + |sep|..];
      var pieces := Split(rest, sep);
      JoinSplit(rest, sep);
      JoinCons(s[..k], pieces, sep);
      assert s == s[..k] + sep + rest;
  }

  /** Joining a piece in front of at least one other piece puts a separator between them. */
  lemma JoinCons(first: string, pieces: seq<string>, sep: string)
    requires |pieces| >= 1
    ensures Join([first] + pieces, sep) == first + sep + Join(pieces, sep)
  {
    assert ([first] + pieces)[1..] == pieces;
  }

  /** No piece contains the separator. */
  lemma {:induction false} SplitPiecesFree(s: string, sep: string)
    requires |sep| > 0
    ensures forall i :: 0 <= i < |Split(s, sep)| ==> !Contains(Split(s, sep)[i], sep)
    decreases |s|
  {
    match IndexOf(s, sep)
    case None =>
    case Some(k) =>
      SplitPiecesFree(s[k + |sep|..], sep);
      NoOccurrenceInPrefix(s, sep, k);
  }

  /** The number of `c` characters in `s`. */
  function Count(s: string, c: char): (n: nat)
    ensures n <= |s|
    ensures n == 0 <==> c !in s
  {
    if s == [] then 0
    else (if s[0] == c then 1 else 0) + Count(s[1..], c)
  }

  lemma {:induction false} CountAppend(a: string, b: string, c: char)
    ensures Count(a + b, c) == Count(a, c) + Count(b, c)
  {
    if a == [] {
      assert a + b == b;
    } else {
      assert (a + b)[1..] == a[1..] + b;
      CountAppend(a[1..], b, c);
    }
  }

  /** For a one-character separator, containing it is the same as holding that character. */
  lemma ContainsChar(s: string, c: char)
    ensures Contains(s, [c]) <==> c in s
  {
    if c in s {
      var k :| 0 <= k < |s| && s[k] == c;
      assert s[k..k + 1] == [c];
      assert OccursAt(s, [c], k);
      OccurrenceContains(s, [c], k);
    }
    if Contains(s, [c]) {
      var k := IndexOf(s, [c]).value;
      assert s[k..k + 1] == [c];
      assert s[k] == c;
    }
  }

  /** The characters `c` of `s` are its first one and those after it. */
  lemma CountAfterFirst(s: string, c: char)
    requires c in s
    ensures Contains(s, [c])
    ensures Count(s, c) == Count(After(s, [c]), c) + 1
  {
    ContainsChar(s, c);
    var before, after := Before(s, [c]), After(s, [c]);
    ContainsChar(before, c);
    CountAppend(before + [c], after, c);
    CountAppend(before, [c], c);
  }

  /** Splitting on one character gives one piece more than there are such characters. */
  lemma {:induction false} SplitCount(s: string, c: char)
    ensures |Split(s, [c])| == Count(s, c) + 1
    decreases |s|
  {
    match IndexOf(s, [c])
    case None =>
      ContainsChar(s, c);
    case Some(k) =>
      var rest := s[k + 1..];
      assert |Split(s, [c])| == 1 + |Split(rest, [c])|;
      SplitCount(rest, c);
      assert Count(s[..k], c) == 0 by {
        NoOccurrenceInPrefix(s, [c], k);
        ContainsChar(s[..k], c);
      }
      assert s == s[..k] + [c] + rest by {
        assert s[k..k + 1] == [c];
      }
      CountAppend(s[..k] + [c], rest, c);
      CountAppend(s[..k], [c], c);
  }

  /**
   * For a one-character separator the pieces are determined: any pieces
   * free of `c` that join to `s` are `Split(s, [c])`.
   */
  lemma {:induction false} SplitJoin(pieces: seq<string>, c: char)
    requires |pieces| >= 1
    requires forall i :: 0 <= i < |pieces| ==> c !in pieces[i]
    ensures Split(Join(pieces, [c]), [c]) == pieces
  {
    var s := Join(pieces, [c]);
    ContainsChar(pieces[0], c);
    if |pieces| == 1 {
    } else {
      var m := |pieces[0]|;
      var tail := Join(pieces[1..], [c]);
      assert s == pieces[0] + [c] + tail;
      assert OccursAt(s, [c], m);
      OccurrenceContains(s, [c], m);
      IndexOfFirst(s, [c]);
      forall j: nat | j < m ensures !OccursAt(s, [c], j) {
        assert s[j] == pieces[0][j];
        assert s[j..j + 1] == [s[j]];
      }
      var k := IndexOf(s, [c]).value;
      assert k == m;
      assert s[..k] == pieces[0];
      assert s[k + 1..] == tail;
      SplitJoin(pieces[1..], c);
      assert Split(s, [c]) == [pieces[0]] + Split(tail, [c]);
      assert pieces == [pieces[0]] + pieces[1..];
    }
  }
}
