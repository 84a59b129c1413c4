/** The pieces of `java.lang.String` the dictionary parser relies on:
    `trim()` and `split(" ")`, with a single-space join as their reference. */
module JavaStrings {

  /** `trim()` drops every character at or below U+0020 from both ends. */
  predicate Blank(c: char) {
    c <= ' '
  }

  function TrimLeft(s: string): (r: string)
    ensures |r| <= |s| && r == s[|s| - |r|..]
    ensures |r| > 0 ==> !Blank(r[0])
    ensures forall k :: 0 <= k < |s| - |r| ==> Blank(s[k])
  {
    if |s| > 0 && Blank(s[0]) then TrimLeft(s[1..]) else s
  }

  function TrimRight(s: string): (r: string)
    ensures |r| <= |s| && r == s[..|r|]
    ensures |r| > 0 ==> !Blank(r[|r| - 1])
    ensures forall k :: |r| <= k < |s| ==> Blank(s[k])
  {
    if |s| > 0 && Blank(s[|s| - 1]) then TrimRight(s[..|s| - 1]) else s
  }

  /** `s.trim()`. */
  function Trim(s: string): (r: string)
  {
    TrimRight(TrimLeft(s))
  }

  /** A string `trim()` leaves alone: empty, or non-blank at both ends. */
  predicate Trimmed(s: string) {
    |s| == 0 || (!Blank(s[0]) && !Blank(s[|s| - 1]))
  }

  /** `trim()` removes exactly the blank ends: its result is trimmed, sits
      inside `s`, and everything cut away is blank. */
  lemma TrimSpec(s: string)
    ensures Trimmed(Trim(s))
    ensures exists a, b :: 0 <= a <= b <= |s| && Trim(s) == s[a..b]
              && (forall k :: 0 <= k < a ==> Blank(s[k]))
              && (forall k :: b <= k < |s| ==> Blank(s[k]))
  {
    var l := TrimLeft(s);
    var a := |s| - |l|;
    var r := TrimRight(l);
    assert r == s[a..a + |r|];
    forall k | a + |r| <= k < |s|
      ensures Blank(s[k])
    {
      assert s[k] == l[k - a];
    }
  }

  /** Trimming is idempotent. */
  lemma TrimIdempotent(s: string)
    ensures Trim(Trim(s)) == Trim(s)
  {
    TrimSpec(s);
    TrimmedUnchanged(Trim(s));
  }

  lemma TrimmedUnchanged(s: string)
    requires Trimmed(s)
    ensures Trim(s) == s
  {
  }

  /** Blank padding around a trimmed string is what `trim()` removes. */
  lemma TrimPadded(pre: string, s: string, post: string)
    requires forall k :: 0 <= k < |pre| ==> Blank(pre[k])
    requires forall k :: 0 <= k < |post| ==> Blank(post[k])
    requires |s| > 0 && Trimmed(s)
    ensures Trim(pre + s + post) == s
  {
    var tail := s + post;
    TrimLeftPadded(pre, tail);
    ConcatAssoc(pre, s, post);
    TrimRightPadded(s, post);
  }

  lemma ConcatAssoc(a: string, b: string, c: string)
    ensures a + b + c == a + (b + c)
  {
  }

  lemma {:induction false} TrimLeftPadded(pre: string, s: string)
    requires forall k :: 0 <= k < |pre| ==> Blank(pre[k])
    requires |s| > 0 && !Blank(s[0])
    ensures TrimLeft(pre + s) == s
    decreases |pre|
  {
    if |pre| == 0 {
      assert pre + s == s;
    } else {
      assert (pre + s)[1..] == pre[1..] + s;
      TrimLeftPadded(pre[1..], s);
    }
  }

  lemma {:induction false} TrimRightPadded(s: string, post: string)
    requires forall k :: 0 <= k < |post| ==> Blank(post[k])
    requires |s| > 0 && !Blank(s[|s| - 1])
    ensures TrimRight(s + post) == s
    decreases |post|
  {
    if |post| == 0 {
      assert s + post == s;
    } else {
      assert (s + post)[..|s + post| - 1] == s + post[..|post| - 1];
      TrimRightPadded(s, post[..|post| - 1]);
    }
  }

  // ---------------------------------------------------------------------
  // Splitting on a single space

  /** The index of the first occurrence of `c`. */
  function IndexOf(s: string, c: char): (r: int)
    ensures -1 <= r < |s|
    ensures r >= 0 ==> s[r] == c && forall k :: 0 <= k < r ==> s[k] != c
    ensures r < 0 <==> c !in s
  {
    if |s| == 0 then -1
    else if s[0] == c then 0
    else
      var k := IndexOf(s[1..], c);
      if k < 0 then -1 else k + 1
  }

  /** Every piece between single spaces, empty pieces included. */
  function Pieces(s: string): (ps: seq<string>)
    ensures |ps| > 0
    decreases |s|
  {
    var i := IndexOf(s, ' ');
    if i < 0 then [s] else [s[..i]] + Pieces(s[i + 1..])
  }

  /** No piece holds a space. */
  lemma {:induction false} PiecesSpaceFree(s: string)
    ensures forall i :: 0 <= i < |Pieces(s)| ==> ' ' !in Pieces(s)[i]
    decreases |s|
  {
    var i := IndexOf(s, ' ');
    if i >= 0 {
      var w := s[..i];
      assert ' ' !in w by {
        assert forall k :: 0 <= k < |w| ==> w[k] == s[k];
      }
      PiecesSpaceFree(s[i + 1..]);
      assert Pieces(s) == [w] + Pieces(s[i + 1..]);
    }
  }

  /** `String.join(" ", ws)`. */
  function Join(ws: seq<string>): string
  {
    if |ws| == 0 then ""
    else if |ws| == 1 then ws[0]
    else ws[0] + " " + Join(ws[1..])
  }

  /** Dropping the trailing empty strings, as `split` does. */
  function DropTrailingEmpty(ps: seq<string>): (r: seq<string>)
    ensures |r| <= |ps| && r == ps[..|r|]
    ensures |r| > 0 ==> r[|r| - 1] != ""
    ensures forall k :: |r| <= k < |ps| ==> ps[k] == ""
  {
    if |ps| > 0 && ps[|ps| - 1] == "" then DropTrailingEmpty(ps[..|ps| - 1]) else ps
  }

  /** `s.split(" ")`: the string itself when there is no space, otherwise the
      pieces without trailing empty ones. */
  function Split(s: string): seq<string>
  {
    if ' ' !in s then [s] else DropTrailingEmpty(Pieces(s))
  }

  /** Joining the pieces gives the string back. */
  lemma {:induction false} JoinPieces(s: string)
    ensures Join(Pieces(s)) == s
    decreases |s|
  {
    var i := IndexOf(s, ' ');
    if i >= 0 {
      JoinPieces(s[i + 1..]);
      assert s == s[..i] + " " + s[i + 1..];
    }
  }

  /** Splitting a join of space-free words gives the words back. */
  lemma {:induction false} PiecesJoin(ws: seq<string>)
    requires |ws| > 0
    requires forall i :: 0 <= i < |ws| ==> ' ' !in ws[i]
    ensures Pieces(Join(ws)) == ws
    decreases |ws|
  {
    if |ws| > 1 {
      var w := ws[0];
      var tail := Join(ws[1..]);
      var rest := " " + tail;
      ConcatAssoc(w, " ", tail);
      assert Join(ws) == w + rest;
      IndexOfAfter(w, rest);
      PiecesSplitAt(w, tail);
      PiecesJoin(ws[1..]);
      assert ws == [w] + ws[1..];
    } else {
      assert IndexOf(ws[0], ' ') < 0;
    }
  }

  /** Where the first space follows a space-free word, the first piece is
      that word. */
  lemma PiecesSplitAt(w: string, tail: string)
    requires ' ' !in w
    ensures Pieces(w + " " + tail) == [w] + Pieces(tail)
  {
    var s := w + " " + tail;
    ConcatAssoc(w, " ", tail);
    IndexOfAfter(w, " " + tail);
    assert s[..|w|] == w;
    assert s[|w| + 1..] == tail;
  }

  lemma IndexOfAfter(w: string, rest: string)
    requires ' ' !in w
    requires |rest| > 0 && rest[0] == ' '
    ensures IndexOf(w + rest, ' ') == |w|
  {
    var s := w + rest;
    assert s[|w|] == ' ';
    assert forall k :: 0 <= k < |w| ==> s[k] == w[k];
  }

  /** The last piece of a string that does not end in a space is not empty. */
  lemma {:induction false} LastPieceNonEmpty(s: string)
    requires |s| > 0 && s[|s| - 1] != ' '
    ensures Pieces(s)[|Pieces(s)| - 1] != ""
    decreases |s|
  {
    var i := IndexOf(s, ' ');
    if i >= 0 {
      LastPieceNonEmpty(s[i + 1..]);
    }
  }

  /** On a trimmed string, `split(" ")` keeps every piece, so joining the
      split gives the string back. */
  lemma SplitTrimmed(s: string)
    requires Trimmed(s)
    ensures Split(s) == Pieces(s)
    ensures Join(Split(s)) == s
    ensures s == "" ==> Split(s) == [""]
  {
    if ' ' in s {
      LastPieceNonEmpty(s);
    } else {
      assert IndexOf(s, ' ') < 0;
    }
    JoinPieces(s);
  }

  /** Space-free, non-blank-ended words survive a join, a trim and a split. */
  lemma SplitJoin(ws: seq<string>)
    requires |ws| > 0
    requires forall i :: 0 <= i < |ws| ==> ' ' !in ws[i]
    requires Trimmed(Join(ws))
    ensures Split(Trim(Join(ws))) == ws
  {
    TrimmedUnchanged(Join(ws));
    SplitTrimmed(Join(ws));
    PiecesJoin(ws);
  }
}
