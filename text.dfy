/**
 * Splitting a string on a single separator character, with the behaviour of
 * Rust's `str::split(char)`: every occurrence of the separator ends one piece
 * and starts the next, so empty pieces appear at either end and between
 * adjacent separators, and a string with k separators has k + 1 pieces.
 */
module Text {

  /** The pieces of `s` between occurrences of `sep`, in order. */
  function Split(s: string, sep: char): (pieces: seq<string>)
    ensures |pieces| >= 1
  {
    if s == [] then [[]]
    else
      var init := Split(s[..|s| - 1], sep);
      if s[|s| - 1] == sep then init + [[]]
      else init[..|init| - 1] + [init[|init| - 1] + [s[|s| - 1]]]
  }

  /** The number of occurrences of `c` in `s`. */
  function Count(s: string, c: char): nat
  {
    if s == [] then 0
    else Count(s[..|s| - 1], c) + (if s[|s| - 1] == c then 1 else 0)
  }

  /** The pieces glued back together with `sep` between neighbours. */
  function Join(pieces: seq<string>, sep: char): string
  {
    if pieces == [] then []
    else if |pieces| == 1 then pieces[0]
    else Join(pieces[..|pieces| - 1], sep) + [sep] + pieces[|pieces| - 1]
  }

  /** There is one more piece than there are separators. */
  lemma {:induction false} SplitCount(s: string, sep: char)
    ensures |Split(s, sep)| == Count(s, sep) + 1
  {
    if s != [] {
      SplitCount(s[..|s| - 1], sep);
    }
  }

  /** No piece contains the separator. */
  lemma {:induction false} SplitPiecesFree(s: string, sep: char)
    ensures forall i :: 0 <= i < |Split(s, sep)| ==> sep !in Split(s, sep)[i]
  {
    if s != [] {
      SplitPiecesFree(s[..|s| - 1], sep);
    }
  }

  /** Adding an empty piece adds one separator. */
  lemma JoinAppendEmpty(ps: seq<string>, sep: char)
    requires |ps| >= 1
    ensures Join(ps + [[]], sep) == Join(ps, sep) + [sep]
  {
    assert (ps + [[]])[..|ps|] == ps;
  }

  /** Extending the last piece extends the joined string. */
  lemma JoinExtendLast(ps: seq<string>, c: char, sep: char)
    requires |ps| >= 1
    ensures Join(ps[..|ps| - 1] + [ps[|ps| - 1] + [c]], sep) == Join(ps, sep) + [c]
  {
    var n := |ps|;
    var qs := ps[..n - 1] + [ps[n - 1] + [c]];
    if n > 1 {
      assert qs[..n - 1] == ps[..n - 1];
    }
  }

  /** Joining the pieces with the separator gives back the string. */
  lemma {:induction false} SplitJoin(s: string, sep: char)
    ensures Join(Split(s, sep), sep) == s
  {
    if s != [] {
      var init := s[..|s| - 1];
      var last := s[|s| - 1];
      SplitJoin(init, sep);
      assert s == init + [last];
      if last == sep {
        JoinAppendEmpty(Split(init, sep), sep);
      } else {
        JoinExtendLast(Split(init, sep), last, sep);
      }
    }
  }

  /** Appending a tail free of the separator extends the last piece only. */
  lemma {:induction false} SplitAppendFree(s: string, w: string, sep: char)
    requires sep !in w
    ensures var ps := Split(s, sep);
            Split(s + w, sep) == ps[..|ps| - 1] + [ps[|ps| - 1] + w]
    decreases |w|
  {
    var ps := Split(s, sep);
    if w == [] {
      assert s + w == s;
      assert ps[|ps| - 1] + w == ps[|ps| - 1];
      assert ps[..|ps| - 1] + [ps[|ps| - 1]] == ps;
    } else {
      var v := w[..|w| - 1];
      assert v + [w[|w| - 1]] == w;
      SplitAppendFree(s, v, sep);
      assert (s + w)[..|s + w| - 1] == s + v;
      var qs := Split(s + v, sep);
      assert qs == ps[..|ps| - 1] + [ps[|ps| - 1] + v];
      assert qs[..|qs| - 1] == ps[..|ps| - 1];
      assert qs[|qs| - 1] + [w[|w| - 1]] == ps[|ps| - 1] + w;
    }
  }

  /** Appending the separator starts a new, empty piece. */
  lemma SplitAppendSep(s: string, sep: char)
    ensures Split(s + [sep], sep) == Split(s, sep) + [[]]
  {
    assert (s + [sep])[..|s|] == s;
  }

  /** A string with no separator is a single piece. */
  lemma SplitFree(w: string, sep: char)
    requires sep !in w
    ensures Split(w, sep) == [w]
  {
    SplitAppendFree([], w, sep);
    assert [] + w == w;
  }

  /** Two separator-free strings joined by one separator split back into the two. */
  lemma SplitAround(a: string, b: string, sep: char)
    requires sep !in a && sep !in b
    ensures Split(a + [sep] + b, sep) == [a, b]
  {
    SplitFree(a, sep);
    SplitAppendSep(a, sep);
    var ps := Split(a + [sep], sep);
    assert ps == [a, []];
    SplitAppendFree(a + [sep], b, sep);
    assert ps[1] + b == b;
    assert ps[..1] == [a];
  }

  /** After a separator, a separator-free word and one more separator add that word as a piece and start an empty one. */
  lemma SplitAppendPiece(s: string, w: string, sep: char)
    requires sep !in w
    requires Split(s, sep)[|Split(s, sep)| - 1] == []
    ensures var ps := Split(s, sep);
            Split(s + w + [sep], sep) == ps[..|ps| - 1] + [w] + [[]]
  {
    var ps := Split(s, sep);
    SplitAppendFree(s, w, sep);
    assert ps[|ps| - 1] + w == w;
    SplitAppendSep(s + w, sep);
  }
}
