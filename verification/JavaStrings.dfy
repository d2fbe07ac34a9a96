/**
 * The pieces of java.lang.String and java.lang.Character behaviour that the
 * pseudocode converter relies on: Character.isWhitespace, String.replace on
 * characters, String.split with a one-character separator, and joining with
 * a separator (what a StringBuilder loop with a trailing separator produces
 * once the last character is deleted).
 */
module JavaStrings {

  /** Character.isWhitespace: the Unicode space, line and paragraph separators
      other than the no-break spaces (U+00A0, U+2007, U+202F), plus TAB, LF,
      VT, FF, CR and the four information separators U+001C..U+001F. */
  predicate IsWhitespace(c: char) {
    || c == ' ' || c == '\t' || c == '\n' || c == '\U{000B}' || c == '\U{000C}' || c == '\r'
    || ('\U{001C}' <= c <= '\U{001F}')
    || c == '\U{1680}'
    || ('\U{2000}' <= c <= '\U{200A}' && c != '\U{2007}')
    || c == '\U{2028}' || c == '\U{2029}' || c == '\U{205F}' || c == '\U{3000}'
  }

  /** String.replace(from, to): every occurrence of `from` becomes `to`,
      every other character stays where it is. */
  function Replace(s: string, from: char, to: char): (r: string)
    ensures |r| == |s|
    ensures forall k :: 0 <= k < |s| ==> r[k] == (if s[k] == from then to else s[k])
  {
    if s == [] then [] else [if s[0] == from then to else s[0]] + Replace(s[1..], from, to)
  }

  /** The pieces of `s` between occurrences of `sep`, empty pieces included. */
  function Pieces(s: string, sep: char): (r: seq<string>)
    ensures |r| >= 1
  {
    if s == [] then [[]]
    else
      var rest := Pieces(s[1..], sep);
      if s[0] == sep then [[]] + rest
      else [[s[0]] + rest[0]] + rest[1..]
  }

  /** The pieces separated by `sep`, with no separator before the first piece
      or after the last. */
  function JoinWith(ps: seq<string>, sep: char): string
  {
    if |ps| == 0 then []
    else if |ps| == 1 then ps[0]
    else JoinWith(ps[..|ps| - 1], sep) + [sep] + ps[|ps| - 1]
  }

  /** Every piece followed by `sep`, as a loop of `append(p).append(sep)` leaves it. */
  function Terminated(ps: seq<string>, sep: char): string
  {
    if ps == [] then [] else Terminated(ps[..|ps| - 1], sep) + ps[|ps| - 1] + [sep]
  }

  /** Drops the empty pieces at the end, as String.split(regex) does with limit 0. */
  function DropTrailingEmpty(ps: seq<string>): seq<string>
  {
    if ps == [] || ps[|ps| - 1] != [] then ps else DropTrailingEmpty(ps[..|ps| - 1])
  }

  /** String.split(sep) for a separator that is not a regular-expression
      metacharacter: the whole string when `sep` does not occur, otherwise the
      pieces with the trailing empty ones removed. */
  function Split(s: string, sep: char): seq<string>
  {
    if sep !in s then [s] else DropTrailingEmpty(Pieces(s, sep))
  }

  /** No piece holds the separator. */
  lemma {:induction false} PiecesHaveNoSep(s: string, sep: char)
    ensures forall i :: 0 <= i < |Pieces(s, sep)| ==> sep !in Pieces(s, sep)[i]
  {
    if s != [] {
      PiecesHaveNoSep(s[1..], sep);
      var rest := Pieces(s[1..], sep);
      if s[0] != sep {
        assert sep !in [s[0]] + rest[0];
        assert forall i :: 1 <= i < |rest| ==> rest[1..][i - 1] == rest[i];
      }
    }
  }

  /** Dropping the trailing empty pieces keeps a prefix that is empty or ends
      in a non-empty piece, and everything dropped is empty. */
  lemma {:induction false} DropTrailingEmptyKeeps(ps: seq<string>)
    ensures DropTrailingEmpty(ps) <= ps
    ensures DropTrailingEmpty(ps) == [] || DropTrailingEmpty(ps)[|DropTrailingEmpty(ps)| - 1] != []
    ensures forall i :: |DropTrailingEmpty(ps)| <= i < |ps| ==> ps[i] == []
  {
    if ps != [] && ps[|ps| - 1] == [] {
      DropTrailingEmptyKeeps(ps[..|ps| - 1]);
    }
  }

  /** No token of String.split contains the separator. */
  lemma SplitHasNoSep(s: string, sep: char)
    ensures forall i :: 0 <= i < |Split(s, sep)| ==> sep !in Split(s, sep)[i]
  {
    if sep in s {
      PiecesHaveNoSep(s, sep);
      DropTrailingEmptyKeeps(Pieces(s, sep));
      var ps := Pieces(s, sep);
      var r := DropTrailingEmpty(ps);
      assert forall i :: 0 <= i < |r| ==> r[i] == ps[i];
    }
  }

  lemma {:induction false} JoinCons(p: string, ps: seq<string>, sep: char)
    requires |ps| >= 1
    ensures JoinWith([p] + ps, sep) == p + [sep] + JoinWith(ps, sep)
    decreases |ps|
  {
    if |ps| == 1 {
      assert ([p] + ps)[..1] == [p];
    } else {
      var qs := [p] + ps;
      assert qs[..|qs| - 1] == [p] + ps[..|ps| - 1];
      JoinCons(p, ps[..|ps| - 1], sep);
    }
  }

  /** A separator-free string is a single piece. */
  lemma {:induction false} PiecesNoSep(s: string, sep: char)
    requires sep !in s
    ensures Pieces(s, sep) == [s]
  {
    if s != [] {
      PiecesNoSep(s[1..], sep);
      assert [s[0]] + s[1..] == s;
    }
  }

  /** The first piece ends at the first separator. */
  lemma {:induction false} PiecesAppend(a: string, b: string, sep: char)
    requires sep !in a
    ensures Pieces(a + [sep] + b, sep) == [a] + Pieces(b, sep)
  {
    if a == [] {
      assert a + [sep] + b == [sep] + b;
      assert ([sep] + b)[1..] == b;
    } else {
      PiecesAppend(a[1..], b, sep);
      assert (a + [sep] + b)[1..] == a[1..] + [sep] + b;
      assert [a[0]] + a[1..] == a;
    }
  }

  /** Splitting a joined list recovers the pieces, provided none holds the separator. */
  lemma {:induction false} PiecesOfJoin(ps: seq<string>, sep: char)
    requires |ps| >= 1
    requires forall i :: 0 <= i < |ps| ==> sep !in ps[i]
    ensures Pieces(JoinWith(ps, sep), sep) == ps
    decreases |ps|
  {
    if |ps| == 1 {
      PiecesNoSep(ps[0], sep);
    } else {
      JoinCons(ps[0], ps[1..], sep);
      assert [ps[0]] + ps[1..] == ps;
      PiecesAppend(ps[0], JoinWith(ps[1..], sep), sep);
      PiecesOfJoin(ps[1..], sep);
    }
  }

  /** Joining the pieces of a string gives the string back. */
  lemma {:induction false} JoinOfPieces(s: string, sep: char)
    ensures JoinWith(Pieces(s, sep), sep) == s
  {
    if s != [] {
      var rest := Pieces(s[1..], sep);
      JoinOfPieces(s[1..], sep);
      assert [s[0]] + s[1..] == s;
      if s[0] == sep {
        assert Pieces(s, sep) == [[]] + rest;
        JoinCons([], rest, sep);
        assert [] + [sep] + s[1..] == s;
      } else if |rest| == 1 {
        assert Pieces(s, sep) == [[s[0]] + rest[0]];
      } else {
        assert Pieces(s, sep) == [[s[0]] + rest[0]] + rest[1..];
        JoinGlued(s[0], rest, sep);
      }
    }
  }

  /** Gluing a character onto the first piece puts it in front of the join. */
  lemma JoinGlued(c: char, rest: seq<string>, sep: char)
    requires |rest| >= 2
    ensures JoinWith([[c] + rest[0]] + rest[1..], sep) == [c] + JoinWith(rest, sep)
  {
    var q := rest[1..];
    JoinCons([c] + rest[0], q, sep);
    JoinCons(rest[0], q, sep);
    assert [rest[0]] + q == rest;
    assert ([c] + rest[0]) + [sep] + JoinWith(q, sep) == [c] + (rest[0] + [sep] + JoinWith(q, sep));
  }

  /** Two or more pieces joined always contain the separator. */
  lemma JoinHasSep(ps: seq<string>, sep: char)
    requires |ps| >= 2
    ensures sep in JoinWith(ps, sep)
  {
    var pre := JoinWith(ps[..|ps| - 1], sep);
    assert JoinWith(ps, sep) == pre + [sep] + ps[|ps| - 1];
    assert JoinWith(ps, sep)[|pre|] == sep;
  }

  /** String.split inverts joining when no piece holds the separator and the
      last piece is not empty. */
  lemma SplitOfJoin(ps: seq<string>, sep: char)
    requires |ps| >= 1
    requires forall i :: 0 <= i < |ps| ==> sep !in ps[i]
    requires ps[|ps| - 1] != []
    ensures Split(JoinWith(ps, sep), sep) == ps
  {
    if |ps| >= 2 {
      JoinHasSep(ps, sep);
      PiecesOfJoin(ps, sep);
    }
  }

  /** The StringBuilder idiom: appending `p` and `sep` for every piece and then
      deleting the last character gives the pieces joined by `sep`. */
  lemma {:induction false} TerminatedIsJoinPlusSep(ps: seq<string>, sep: char)
    requires |ps| >= 1
    ensures Terminated(ps, sep) == JoinWith(ps, sep) + [sep]
    decreases |ps|
  {
    if |ps| == 1 {
      assert ps[..0] == [];
    } else {
      TerminatedIsJoinPlusSep(ps[..|ps| - 1], sep);
    }
  }
}
