/**
 * Per-line text operations of the converter: the indentation scan
 * (`getWhitespace`) and the final cleanup of every line.
 */
module LineText {
  import opened JavaStrings

  /** What getWhitespace returns for a line with no visible character. */
  const NoIndent: string := "non"

  /** A line made only of whitespace (the empty line included). */
  predicate IsBlank(s: string) {
    forall k :: 0 <= k < |s| ==> IsWhitespace(s[k])
  }

  /** Length of the longest all-whitespace prefix of `s`. */
  function WhitespaceRun(s: string): (n: nat)
    ensures n <= |s|
  {
    if s == [] || !IsWhitespace(s[0]) then 0 else 1 + WhitespaceRun(s[1..])
  }

  /** The run is all whitespace and stops at a visible character or at the
      end of the line. */
  lemma {:induction false} WhitespaceRunSpec(s: string)
    ensures forall k :: 0 <= k < WhitespaceRun(s) ==> IsWhitespace(s[k])
    ensures WhitespaceRun(s) < |s| ==> !IsWhitespace(s[WhitespaceRun(s)])
  {
    if s != [] && IsWhitespace(s[0]) {
      WhitespaceRunSpec(s[1..]);
      assert forall k :: 1 <= k < |s| ==> s[1..][k - 1] == s[k];
    }
  }

  /** The run is determined by its defining property. */
  lemma {:induction false} WhitespaceRunIs(s: string, n: nat)
    requires n <= |s|
    requires forall k :: 0 <= k < n ==> IsWhitespace(s[k])
    requires n < |s| ==> !IsWhitespace(s[n])
    ensures WhitespaceRun(s) == n
  {
    if n > 0 {
      assert forall k :: 0 <= k < n - 1 ==> s[1..][k] == s[k + 1];
      WhitespaceRunIs(s[1..], n - 1);
    }
  }

  /** The indentation getWhitespace reports: the whitespace before the first
      visible character, or "non" when the line has none. */
  function Indent(s: string): string
  {
    var n := WhitespaceRun(s);
    if n < |s| then s[..n] else NoIndent
  }

  /** A blank line has the indentation "non"; any other line has as
      indentation a blank prefix followed by a visible character. */
  lemma IndentSpec(s: string)
    ensures IsBlank(s) ==> Indent(s) == NoIndent
    ensures !IsBlank(s) ==>
      |Indent(s)| < |s| && Indent(s) == s[..|Indent(s)|] && IsBlank(Indent(s))
      && !IsWhitespace(s[|Indent(s)|])
  {
    WhitespaceRunSpec(s);
    var n := WhitespaceRun(s);
    if n < |s| {
      assert forall k :: 0 <= k < n ==> s[..n][k] == s[k];
    }
  }

  /** What an indentation can be: "non", or whitespace only. */
  lemma IndentIsBlankOrNon(s: string)
    ensures Indent(s) == NoIndent || IsBlank(Indent(s))
  {
    IndentSpec(s);
  }

  /** getWhitespace: scans for the first non-whitespace character and returns
      what precedes it. */
  method GetWhitespace(s: string) returns (r: string)
    ensures r == Indent(s)
  {
    for i := 0 to |s|
      invariant forall k :: 0 <= k < i ==> IsWhitespace(s[k])
    {
      if !IsWhitespace(s[i]) {
        WhitespaceRunIs(s, i);
        return s[..i];
      }
    }
    WhitespaceRunIs(s, |s|);
    return NoIndent;
  }

  /** Cleanup of one line: a non-empty line loses one trailing ';', then every
      '{' and '}' becomes a space. */
  function CleanLine(s: string): (r: string)
    ensures s == [] ==> r == []
    ensures |r| == if s != [] && s[|s| - 1] == ';' then |s| - 1 else |s|
    ensures forall k :: 0 <= k < |r| ==> r[k] == (if s[k] == '{' || s[k] == '}' then ' ' else s[k])
    ensures '{' !in r && '}' !in r
  {
    if s == [] then s
    else
      var t := if s[|s| - 1] == ';' then s[..|s| - 1] else s;
      Replace(Replace(t, '{', ' '), '}', ' ')
  }

  /** The cleanup pass over a whole buffer. */
  function Cleanup(lines: seq<string>): (r: seq<string>)
    ensures |r| == |lines|
  {
    seq(|lines|, i requires 0 <= i < |lines| => CleanLine(lines[i]))
  }

  /** Cleanup cleans every line on its own. */
  lemma CleanupAt(lines: seq<string>, i: int)
    requires 0 <= i < |lines|
    ensures Cleanup(lines)[i] == CleanLine(lines[i])
  {
  }

  /** The cleanup loop, rewriting each line of the buffer in place. */
  method CleanupLines(a: array<string>)
    modifies a
    ensures a[..] == Cleanup(old(a[..]))
  {
    for i := 0 to a.Length
      invariant forall k :: 0 <= k < i ==> a[k] == CleanLine(old(a[k]))
      invariant forall k :: i <= k < a.Length ==> a[k] == old(a[k])
    {
      var line := a[i];
      if line == [] {
        continue;
      }
      if line[|line| - 1] == ';' {
        line := line[..|line| - 1];
      }
      line := Replace(Replace(line, '{', ' '), '}', ' ');
      a[i] := line;
    }
  }

  /** Cleaning a cleaned line changes it again exactly when the first cleaning
      left a ';' at its end. */
  lemma CleanTwiceIff(s: string)
    ensures CleanLine(CleanLine(s)) == CleanLine(s)
        <==> (CleanLine(s) == [] || CleanLine(s)[|CleanLine(s)| - 1] != ';')
  {
    var r := CleanLine(s);
    if r != [] && r[|r| - 1] == ';' {
      assert |CleanLine(r)| == |r| - 1;
    } else {
      assert CleanLine(r) == r;
    }
  }

  /** So cleanup is not idempotent: "x;;" becomes "x;" and then "x". */
  lemma CleanNotIdempotent()
    ensures CleanLine("x;;") == "x;"
    ensures CleanLine(CleanLine("x;;")) == "x"
  {
    assert CleanLine("x;;") == "x;";
    assert CleanLine("x;") == "x";
  }

  /** The indentation is determined by its defining property: a whitespace
      prefix followed by a visible character. */
  lemma IndentUnique(s: string, w: string)
    requires |w| < |s| && s[..|w|] == w && IsBlank(w) && !IsWhitespace(s[|w|])
    ensures Indent(s) == w
  {
    assert forall k :: 0 <= k < |w| ==> s[k] == w[k];
    WhitespaceRunIs(s, |w|);
  }

  /** A replacement line built as indentation followed by a visible character
      reports that same indentation. */
  lemma IndentOfPrefixed(w: string, t: string)
    requires IsBlank(w)
    requires t != [] && !IsWhitespace(t[0])
    ensures WhitespaceRun(w + t) == |w| && Indent(w + t) == w
  {
    assert (w + t)[..|w|] == w;
    assert (w + t)[|w|] == t[0];
    IndentUnique(w + t, w);
  }

  /** Cleaning keeps the indentation of a line that has a visible character,
      when that character is not a brace and is not a lone final ';'. */
  lemma CleanKeepsIndent(s: string)
    requires WhitespaceRun(s) < |s|
    requires s[WhitespaceRun(s)] != '{' && s[WhitespaceRun(s)] != '}'
    requires WhitespaceRun(s) < |s| - 1 || s[|s| - 1] != ';'
    ensures Indent(CleanLine(s)) == Indent(s)
  {
    var n := WhitespaceRun(s);
    RunHasNoBrace(s);
    CleanKeepsPrefix(s, n);
    IndentOfAgreeing(CleanLine(s), s, n);
  }

  /** The whitespace run of a line holds no brace. */
  lemma RunHasNoBrace(s: string)
    ensures forall k :: 0 <= k < WhitespaceRun(s) ==> s[k] != '{' && s[k] != '}'
  {
    WhitespaceRunSpec(s);
    forall k | 0 <= k < WhitespaceRun(s)
      ensures s[k] != '{' && s[k] != '}'
    {
      WhitespaceNotBrace(s[k]);
    }
  }

  /** Braces are not whitespace. */
  lemma WhitespaceNotBrace(c: char)
    requires IsWhitespace(c)
    ensures c != '{' && c != '}'
  {
  }

  /** Two lines that agree up to and including the first visible character
      of one of them have the same indentation. */
  lemma IndentOfAgreeing(r: string, s: string, n: nat)
    requires n < |r| && n < |s| && WhitespaceRun(s) == n
    requires forall k :: 0 <= k <= n ==> r[k] == s[k]
    ensures Indent(r) == Indent(s)
  {
    WhitespaceRunSpec(s);
    WhitespaceRunIs(r, n);
    assert r[..n] == s[..n];
  }

  /** Cleaning leaves the characters up to index n alone when none of them
      is a brace and the line goes on after index n. */
  lemma CleanKeepsPrefix(s: string, n: nat)
    requires n < |s| && (n < |s| - 1 || s[|s| - 1] != ';')
    requires forall k :: 0 <= k < n ==> s[k] != '{' && s[k] != '}'
    requires s[n] != '{' && s[n] != '}'
    ensures n < |CleanLine(s)|
    ensures forall k :: 0 <= k <= n ==> CleanLine(s)[k] == s[k]
  {
  }

  /** A line with no brace and no final ';' comes out of cleanup unchanged. */
  lemma CleanUnchanged(s: string)
    requires '{' !in s && '}' !in s
    requires s == [] || s[|s| - 1] != ';'
    ensures CleanLine(s) == s
  {
    var r := CleanLine(s);
    assert |r| == |s|;
    forall k | 0 <= k < |s|
      ensures r[k] == s[k]
    {
      assert s[k] != '{' && s[k] != '}';
    }
  }
}
