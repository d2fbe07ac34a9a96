/**
 * Worked examples of the conversion on small, concrete inputs.
 */
module Scenarios {
  import opened JavaStrings
  import opened Spans
  import opened LineText
  import opened Rewrite

  /** The `for` heuristics on the usual shape `for (T v = lo; v op bound; ...)`:
      the printed initialiser "T v = lo" and condition "v op bound" give the
      header "for T v = lo to bound" and the footer "next v". */
  lemma ForLoopText(ty: string, v: string, lo: string, op: string, bound: string)
    requires ty != [] && v != [] && lo != [] && op != [] && bound != []
    requires ' ' !in ty && ' ' !in v && ' ' !in lo && ' ' !in op && ' ' !in bound
    ensures var s := ForStmt(1, 2, [JoinWith([ty, v, "=", lo], ' ')], Some(JoinWith([v, op, bound], ' ')));
      && Printable(s)
      && HeaderText(s) == "for " + JoinWith([ty, v, "=", lo], ' ') + " to " + bound
      && FooterText(s) == "next " + v
  {
    SplitOfJoin([v, op, bound], ' ');
    SplitOfJoin([ty, v, "=", lo], ' ');
  }

  /** A `for` whose condition is a single token, or that has no condition,
      has no bound to copy, so the source fails on it. */
  lemma OneTokenConditionNotPrintable(b: nat, e: nat, init: seq<string>, c: string)
    requires ' ' !in c
    ensures !Printable(ForStmt(b, e, init, Some(c)))
    ensures !Printable(ForStmt(b, e, init, None))
  {
    assert Split(c, ' ') == [c];
  }

  /** A method declared in an interface gets its signature but no end
      marker: its last line is left as it was. */
  lemma InterfaceMethodKeepsEndLine(buf: seq<string>, m: MethodSpan)
    requires MethodFits(m, true, |buf|) && 1 <= m.end <= |buf| && SigIndex(m) != m.end - 1
    ensures WriteEdit(buf, MethodEdit(m, true))[m.end - 1] == buf[m.end - 1]
    ensures WriteEdit(buf, MethodEdit(m, true))[SigIndex(m)]
         == Indent(buf[SigIndex(m)]) + SignatureText(m)
  {
  }

  /** A package-private method's signature starts with a space, because its
      access string is empty. */
  lemma PackagePrivateSignature()
    ensures SignatureText(MethodSpan(1, 3, false, false, false, true, PackagePrivate, "size", []))
         == " function size()"
  {
  }

  /** getWhitespace of an empty or all-blank line is "non", which then
      prefixes the pseudocode written from it. */
  lemma BlankLineIndent()
    ensures Indent("") == "non" && Indent(" \t ") == "non"
    ensures Indent("\tif (x)") == "\t"
  {
    IndentSpec("");
    assert IsBlank(" \t ") by {
      assert forall k :: 0 <= k < 3 ==> " \t "[k] in {' ', '\t'};
    }
    IndentSpec(" \t ");
    IndentUnique("\tif (x)", "\t");
  }

  /** A one-line method that gets an end marker: the end marker is written
      last onto the signature line, so the signature is lost. */
  lemma OneLineMethod(buf: seq<string>, m: MethodSpan)
    requires m.begin == m.end && !m.hasAnnotations && !m.isDefault
    requires 1 <= m.end <= |buf|
    ensures WriteEdit(buf, MethodEdit(m, false))[m.end - 1] == Indent(buf[m.end - 1]) + EndText(m)
  {
    var e := MethodEdit(m, false);
    assert m.end - 1 in Touches(e) && IndentLine(e) == m.end - 1 && Text(e, m.end - 1) == EndText(m);
  }
}
