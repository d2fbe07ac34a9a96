/**
 * What convertFile computes, as functions on the line sequence.
 *
 * Every boundary rewrite is an Edit: it reads the indentation of one line of
 * the buffer as it stands, then overwrites one or two lines with that
 * indentation followed by pseudocode text. The five passes of convertFile
 * are one sequence of edits in pass order (methods type by type, then
 * `for`, `if`, for-each and `switch` statements), folded over the buffer;
 * the cleanup pass runs on the result.
 */
module Rewrite {
  import opened JavaStrings
  import opened Spans
  import opened LineText

  // ---------------------------------------------------------------------
  // Methods
  // ---------------------------------------------------------------------

  /** 0-based index of the line the signature overwrites: the declaration's
      1-based first line used as a 0-based index, minus one when the method
      has no annotations. */
  function SigIndex(m: MethodSpan): int {
    if m.hasAnnotations then m.begin else m.begin - 1
  }

  /** The end marker is written unless the method is `default` or is
      declared in an interface. */
  predicate WritesEnd(m: MethodSpan, inInterface: bool) {
    !(m.isDefault || inInterface)
  }

  /** The signature after the indentation: access, keyword, name and the
      parameter names separated by commas. */
  function SignatureText(m: MethodSpan): string {
    AccessString(m.access) + " " + (if m.isVoid then "procedure" else "function") + " "
      + m.name + "(" + JoinWith(m.params, ',') + ")"
  }

  /** The end marker after the indentation. */
  function EndText(m: MethodSpan): string {
    if m.isVoid then "endprocedure" else "endfunction"
  }

  /** The lines a method edit reads and writes lie inside a buffer of n lines. */
  predicate MethodFits(m: MethodSpan, inInterface: bool, n: nat) {
    && 0 <= SigIndex(m) < n
    && (WritesEnd(m, inInterface) ==> 1 <= m.end <= n)
  }

  // ---------------------------------------------------------------------
  // Statements
  // ---------------------------------------------------------------------

  /** A `for` statement has an initialiser whose text splits into at least
      two space-separated tokens and a condition whose text splits into at
      least three; the other statements need nothing. */
  predicate Printable(s: Stmt) {
    s.ForStmt? ==>
      && |s.init| >= 1
      && s.compare.Some?
      && |Split(s.compare.value, ' ')| >= 3
      && |Split(s.init[0], ' ')| >= 2
  }

  /** The header text after the indentation. A `for` statement's bound is the
      third token of its condition. */
  function HeaderText(s: Stmt): string
    requires Printable(s)
  {
    match s
    case ForStmt(_, _, init, compare) => "for " + init[0] + " to " + Split(compare.value, ' ')[2]
    case IfStmt(_, _, condition) => "if " + condition + " then"
    case ForEachStmt(_, _, variable, iterable) => "for " + variable + " in " + iterable
    case SwitchStmt(_, _, selector) => "switch " + selector
  }

  /** The footer text after the indentation. A `for` statement's loop
      variable is the second token of its first initialiser. */
  function FooterText(s: Stmt): string
    requires Printable(s)
  {
    match s
    case ForStmt(_, _, init, _) => "next " + Split(init[0], ' ')[1]
    case IfStmt(_, _, _) => "endif"
    case ForEachStmt(_, _, variable, _) => "next " + variable
    case SwitchStmt(_, _, _) => "endswitch"
  }

  /** Both boundary lines of a statement lie inside a buffer of n lines and
      its fragments have the tokens the pseudocode takes from them. */
  predicate StmtFits(s: Stmt, n: nat) {
    1 <= s.begin <= n && 1 <= s.end <= n && Printable(s)
  }

  // ---------------------------------------------------------------------
  // Edits
  // ---------------------------------------------------------------------

  /** One boundary rewrite: a method (with whether its type is an interface)
      or a statement. */
  datatype Edit = MethodEdit(m: MethodSpan, inInterface: bool) | StmtEdit(s: Stmt)

  predicate EditFits(e: Edit, n: nat) {
    match e
    case MethodEdit(m, inInterface) => MethodFits(m, inInterface, n)
    case StmtEdit(s) => StmtFits(s, n)
  }

  /** Index of the line whose indentation the edit copies. */
  function IndentLine(e: Edit): int {
    match e
    case MethodEdit(m, _) => SigIndex(m)
    case StmtEdit(s) => s.begin - 1
  }

  /** The 0-based indices the edit overwrites. */
  function Touches(e: Edit): set<int> {
    match e
    case MethodEdit(m, inInterface) =>
      {SigIndex(m)} + (if WritesEnd(m, inInterface) then {m.end - 1} else {})
    case StmtEdit(s) => {s.begin - 1, s.end - 1}
  }

  /** What the edit leaves at index k after the indentation. When both of its
      writes land on one line, the second (the end line) is what remains. */
  function Text(e: Edit, k: int): string
    requires e.StmtEdit? ==> Printable(e.s)
  {
    match e
    case MethodEdit(m, inInterface) =>
      if WritesEnd(m, inInterface) && k == m.end - 1 then EndText(m) else SignatureText(m)
    case StmtEdit(s) => if k == s.end - 1 then FooterText(s) else HeaderText(s)
  }

  /** One edit applied to the buffer: each line it touches becomes the
      indentation of its indentation line, read before the edit, followed by
      its text; every other line is kept and the length does not change. */
  function WriteEdit(buf: seq<string>, e: Edit): (r: seq<string>)
    requires EditFits(e, |buf|)
    ensures |r| == |buf|
    ensures forall k :: 0 <= k < |buf| ==>
      r[k] == if k in Touches(e) then Indent(buf[IndentLine(e)]) + Text(e, k) else buf[k]
  {
    var indent := Indent(buf[IndentLine(e)]);
    match e
    case MethodEdit(m, inInterface) =>
      var b := buf[SigIndex(m) := indent + SignatureText(m)];
      if WritesEnd(m, inInterface) then b[m.end - 1 := indent + EndText(m)] else b
    case StmtEdit(s) =>
      buf[s.begin - 1 := indent + HeaderText(s)][s.end - 1 := indent + FooterText(s)]
  }

  predicate EditsFit(es: seq<Edit>, n: nat) {
    forall i :: 0 <= i < |es| ==> EditFits(es[i], n)
  }

  /** Some edit of `es` overwrites index k. */
  predicate TouchedBy(es: seq<Edit>, k: int) {
    exists i :: 0 <= i < |es| && k in Touches(es[i])
  }

  /** The edits applied one after the other; a line no edit touches is kept. */
  function ApplyEdits(buf: seq<string>, es: seq<Edit>): (r: seq<string>)
    requires EditsFit(es, |buf|)
    ensures |r| == |buf|
    ensures forall k :: 0 <= k < |buf| && !TouchedBy(es, k) ==> r[k] == buf[k]
  {
    if es == [] then buf
    else
      var pre := es[..|es| - 1];
      assert forall k :: TouchedBy(pre, k) ==> TouchedBy(es, k);
      WriteEdit(ApplyEdits(buf, pre), es[|es| - 1])
  }

  /** One more edit is one more write. */
  lemma ApplyEditsSnoc(buf: seq<string>, es: seq<Edit>, e: Edit)
    requires EditsFit(es + [e], |buf|)
    ensures EditsFit(es, |buf|) && EditFits(e, |buf|)
    ensures ApplyEdits(buf, es + [e]) == WriteEdit(ApplyEdits(buf, es), e)
  {
    assert (es + [e])[..|es|] == es;
    assert forall i :: 0 <= i < |es| ==> (es + [e])[i] == es[i];
    assert (es + [e])[|es|] == e;
  }

  // ---------------------------------------------------------------------
  // The passes of convertFile
  // ---------------------------------------------------------------------

  /** The edits of one type's methods, in declaration order. */
  function TypeEdits(t: TypeSpan): seq<Edit> {
    seq(|t.methods|, j requires 0 <= j < |t.methods| => MethodEdit(t.methods[j], t.isInterface))
  }

  /** The method pass: type by type, method by method. */
  function MethodEdits(ts: seq<TypeSpan>): seq<Edit> {
    if ts == [] then [] else MethodEdits(ts[..|ts| - 1]) + TypeEdits(ts[|ts| - 1])
  }

  /** One statement pass. */
  function StmtEdits(ss: seq<Stmt>): seq<Edit> {
    seq(|ss|, i requires 0 <= i < |ss| => StmtEdit(ss[i]))
  }

  /** All edits of convertFile in the order it makes them. */
  function AllEdits(u: UnitSpans): seq<Edit> {
    MethodEdits(u.types) + StmtEdits(u.fors) + StmtEdits(u.ifs)
      + StmtEdits(u.forEachs) + StmtEdits(u.switches)
  }

  predicate TypesFit(ts: seq<TypeSpan>, n: nat) {
    forall i, j :: 0 <= i < |ts| && 0 <= j < |ts[i].methods| ==>
      MethodFits(ts[i].methods[j], ts[i].isInterface, n)
  }

  predicate StmtsFit(ss: seq<Stmt>, n: nat) {
    forall i :: 0 <= i < |ss| ==> StmtFits(ss[i], n)
  }

  /** Every line convertFile reads or writes exists, and every `for`
      statement has the tokens its pseudocode takes; otherwise the source
      throws. Each statement list holds its own kind of statement. */
  predicate UnitFits(u: UnitSpans, n: nat) {
    && WellKinded(u)
    && TypesFit(u.types, n)
    && StmtsFit(u.fors, n) && StmtsFit(u.ifs, n)
    && StmtsFit(u.forEachs, n) && StmtsFit(u.switches, n)
  }

  lemma {:induction false} MethodEditsFit(ts: seq<TypeSpan>, n: nat)
    requires TypesFit(ts, n)
    ensures EditsFit(MethodEdits(ts), n)
    decreases |ts|
  {
    if ts != [] {
      var pre := ts[..|ts| - 1];
      assert TypesFit(pre, n) by {
        forall i, j | 0 <= i < |pre| && 0 <= j < |pre[i].methods|
          ensures MethodFits(pre[i].methods[j], pre[i].isInterface, n)
        {
          assert pre[i] == ts[i];
        }
      }
      MethodEditsFit(pre, n);
      var t := ts[|ts| - 1];
      assert EditsFit(TypeEdits(t), n) by {
        forall j | 0 <= j < |t.methods|
          ensures EditFits(TypeEdits(t)[j], n)
        {
          assert MethodFits(ts[|ts| - 1].methods[j], ts[|ts| - 1].isInterface, n);
        }
      }
    }
  }

  lemma AllEditsFit(u: UnitSpans, n: nat)
    requires UnitFits(u, n)
    ensures EditsFit(AllEdits(u), n)
  {
    MethodEditsFit(u.types, n);
  }

  /** A buffer after a sequence of edits and the cleanup pass. */
  function Converted(lines: seq<string>, es: seq<Edit>): (r: seq<string>)
    requires EditsFit(es, |lines|)
    ensures |r| == |lines|
  {
    Cleanup(ApplyEdits(lines, es))
  }

  lemma ConvertedAt(lines: seq<string>, es: seq<Edit>, k: int)
    requires EditsFit(es, |lines|) && 0 <= k < |lines|
    ensures Converted(lines, es)[k] == CleanLine(ApplyEdits(lines, es)[k])
  {
    CleanupAt(ApplyEdits(lines, es), k);
  }

  /** The result of convertFile: the rewritten buffer, cleaned. */
  function Convert(lines: seq<string>, u: UnitSpans): (r: seq<string>)
    requires UnitFits(u, |lines|)
    ensures |r| == |lines|
  {
    AllEditsFit(u, |lines|);
    Converted(lines, AllEdits(u))
  }

  // ---------------------------------------------------------------------
  // Properties
  // ---------------------------------------------------------------------

  /** Applying two sequences of edits one after the other is applying their
      concatenation: the passes compose. */
  lemma {:induction false} ApplyEditsAppend(buf: seq<string>, xs: seq<Edit>, ys: seq<Edit>)
    requires EditsFit(xs + ys, |buf|)
    ensures EditsFit(xs, |buf|) && EditsFit(ys, |buf|)
    ensures ApplyEdits(buf, xs + ys) == ApplyEdits(ApplyEdits(buf, xs), ys)
    decreases |ys|
  {
    assert forall i :: 0 <= i < |xs| ==> (xs + ys)[i] == xs[i];
    assert forall i :: 0 <= i < |ys| ==> (xs + ys)[|xs| + i] == ys[i];
    if ys == [] {
      assert xs + ys == xs;
    } else {
      var pre, e := ys[..|ys| - 1], ys[|ys| - 1];
      assert ys == pre + [e];
      assert xs + ys == (xs + pre) + [e];
      ApplyEditsSnoc(buf, xs + pre, e);
      ApplyEditsAppend(buf, xs, pre);
      ApplyEditsSnoc(ApplyEdits(buf, xs), pre, e);
    }
  }

  /** convertFile keeps the number of lines, and a line that no construct
      boundary touches only goes through cleanup. */
  lemma ConvertFrame(lines: seq<string>, u: UnitSpans, k: int)
    requires UnitFits(u, |lines|)
    requires 0 <= k < |lines| && !TouchedBy(AllEdits(u), k)
    ensures |Convert(lines, u)| == |lines|
    ensures Convert(lines, u)[k] == CleanLine(lines[k])
  {
  }

  /** convertFile is the edits of the unit applied to the lines, then cleanup. */
  lemma ConvertIsConverted(lines: seq<string>, u: UnitSpans)
    requires UnitFits(u, |lines|)
    ensures EditsFit(AllEdits(u), |lines|)
    ensures Convert(lines, u) == Converted(lines, AllEdits(u))
  {
    AllEditsFit(u, |lines|);
  }

  /** Line k of the converted file is line k of the rewritten buffer, cleaned. */
  lemma ConvertAt(lines: seq<string>, u: UnitSpans, k: int)
    requires UnitFits(u, |lines|) && 0 <= k < |lines|
    ensures EditsFit(AllEdits(u), |lines|)
    ensures |Convert(lines, u)| == |lines|
    ensures Convert(lines, u)[k] == CleanLine(ApplyEdits(lines, AllEdits(u))[k])
  {
    ConvertIsConverted(lines, u);
    ConvertedAt(lines, AllEdits(u), k);
  }

  /** One more edit that does not touch line k leaves it as it was. */
  lemma SnocUntouched(buf: seq<string>, pre: seq<Edit>, e: Edit, k: int)
    requires EditsFit(pre + [e], |buf|) && 0 <= k < |buf| && k !in Touches(e)
    ensures EditsFit(pre, |buf|)
    ensures ApplyEdits(buf, pre + [e])[k] == ApplyEdits(buf, pre)[k]
  {
    ApplyEditsSnoc(buf, pre, e);
  }

  /** One more edit that touches line k decides it. */
  lemma SnocTouched(buf: seq<string>, pre: seq<Edit>, e: Edit, k: int)
    requires EditsFit(pre + [e], |buf|) && 0 <= k < |buf| && k in Touches(e)
    ensures EditsFit(pre, |buf|) && (e.StmtEdit? ==> Printable(e.s))
    ensures ApplyEdits(buf, pre + [e])[k] == Indent(ApplyEdits(buf, pre)[IndentLine(e)]) + Text(e, k)
  {
    ApplyEditsSnoc(buf, pre, e);
  }

  /** The last edit to write a line decides it: what it wrote, with the
      indentation it read from the buffer as the earlier edits had left it. */
  lemma {:induction false} LastWriteWins(buf: seq<string>, es: seq<Edit>, j: nat, k: int)
    requires EditsFit(es, |buf|)
    requires j < |es| && k in Touches(es[j]) && 0 <= k < |buf|
    requires forall i :: j < i < |es| ==> k !in Touches(es[i])
    ensures EditsFit(es[..j], |buf|)
    ensures ApplyEdits(buf, es)[k]
         == Indent(ApplyEdits(buf, es[..j])[IndentLine(es[j])]) + Text(es[j], k)
    decreases |es|
  {
    var pre, e := es[..|es| - 1], es[|es| - 1];
    assert es == pre + [e];
    if j < |es| - 1 {
      assert k !in Touches(e);
      SnocUntouched(buf, pre, e, k);
      assert pre[..j] == es[..j];
      assert forall i :: j < i < |pre| ==> pre[i] == es[i];
      LastWriteWins(buf, pre, j, k);
    } else {
      assert pre == es[..j];
      SnocTouched(buf, pre, e, k);
    }
  }

  /** A line written by edit j and by no other edit, whose indentation line
      no other edit writes, is edit j's text after the indentation of the
      original indentation line. */
  lemma IsolatedWrite(buf: seq<string>, es: seq<Edit>, j: nat, k: int)
    requires EditsFit(es, |buf|)
    requires j < |es| && k in Touches(es[j]) && 0 <= k < |buf|
    requires forall i :: 0 <= i < |es| && i != j ==>
      k !in Touches(es[i]) && IndentLine(es[j]) !in Touches(es[i])
    ensures es[j].StmtEdit? ==> Printable(es[j].s)
    ensures 0 <= IndentLine(es[j]) < |buf|
    ensures ApplyEdits(buf, es)[k] == Indent(buf[IndentLine(es[j])]) + Text(es[j], k)
  {
    assert EditFits(es[j], |buf|);
    LastWriteWins(buf, es, j, k);
    var pre := es[..j];
    var x := IndentLine(es[j]);
    assert !TouchedBy(pre, x) by {
      forall i | 0 <= i < |pre|
        ensures x !in Touches(pre[i])
      {
        assert pre[i] == es[i];
      }
    }
  }

  /** The same line after cleanup, for an edit whose indentation line is x
      and whose text at k is t. */
  lemma IsolatedConverted(buf: seq<string>, es: seq<Edit>, j: nat, k: int, x: int, t: string)
    requires EditsFit(es, |buf|)
    requires j < |es| && k in Touches(es[j]) && 0 <= k < |buf|
    requires IndentLine(es[j]) == x
    requires es[j].StmtEdit? ==> Printable(es[j].s)
    requires Text(es[j], k) == t
    requires forall i :: 0 <= i < |es| && i != j ==> k !in Touches(es[i]) && x !in Touches(es[i])
    ensures 0 <= x < |buf|
    ensures Converted(buf, es)[k] == CleanLine(Indent(buf[x]) + t)
  {
    IsolatedWrite(buf, es, j, k);
    ConvertedAt(buf, es, k);
  }

  /** So in the converted file a boundary line holds, cleaned, the text of
      the last edit in pass order that writes it, after the indentation that
      edit read from the buffer as all earlier edits had left it. */
  lemma BoundaryLine(lines: seq<string>, u: UnitSpans, j: nat, k: int)
    requires UnitFits(u, |lines|) && EditsFit(AllEdits(u), |lines|)
    requires j < |AllEdits(u)| && k in Touches(AllEdits(u)[j]) && 0 <= k < |lines|
    requires forall i :: j < i < |AllEdits(u)| ==> k !in Touches(AllEdits(u)[i])
    ensures EditsFit(AllEdits(u)[..j], |lines|)
    ensures Convert(lines, u)[k] == CleanLine(
      Indent(ApplyEdits(lines, AllEdits(u)[..j])[IndentLine(AllEdits(u)[j])]) + Text(AllEdits(u)[j], k))
  {
    LastWriteWins(lines, AllEdits(u), j, k);
    ConvertAt(lines, u, k);
  }

  /** A boundary line that no other edit writes, and whose indentation line
      no other edit writes, is its edit's text after the indentation of the
      original indentation line, cleaned. */
  lemma IsolatedBoundaryLine(lines: seq<string>, u: UnitSpans, j: nat, k: int)
    requires UnitFits(u, |lines|) && EditsFit(AllEdits(u), |lines|)
    requires j < |AllEdits(u)| && k in Touches(AllEdits(u)[j]) && 0 <= k < |lines|
    requires forall i :: 0 <= i < |AllEdits(u)| && i != j ==>
      k !in Touches(AllEdits(u)[i]) && IndentLine(AllEdits(u)[j]) !in Touches(AllEdits(u)[i])
    ensures AllEdits(u)[j].StmtEdit? ==> Printable(AllEdits(u)[j].s)
    ensures 0 <= IndentLine(AllEdits(u)[j]) < |lines|
    ensures Convert(lines, u)[k]
         == CleanLine(Indent(lines[IndentLine(AllEdits(u)[j])]) + Text(AllEdits(u)[j], k))
  {
    IsolatedWrite(lines, AllEdits(u), j, k);
    ConvertAt(lines, u, k);
  }

  /** The text of an edit begins with a visible character, except the
      signature of a package-private method, whose empty access string leaves
      a space first. */
  lemma TextStartsVisibleIff(e: Edit, k: int)
    requires e.StmtEdit? ==> Printable(e.s)
    ensures (Text(e, k) != [] && !IsWhitespace(Text(e, k)[0]))
        <==> !(e.MethodEdit? && e.m.access == PackagePrivate
               && !(WritesEnd(e.m, e.inInterface) && k == e.m.end - 1))
  {
  }

  /** Every text is at least five characters long and does not start with a brace. */
  lemma TextShape(e: Edit, k: int)
    requires e.StmtEdit? ==> Printable(e.s)
    ensures |Text(e, k)| >= 5 && Text(e, k)[0] != '{' && Text(e, k)[0] != '}'
  {
    match e
    case MethodEdit(m, inInterface) =>
      if !(WritesEnd(m, inInterface) && k == m.end - 1) {
        var a := AccessString(m.access);
        var rest := (if m.isVoid then "procedure" else "function") + " " + m.name + "(" + JoinWith(m.params, ',') + ")";
        assert SignatureText(m) == a + " " + rest;
        assert |SignatureText(m)| >= 5;
        assert SignatureText(m)[0] == (a + " " + rest)[0];
      }
    case StmtEdit(s) =>
  }

  /** Indentation preservation: an edit's line starts with the indentation
      of its indentation line, as long as that line was not blank and the
      text is not a package-private signature. */
  lemma WrittenKeepsIndent(buf: seq<string>, e: Edit, k: int)
    requires EditFits(e, |buf|) && k in Touches(e) && 0 <= k < |buf|
    requires !IsBlank(buf[IndentLine(e)])
    requires !(e.MethodEdit? && e.m.access == PackagePrivate
               && !(WritesEnd(e.m, e.inInterface) && k == e.m.end - 1))
    ensures Indent(WriteEdit(buf, e)[k]) == Indent(buf[IndentLine(e)])
  {
    IndentSpec(buf[IndentLine(e)]);
    TextStartsVisibleIff(e, k);
    IndentOfPrefixed(Indent(buf[IndentLine(e)]), Text(e, k));
  }

  /** When the indentation line is blank, getWhitespace's "non" is copied in
      front of the text instead of any indentation. */
  lemma BlankIndentLine(buf: seq<string>, e: Edit, k: int)
    requires EditFits(e, |buf|) && k in Touches(e) && 0 <= k < |buf|
    requires IsBlank(buf[IndentLine(e)])
    ensures WriteEdit(buf, e)[k] == "non" + Text(e, k)
  {
    IndentSpec(buf[IndentLine(e)]);
  }

  /** End to end: an isolated boundary line of the converted file has the
      indentation of the original indentation line (the construct's first
      line, or the signature line of a method), provided that line was not
      blank and the text is not a package-private signature. */
  lemma ConvertedKeepsIndent(lines: seq<string>, u: UnitSpans, j: nat, k: int)
    requires UnitFits(u, |lines|) && EditsFit(AllEdits(u), |lines|)
    requires j < |AllEdits(u)| && k in Touches(AllEdits(u)[j]) && 0 <= k < |lines|
    requires forall i :: 0 <= i < |AllEdits(u)| && i != j ==>
      k !in Touches(AllEdits(u)[i]) && IndentLine(AllEdits(u)[j]) !in Touches(AllEdits(u)[i])
    requires 0 <= IndentLine(AllEdits(u)[j]) < |lines| && !IsBlank(lines[IndentLine(AllEdits(u)[j])])
    requires !(AllEdits(u)[j].MethodEdit? && AllEdits(u)[j].m.access == PackagePrivate
               && !(WritesEnd(AllEdits(u)[j].m, AllEdits(u)[j].inInterface) && k == AllEdits(u)[j].m.end - 1))
    ensures Indent(Convert(lines, u)[k]) == Indent(lines[IndentLine(AllEdits(u)[j])])
  {
    var e := AllEdits(u)[j];
    IsolatedBoundaryLine(lines, u, j, k);
    IndentSpec(lines[IndentLine(e)]);
    var w := Indent(lines[IndentLine(e)]);
    var t := Text(e, k);
    TextStartsVisibleIff(e, k);
    TextShape(e, k);
    IndentOfPrefixed(w, t);
    var s := w + t;
    assert s[|w|] == t[0];
    CleanKeepsIndent(s);
  }
}
