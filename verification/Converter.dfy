/**
 * PseudocodeConverter: convertFile rewrites a buffer of lines in place, pass
 * by pass, and convertToOcrPseudocode slices one method out of its result.
 * The buffer is an array: after the file is read its length never changes
 * and every change is a same-index `set`.
 */
module PseudocodeConverter {
  import opened JavaStrings
  import opened Spans
  import opened LineText
  import opened Rewrite

  /** The signature line, built as the source builds it: every parameter name
      followed by a comma, then the last comma deleted when there was one. */
  method BuildSignature(indent: string, m: MethodSpan) returns (sig: string)
    ensures sig == indent + SignatureText(m)
  {
    var sb := indent + AccessString(m.access) + " ";
    if m.isVoid {
      sb := sb + "procedure" + " ";
    } else {
      sb := sb + "function" + " ";
    }
    sb := sb + m.name;
    sb := sb + "(";
    assert sb == indent + SignatureHead(m);
    sb := AppendParams(sb, m.params);
    if |m.params| > 0 {
      TerminatedIsJoinPlusSep(m.params, ',');
      sb := DeleteLast(sb, indent + SignatureHead(m) + JoinWith(m.params, ','), ',');
    }
    sig := sb + ")";
  }

  /** The parameter loop: each name followed by a comma. */
  method AppendParams(sb: string, params: seq<string>) returns (r: string)
    ensures r == sb + Terminated(params, ',')
  {
    r := sb;
    for i := 0 to |params|
      invariant r == sb + Terminated(params[..i], ',')
    {
      TerminatedStep(params, i, ',');
      r := r + params[i] + ",";
    }
    assert params[..|params|] == params;
  }

  /** deleteCharAt(length() - 1) on a builder holding `s` and one more `c`. */
  method DeleteLast(sb: string, ghost s: string, c: char) returns (r: string)
    requires sb == s + [c]
    ensures r == s
  {
    r := sb[..|sb| - 1];
  }

  /** The signature text up to and including the opening parenthesis. */
  function SignatureHead(m: MethodSpan): (r: string)
    ensures SignatureText(m) == r + JoinWith(m.params, ',') + ")"
  {
    AccessString(m.access) + " " + (if m.isVoid then "procedure" else "function") + " " + m.name + "("
  }

  lemma TerminatedStep(ps: seq<string>, i: nat, sep: char)
    requires i < |ps|
    ensures Terminated(ps[..i + 1], sep) == Terminated(ps[..i], sep) + ps[i] + [sep]
  {
    assert ps[..i + 1][..i] == ps[..i];
  }

  /** The method pass: for every type, rewrite its methods. */
  method RewriteMethods(a: array<string>, ts: seq<TypeSpan>)
    requires TypesFit(ts, a.Length)
    modifies a
    ensures EditsFit(MethodEdits(ts), a.Length)
    ensures a[..] == ApplyEdits(old(a[..]), MethodEdits(ts))
  {
    var i := 0;
    while i < |ts|
      invariant 0 <= i <= |ts|
      invariant EditsFit(MethodEdits(ts[..i]), a.Length)
      invariant a[..] == ApplyEdits(old(a[..]), MethodEdits(ts[..i]))
    {
      ghost var before := a[..];
      RewriteTypeMethods(a, ts[i]);
      MethodEditsSnoc(ts, i, a.Length);
      ApplyEditsAppend(old(a[..]), MethodEdits(ts[..i]), TypeEdits(ts[i]));
      i := i + 1;
    }
    assert ts[..|ts|] == ts;
  }

  /** The methods of one type, in declaration order. */
  method RewriteTypeMethods(a: array<string>, t: TypeSpan)
    requires forall j :: 0 <= j < |t.methods| ==> MethodFits(t.methods[j], t.isInterface, a.Length)
    modifies a
    ensures EditsFit(TypeEdits(t), a.Length)
    ensures a[..] == ApplyEdits(old(a[..]), TypeEdits(t))
  {
    assert TypeEdits(t)[..0] == [];
    for j := 0 to |t.methods|
      invariant EditsFit(TypeEdits(t)[..j], a.Length)
      invariant a[..] == ApplyEdits(old(a[..]), TypeEdits(t)[..j])
    {
      RewriteMethod(a, t.methods[j], t.isInterface);
      TypeEditsStep(t, j, a.Length);
      ApplyEditsSnoc(old(a[..]), TypeEdits(t)[..j], MethodEdit(t.methods[j], t.isInterface));
    }
    assert TypeEdits(t)[..|t.methods|] == TypeEdits(t);
  }

  /** One method: overwrite the signature line and, unless the method is
      `default` or its type an interface, the end line, both with the
      indentation the signature line had. */
  method RewriteMethod(a: array<string>, m: MethodSpan, inInterface: bool)
    requires MethodFits(m, inInterface, a.Length)
    modifies a
    ensures a[..] == WriteEdit(old(a[..]), MethodEdit(m, inInterface))
  {
    var startPos := m.begin;
    startPos := if m.hasAnnotations then startPos else startPos - 1;
    var space := GetWhitespace(a[startPos]);
    var signature := BuildSignature(space, m);
    var end := space + (if m.isVoid then "endprocedure" else "endfunction");
    a[startPos] := signature;
    if !(m.isDefault || inInterface) {
      a[m.end - 1] := end;
    }
  }

  lemma TypeEditsStep(t: TypeSpan, j: nat, n: nat)
    requires j < |t.methods|
    requires forall i :: 0 <= i < |t.methods| ==> MethodFits(t.methods[i], t.isInterface, n)
    ensures TypeEdits(t)[..j + 1] == TypeEdits(t)[..j] + [MethodEdit(t.methods[j], t.isInterface)]
    ensures EditsFit(TypeEdits(t)[..j + 1], n)
  {
    var es := TypeEdits(t);
    var pre := es[..j + 1];
    assert es[j] == MethodEdit(t.methods[j], t.isInterface);
    forall i | 0 <= i < |pre|
      ensures EditFits(pre[i], n)
    {
      assert pre[i] == MethodEdit(t.methods[i], t.isInterface);
    }
  }

  lemma MethodEditsSnoc(ts: seq<TypeSpan>, i: nat, n: nat)
    requires i < |ts| && TypesFit(ts, n)
    ensures MethodEdits(ts[..i + 1]) == MethodEdits(ts[..i]) + TypeEdits(ts[i])
    ensures EditsFit(MethodEdits(ts[..i + 1]), n)
  {
    assert ts[..i + 1][..i] == ts[..i];
    var pre := ts[..i + 1];
    assert TypesFit(pre, n) by {
      forall p, q | 0 <= p < |pre| && 0 <= q < |pre[p].methods|
        ensures MethodFits(pre[p].methods[q], pre[p].isInterface, n)
      {
        assert pre[p] == ts[p];
      }
    }
    MethodEditsFit(pre, n);
  }

  /** One statement pass (`for`, `if`, for-each or `switch`): every
      statement in turn. */
  method RewriteStatements(a: array<string>, ss: seq<Stmt>)
    requires StmtsFit(ss, a.Length)
    modifies a
    ensures EditsFit(StmtEdits(ss), a.Length)
    ensures a[..] == ApplyEdits(old(a[..]), StmtEdits(ss))
  {
    for i := 0 to |ss|
      invariant EditsFit(StmtEdits(ss[..i]), a.Length)
      invariant a[..] == ApplyEdits(old(a[..]), StmtEdits(ss[..i]))
    {
      RewriteStatement(a, ss[i]);
      StmtEditsSnoc(ss, i, a.Length);
      ApplyEditsSnoc(old(a[..]), StmtEdits(ss[..i]), StmtEdit(ss[i]));
    }
    assert ss[..|ss|] == ss;
  }

  /** One statement: read the indentation of its first line, then overwrite
      its first line with the header and its last line with the footer. */
  method RewriteStatement(a: array<string>, s: Stmt)
    requires StmtFits(s, a.Length)
    modifies a
    ensures a[..] == WriteEdit(old(a[..]), StmtEdit(s))
  {
    var space := GetWhitespace(a[s.begin - 1]);
    var header := space + HeaderText(s);
    var footer := space + FooterText(s);
    a[s.begin - 1] := header;
    a[s.end - 1] := footer;
    assert a[..] == old(a[..])[s.begin - 1 := header][s.end - 1 := footer];
    StmtWrite(old(a[..]), s);
  }

  /** A statement edit is the two updates of the pass, in order. */
  lemma StmtWrite(buf: seq<string>, s: Stmt)
    requires StmtFits(s, |buf|)
    ensures WriteEdit(buf, StmtEdit(s))
         == buf[s.begin - 1 := Indent(buf[s.begin - 1]) + HeaderText(s)]
               [s.end - 1 := Indent(buf[s.begin - 1]) + FooterText(s)]
  {
    assert IndentLine(StmtEdit(s)) == s.begin - 1;
  }

  lemma StmtEditsSnoc(ss: seq<Stmt>, i: nat, n: nat)
    requires i < |ss| && StmtsFit(ss, n)
    ensures StmtEdits(ss[..i + 1]) == StmtEdits(ss[..i]) + [StmtEdit(ss[i])]
    ensures EditsFit(StmtEdits(ss[..i + 1]), n)
  {
  }

  /** convertFile: the method pass, the four statement passes, then cleanup,
      all on one buffer holding the file's lines. */
  method ConvertFile(lines: seq<string>, u: UnitSpans) returns (r: seq<string>)
    requires UnitFits(u, |lines|)
    ensures r == Convert(lines, u)
    ensures |r| == |lines|
    ensures forall k :: 0 <= k < |lines| && !TouchedBy(AllEdits(u), k) ==> r[k] == CleanLine(lines[k])
  {
    var a := new string[|lines|](i requires 0 <= i < |lines| => lines[i]);
    assert a[..] == lines;
    RewriteMethods(a, u.types);
    RewriteStatements(a, u.fors);
    RewriteStatements(a, u.ifs);
    RewriteStatements(a, u.forEachs);
    RewriteStatements(a, u.switches);
    ghost var m := MethodEdits(u.types);
    ghost var f := StmtEdits(u.fors);
    ghost var c := StmtEdits(u.ifs);
    ghost var e := StmtEdits(u.forEachs);
    ghost var s := StmtEdits(u.switches);
    AllEditsFit(u, |lines|);
    ApplyEditsAppend(lines, m + f + c + e, s);
    ApplyEditsAppend(lines, m + f + c, e);
    ApplyEditsAppend(lines, m + f, c);
    ApplyEditsAppend(lines, m, f);
    assert a[..] == ApplyEdits(lines, AllEdits(u));
    CleanupLines(a);
    r := a[..];
  }

  /** convertToOcrPseudocode: nothing for a method without a body; otherwise
      the converted lines from the signature index up to, not including,
      index `end`, so the last one is the end-marker line. */
  method ConvertToOcrPseudocode(lines: seq<string>, u: UnitSpans, m: MethodSpan) returns (r: seq<string>)
    requires m.hasBody ==> UnitFits(u, |lines|) && 0 <= SigIndex(m) <= m.end <= |lines|
    ensures !m.hasBody ==> r == []
    ensures m.hasBody ==> |r| == m.end - SigIndex(m)
    ensures m.hasBody ==> r == Convert(lines, u)[SigIndex(m)..m.end]
  {
    if !m.hasBody {
      return [];
    }
    var startPos := m.begin;
    startPos := if m.hasAnnotations then startPos else startPos - 1;
    var converted := ConvertFile(lines, u);
    r := converted[startPos..m.end];
  }

  /** Edit `j` of `es` is the rewrite of method `m`, and no other edit
      writes the lines that edit writes. */
  predicate IsolatedMethod(lines: seq<string>, es: seq<Edit>, j: nat, m: MethodSpan, inInterface: bool) {
    && EditsFit(es, |lines|)
    && j < |es| && es[j] == MethodEdit(m, inInterface)
    && forall i :: 0 <= i < |es| && i != j ==>
         SigIndex(m) !in Touches(es[i])
         && (WritesEnd(m, inInterface) ==> m.end - 1 !in Touches(es[i]))
  }

  /** The slice convertToOcrPseudocode returns for a method whose signature
      and end lines no other construct writes starts with its signature and
      ends with its end marker, both after the indentation of the original
      signature line. */
  lemma MethodSliceBounds(lines: seq<string>, u: UnitSpans, j: nat, m: MethodSpan, inInterface: bool)
    requires UnitFits(u, |lines|) && IsolatedMethod(lines, AllEdits(u), j, m, inInterface)
    requires WritesEnd(m, inInterface) && SigIndex(m) < m.end - 1
    ensures 0 <= SigIndex(m) < m.end <= |lines|
    ensures Convert(lines, u)[SigIndex(m)..m.end][0]
         == CleanLine(Indent(lines[SigIndex(m)]) + SignatureText(m))
    ensures Convert(lines, u)[SigIndex(m)..m.end][m.end - 1 - SigIndex(m)]
         == Indent(lines[SigIndex(m)]) + EndText(m)
  {
    ConvertIsConverted(lines, u);
    MethodSliceFirst(lines, AllEdits(u), j, m, inInterface);
    MethodSliceLast(lines, AllEdits(u), j, m, inInterface);
  }

  lemma MethodSliceFirst(lines: seq<string>, es: seq<Edit>, j: nat, m: MethodSpan, inInterface: bool)
    requires IsolatedMethod(lines, es, j, m, inInterface)
    requires WritesEnd(m, inInterface) && SigIndex(m) < m.end - 1
    ensures 0 <= SigIndex(m) < m.end <= |lines|
    ensures Converted(lines, es)[SigIndex(m)..m.end][0]
         == CleanLine(Indent(lines[SigIndex(m)]) + SignatureText(m))
  {
    MethodEndLine(lines, es, j, m, inInterface);
    MethodSignatureLine(lines, es, j, m, inInterface);
    SliceEnds(Converted(lines, es), SigIndex(m), m.end);
  }

  lemma MethodSliceLast(lines: seq<string>, es: seq<Edit>, j: nat, m: MethodSpan, inInterface: bool)
    requires IsolatedMethod(lines, es, j, m, inInterface)
    requires WritesEnd(m, inInterface) && SigIndex(m) < m.end - 1
    ensures 0 <= SigIndex(m) < m.end <= |lines|
    ensures Converted(lines, es)[SigIndex(m)..m.end][m.end - 1 - SigIndex(m)]
         == Indent(lines[SigIndex(m)]) + EndText(m)
  {
    var c := Converted(lines, es);
    assert c[m.end - 1] == Indent(lines[SigIndex(m)]) + EndText(m) by {
      MethodEndLine(lines, es, j, m, inInterface);
    }
    assert c[SigIndex(m)..m.end][m.end - 1 - SigIndex(m)] == c[m.end - 1];
  }

  /** The first and last element of a non-empty slice. */
  lemma SliceEnds(c: seq<string>, lo: int, hi: int)
    requires 0 <= lo < hi <= |c|
    ensures c[lo..hi][0] == c[lo] && c[lo..hi][hi - 1 - lo] == c[hi - 1]
  {
  }


  /** The end marker of an isolated method that gets one survives cleanup:
      its line is the signature line's indentation and the end keyword. */
  lemma MethodEndLine(lines: seq<string>, es: seq<Edit>, j: nat, m: MethodSpan, inInterface: bool)
    requires IsolatedMethod(lines, es, j, m, inInterface) && WritesEnd(m, inInterface)
    ensures 0 <= SigIndex(m) < |lines| && 1 <= m.end <= |lines|
    ensures Converted(lines, es)[m.end - 1] == Indent(lines[SigIndex(m)]) + EndText(m)
  {
    assert EditFits(es[j], |lines|);
    IsolatedWrite(lines, es, j, m.end - 1);
    ConvertedAt(lines, es, m.end - 1);
    IndentIsBlankOrNon(lines[SigIndex(m)]);
    EndLineClean(Indent(lines[SigIndex(m)]), m);
  }

  /** The signature line of an isolated method is the cleaned signature after
      the original line's indentation, unless a one-line method's end marker
      overwrote it. */
  lemma MethodSignatureLine(lines: seq<string>, es: seq<Edit>, j: nat, m: MethodSpan, inInterface: bool)
    requires IsolatedMethod(lines, es, j, m, inInterface)
    requires !(WritesEnd(m, inInterface) && SigIndex(m) == m.end - 1)
    ensures 0 <= SigIndex(m) < |lines|
    ensures Converted(lines, es)[SigIndex(m)] == CleanLine(Indent(lines[SigIndex(m)]) + SignatureText(m))
  {
    assert EditFits(es[j], |lines|);
    assert Text(es[j], SigIndex(m)) == SignatureText(m);
    IsolatedConverted(lines, es, j, SigIndex(m), SigIndex(m), SignatureText(m));
  }

  /** Edit `j` of `es` is the rewrite of statement `s`, and no other edit
      writes its first or last line. */
  predicate IsolatedStmt(lines: seq<string>, es: seq<Edit>, j: nat, s: Stmt) {
    && EditsFit(es, |lines|)
    && j < |es| && es[j] == StmtEdit(s)
    && forall i :: 0 <= i < |es| && i != j ==>
         s.begin - 1 !in Touches(es[i]) && s.end - 1 !in Touches(es[i])
  }

  /** The first line of an isolated statement is its header after the
      original first line's indentation, cleaned. */
  lemma StmtHeaderLine(lines: seq<string>, es: seq<Edit>, j: nat, s: Stmt)
    requires IsolatedStmt(lines, es, j, s) && s.begin != s.end
    ensures Printable(s) && 1 <= s.begin <= |lines|
    ensures Converted(lines, es)[s.begin - 1] == CleanLine(Indent(lines[s.begin - 1]) + HeaderText(s))
  {
    var k := s.begin - 1;
    assert EditFits(es[j], |lines|);
    assert k in Touches(es[j]) && IndentLine(es[j]) == k && Text(es[j], k) == HeaderText(s);
    IsolatedConverted(lines, es, j, k, k, HeaderText(s));
  }

  /** The last line of an isolated statement is its footer after the
      original first line's indentation, cleaned. */
  lemma StmtFooterLine(lines: seq<string>, es: seq<Edit>, j: nat, s: Stmt)
    requires IsolatedStmt(lines, es, j, s)
    ensures Printable(s) && 1 <= s.begin <= |lines| && 1 <= s.end <= |lines|
    ensures Converted(lines, es)[s.end - 1] == CleanLine(Indent(lines[s.begin - 1]) + FooterText(s))
  {
    var k := s.end - 1;
    assert EditFits(es[j], |lines|);
    assert k in Touches(es[j]) && IndentLine(es[j]) == s.begin - 1 && Text(es[j], k) == FooterText(s);
    IsolatedConverted(lines, es, j, k, s.begin - 1, FooterText(s));
  }

  /** The parameter list of a signature is the parameter names joined by
      commas with no trailing comma, so the names can be read back from it
      when none is empty or holds a comma. */
  lemma SignatureParams(m: MethodSpan)
    requires forall i :: 0 <= i < |m.params| ==> m.params[i] != [] && ',' !in m.params[i]
    ensures |m.params| >= 1 ==> Split(JoinWith(m.params, ','), ',') == m.params
  {
    if |m.params| >= 1 {
      SplitOfJoin(m.params, ',');
    }
  }

  /** The end marker line passes cleanup unchanged. */
  lemma EndLineClean(w: string, m: MethodSpan)
    requires w == NoIndent || IsBlank(w)
    ensures CleanLine(w + EndText(m)) == w + EndText(m)
  {
    var s := w + EndText(m);
    assert '{' !in w && '}' !in w by {
      if w != NoIndent {
        assert forall c :: c in w ==> IsWhitespace(c);
      }
    }
    assert s[|s| - 1] != ';';
    assert '{' !in EndText(m) && '}' !in EndText(m);
    CleanUnchanged(s);
  }
}
