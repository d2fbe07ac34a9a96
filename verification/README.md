# PseudocodeConverter in Dafny

A model of the line-rewriting engine of `PseudocodeConverter`. The engine
turns the lines of a Java source file into OCR-style pseudocode in three
steps:

1. **Boundary rewrites.** It overwrites boundary lines of every construct
   with pseudocode lines, keeping the indentation that `getWhitespace`
   reads. The constructs are method declarations, `for`, `if`, for-each and
   `switch` statements. A statement's first and last line are overwritten.
   A method's signature goes on its first line, except that an annotated
   method's signature goes on the line after its first line, because that
   1-based line number is used as a 0-based index. Its last line gets an
   end marker unless the method is `default` or declared in an interface.
2. **Cleanup.** Each non-empty line loses one trailing `;`, and every `{` and
   `}` becomes a space.
3. **Method slice.** `convertToOcrPseudocode` returns the converted lines of
   one method.

Layout:

- `JavaStrings.dfy` models the `java.lang` behaviour the engine relies on:
  - `Character.isWhitespace`;
  - `String.replace(char, char)`;
  - `String.split(" ")`, including how it drops trailing empty pieces;
  - joining with a separator, which is what a `StringBuilder` loop leaves
    once the last separator is deleted.
- `Spans.dfy` holds what the parser reports. Each construct is a record with
  its 1-based first and last line and the fragments the pseudocode copies.
- `LineText.dfy` holds `getWhitespace` and the cleanup pass.
- `Rewrite.dfy` defines what `convertFile` computes, as functions:
  - each boundary rewrite is an `Edit` that reads one line's indentation
    from the buffer as it stands and overwrites one or two lines;
  - the five passes are one sequence of edits in pass order, folded over
    the buffer (`ApplyEdits`);
  - cleanup then runs on the result (`Convert`).
- `Converter.dfy` is the imperative code:
  - an array buffer that the method pass, the four statement passes and
    the cleanup loop rewrite in place;
  - the `StringBuilder` signature construction;
  - `convertFile` and `convertToOcrPseudocode`.

  Each method is proved equal to the functions above, and the
  end-to-end properties are lemmas about those functions.
- `Scenarios.dfy` holds small worked cases:
  - the `for` heuristics;
  - interface methods;
  - package-private signatures;
  - blank lines;
  - one-line methods.

The parser's output is an input of the model. A method records:

- its first line, which is that of its first annotation when it has one;
- its last line;
- whether it is annotated, `void`, `default`, or has a body;
- its access;
- its name and parameter names.

Statements carry the printed fragments the pseudocode copies.

## Model

| member | source | states |
|---|---|---|
| Spans.AccessString | src/main/java/com/invoicer/document/PseudocodeConverter.java:65 | the access keyword, empty for package-private access |
| JavaStrings.IsWhitespace | src/main/java/com/invoicer/document/PseudocodeConverter.java:134 | Character.isWhitespace: the Unicode space, line and paragraph separators except the no-break spaces, plus TAB, LF, VT, FF, CR and U+001C..U+001F |
| JavaStrings.Split | src/main/java/com/invoicer/document/PseudocodeConverter.java:91-92 | split(" "): the whole string when there is no space, otherwise the pieces between spaces with the trailing empty ones dropped |
| LineText.Indent | src/main/java/com/invoicer/document/PseudocodeConverter.java:132-139 | getWhitespace: the characters before the first visible one, or "non" when there is none |
| LineText.Cleanup | src/main/java/com/invoicer/document/PseudocodeConverter.java:117-128 | the cleanup pass over the buffer keeps the number of lines |
| Rewrite.SigIndex | src/main/java/com/invoicer/document/PseudocodeConverter.java:63-64 | the signature line index: the 1-based first line used as a 0-based index, minus one only when the method has no annotations |
| Rewrite.WritesEnd | src/main/java/com/invoicer/document/PseudocodeConverter.java:84 | the end marker is written unless the method is default or its type is an interface |
| Rewrite.SignatureText | src/main/java/com/invoicer/document/PseudocodeConverter.java:65-82 | access, a space, procedure or function, a space, the name and the comma-joined parameter names in parentheses |
| Rewrite.EndText | src/main/java/com/invoicer/document/PseudocodeConverter.java:66-73 | endprocedure for a void method, endfunction otherwise |
| Rewrite.HeaderText | src/main/java/com/invoicer/document/PseudocodeConverter.java:91-112 | "for init to bound", "if cond then", "for var in iterable" or "switch selector" |
| Rewrite.FooterText | src/main/java/com/invoicer/document/PseudocodeConverter.java:92-113 | "next v", "endif", "next var" or "endswitch" |
| Rewrite.Printable | src/main/java/com/invoicer/document/PseudocodeConverter.java:91-92 | the conditions under which the for-statement pass does not throw: a first initialiser with two tokens and a condition with three |
| Rewrite.AllEdits | src/main/java/com/invoicer/document/PseudocodeConverter.java:61-116 | the rewrites in the order convertFile makes them: methods type by type, then for, if, for-each and switch statements |
| Rewrite.Convert | src/main/java/com/invoicer/document/PseudocodeConverter.java:52-130 | convertFile: the rewritten buffer, cleaned, with the same number of lines |
| LineText.IndentSpec | src/main/java/com/invoicer/document/PseudocodeConverter.java:132-139 | a blank line gets "non"; any other line gets a whitespace prefix of itself that is followed by a visible character |
| LineText.WhitespaceRunSpec | src/main/java/com/invoicer/document/PseudocodeConverter.java:133-137 | the scan stops at the first non-whitespace character: everything before it is whitespace |
| LineText.WhitespaceRunIs | src/main/java/com/invoicer/document/PseudocodeConverter.java:133-137 | the scan length is fixed by that property: any all-whitespace prefix followed by a visible character or the end of the line is the run |
| LineText.IndentIsBlankOrNon | src/main/java/com/invoicer/document/PseudocodeConverter.java:132-139 | an indentation is "non" or whitespace only |
| LineText.GetWhitespace | src/main/java/com/invoicer/document/PseudocodeConverter.java:132-139 | the scanning loop with early return computes exactly Indent |
| LineText.IndentUnique | src/main/java/com/invoicer/document/PseudocodeConverter.java:132-139 | any whitespace prefix followed by a visible character is what getWhitespace returns |
| LineText.IndentOfPrefixed | src/main/java/com/invoicer/document/PseudocodeConverter.java:90-91 | indentation followed by text that starts visibly reads back as that indentation |
| LineText.CleanLine | src/main/java/com/invoicer/document/PseudocodeConverter.java:118-127 | an empty line stays empty, a final ';' costs exactly one character, braces become spaces in place, and no brace remains |
| LineText.CleanupLines | src/main/java/com/invoicer/document/PseudocodeConverter.java:117-128 | the cleanup loop leaves every line of the buffer cleaned and keeps the length |
| LineText.CleanTwiceIff | src/main/java/com/invoicer/document/PseudocodeConverter.java:122-125 | cleaning again changes a cleaned line exactly when it still ends in ';' |
| LineText.CleanNotIdempotent | src/main/java/com/invoicer/document/PseudocodeConverter.java:122-125 | "x;;" is cleaned to "x;" and then to "x", so cleanup is not idempotent |
| LineText.CleanKeepsIndent | src/main/java/com/invoicer/document/PseudocodeConverter.java:117-128 | cleaning keeps a line's indentation unless its first visible character is a brace or a lone final ';' |
| LineText.CleanUnchanged | src/main/java/com/invoicer/document/PseudocodeConverter.java:117-128 | a line with no brace and no final ';' passes cleanup unchanged |
| JavaStrings.Replace | src/main/java/com/invoicer/document/PseudocodeConverter.java:126 | replace keeps the length and substitutes exactly the matching characters |
| JavaStrings.SplitHasNoSep | src/main/java/com/invoicer/document/PseudocodeConverter.java:91-92 | no token of split(" ") contains the separator |
| JavaStrings.PiecesHaveNoSep | src/main/java/com/invoicer/document/PseudocodeConverter.java:91-92 | no piece cut at the separator contains it |
| JavaStrings.DropTrailingEmptyKeeps | src/main/java/com/invoicer/document/PseudocodeConverter.java:91-92 | split keeps a prefix of the pieces, ends in a non-empty piece, and drops only empty ones |
| JavaStrings.SplitOfJoin | src/main/java/com/invoicer/document/PseudocodeConverter.java:91-92 | split inverts joining when no token holds the separator and the last is non-empty |
| JavaStrings.PiecesOfJoin | src/main/java/com/invoicer/document/PseudocodeConverter.java:91-92 | cutting a joined list at the separator recovers the list |
| JavaStrings.JoinOfPieces | src/main/java/com/invoicer/document/PseudocodeConverter.java:91-92 | joining the pieces of a string gives the string back |
| JavaStrings.TerminatedIsJoinPlusSep | src/main/java/com/invoicer/document/PseudocodeConverter.java:76-81 | appending each parameter and a comma leaves the comma-joined list plus one trailing comma |
| Rewrite.WriteEdit | src/main/java/com/invoicer/document/PseudocodeConverter.java:65-86 | one construct rewrite keeps the length, sets each touched line to the indentation read before the rewrite plus its text, and keeps every other line |
| Rewrite.ApplyEdits | src/main/java/com/invoicer/document/PseudocodeConverter.java:61-116 | the passes keep the number of lines and leave untouched lines as they were |
| Rewrite.ApplyEditsSnoc | src/main/java/com/invoicer/document/PseudocodeConverter.java:61-116 | one more construct rewrite is one more write on the buffer the earlier ones left |
| Rewrite.ApplyEditsAppend | src/main/java/com/invoicer/document/PseudocodeConverter.java:61-116 | running one pass after another is running their edits in sequence |
| Rewrite.LastWriteWins | src/main/java/com/invoicer/document/PseudocodeConverter.java:83-115 | a line holds the text of the last edit that writes it, after the indentation that edit read from the buffer as earlier passes left it |
| Rewrite.IsolatedWrite | src/main/java/com/invoicer/document/PseudocodeConverter.java:83-115 | a line written by one edit only, whose indentation line no other edit writes, is that edit's text after the original indentation |
| Rewrite.IsolatedConverted | src/main/java/com/invoicer/document/PseudocodeConverter.java:83-128 | the same line after cleanup |
| Rewrite.BoundaryLine | src/main/java/com/invoicer/document/PseudocodeConverter.java:61-128 | in the converted file a boundary line is the last writer's text after the indentation it read, cleaned |
| Rewrite.IsolatedBoundaryLine | src/main/java/com/invoicer/document/PseudocodeConverter.java:61-128 | a boundary line no other edit writes is its text after the original indentation line's indentation, cleaned |
| Rewrite.ConvertFrame | src/main/java/com/invoicer/document/PseudocodeConverter.java:117-129 | convertFile keeps the number of lines, and a line that is no construct boundary only goes through cleanup |
| Rewrite.TextStartsVisibleIff | src/main/java/com/invoicer/document/PseudocodeConverter.java:65 | every pseudocode text starts with a visible character, except a package-private signature, which starts with a space |
| Rewrite.TextShape | src/main/java/com/invoicer/document/PseudocodeConverter.java:65-115 | every pseudocode text has at least five characters and does not start with a brace |
| Rewrite.WrittenKeepsIndent | src/main/java/com/invoicer/document/PseudocodeConverter.java:90-93 | a rewritten line keeps the indentation of the line it read, when that line is not blank and the text is not a package-private signature (whose leading space would join the indentation) |
| Rewrite.BlankIndentLine | src/main/java/com/invoicer/document/PseudocodeConverter.java:138 | when the indentation line is blank, the rewritten line is "non" followed by the text |
| Rewrite.ConvertedKeepsIndent | src/main/java/com/invoicer/document/PseudocodeConverter.java:61-128 | end to end, an isolated boundary line of the converted file has the indentation of its edit's indentation line (a statement's first line, a method's signature line, which for an annotated method is the line after its first line), provided that line is not blank and the text is not a package-private signature |
| PseudocodeConverter.BuildSignature | src/main/java/com/invoicer/document/PseudocodeConverter.java:65-82 | the StringBuilder sequence yields indentation, access, " ", keyword, " ", name and the parameters joined by commas in parentheses |
| PseudocodeConverter.AppendParams | src/main/java/com/invoicer/document/PseudocodeConverter.java:76-78 | the parameter loop appends each name followed by a comma |
| PseudocodeConverter.DeleteLast | src/main/java/com/invoicer/document/PseudocodeConverter.java:79-81 | deleteCharAt on the last index removes exactly the trailing comma |
| PseudocodeConverter.SignatureParams | src/main/java/com/invoicer/document/PseudocodeConverter.java:76-82 | splitting the comma-joined parameter list at commas gives the parameter names back when none is empty or holds a comma |
| PseudocodeConverter.RewriteMethod | src/main/java/com/invoicer/document/PseudocodeConverter.java:63-86 | one method rewrites the signature line and, unless default or in an interface, the end line, with the signature line's indentation |
| PseudocodeConverter.RewriteTypeMethods | src/main/java/com/invoicer/document/PseudocodeConverter.java:62-87 | the methods of one type are rewritten in declaration order |
| PseudocodeConverter.RewriteMethods | src/main/java/com/invoicer/document/PseudocodeConverter.java:61-88 | the method pass applies the method edits type by type |
| PseudocodeConverter.RewriteStatements | src/main/java/com/invoicer/document/PseudocodeConverter.java:89-116 | a statement pass reads each statement's indentation, then writes its header and footer |
| PseudocodeConverter.RewriteStatement | src/main/java/com/invoicer/document/PseudocodeConverter.java:90-94 | one statement: the indentation is read from its first line before either write, then header and footer are written, the footer last |
| PseudocodeConverter.ConvertFile | src/main/java/com/invoicer/document/PseudocodeConverter.java:52-130 | convertFile returns Convert: the same number of lines, and untouched lines only cleaned |
| PseudocodeConverter.ConvertToOcrPseudocode | src/main/java/com/invoicer/document/PseudocodeConverter.java:42-50 | no lines without a body; otherwise end minus start converted lines from the signature index, through the end-marker line |
| PseudocodeConverter.MethodSliceBounds | src/main/java/com/invoicer/document/PseudocodeConverter.java:47-49 | for an isolated method that gets an end marker (not default, not in an interface) and spans at least two lines, the slice starts with its cleaned signature and ends with its end marker, both at the signature line's original indentation |
| PseudocodeConverter.MethodSliceFirst | src/main/java/com/invoicer/document/PseudocodeConverter.java:47-49 | the first line of the slice is the cleaned signature |
| PseudocodeConverter.MethodSliceLast | src/main/java/com/invoicer/document/PseudocodeConverter.java:49 | the last line of the slice is the end marker |
| PseudocodeConverter.MethodEndLine | src/main/java/com/invoicer/document/PseudocodeConverter.java:84-86 | an isolated end line is the signature line's indentation plus endprocedure or endfunction, untouched by cleanup |
| PseudocodeConverter.MethodSignatureLine | src/main/java/com/invoicer/document/PseudocodeConverter.java:63-83 | an isolated signature line is its original indentation plus the signature, cleaned |
| PseudocodeConverter.EndLineClean | src/main/java/com/invoicer/document/PseudocodeConverter.java:117-128 | an end marker after an indentation (or "non") passes cleanup unchanged |
| PseudocodeConverter.StmtHeaderLine | src/main/java/com/invoicer/document/PseudocodeConverter.java:89-116 | an isolated statement's first line is its header after the original indentation, cleaned |
| PseudocodeConverter.StmtFooterLine | src/main/java/com/invoicer/document/PseudocodeConverter.java:89-116 | an isolated statement's last line is its footer after the first line's original indentation, cleaned |
| Scenarios.ForLoopText | src/main/java/com/invoicer/document/PseudocodeConverter.java:91-92 | for "T v = lo" and "v op bound" the header is "for T v = lo to bound" and the footer "next v" |
| Scenarios.OneTokenConditionNotPrintable | src/main/java/com/invoicer/document/PseudocodeConverter.java:91 | a `for` whose condition is one token, or absent, has no third token to copy, so it is outside what convertFile handles |
| Scenarios.InterfaceMethodKeepsEndLine | src/main/java/com/invoicer/document/PseudocodeConverter.java:84-86 | an interface method gets its signature but its last line is left alone |
| Scenarios.PackagePrivateSignature | src/main/java/com/invoicer/document/PseudocodeConverter.java:65 | a package-private method's signature starts with a space |
| Scenarios.BlankLineIndent | src/main/java/com/invoicer/document/PseudocodeConverter.java:132-139 | empty and all-blank lines give "non"; a tab-indented line gives the tab |
| Scenarios.OneLineMethod | src/main/java/com/invoicer/document/PseudocodeConverter.java:83-85 | on a one-line method the end marker overwrites the signature |

## Left out

- File reading in `convertFile` (src/main/java/com/invoicer/document/PseudocodeConverter.java:53-60) is left out. The lines are a parameter. A failed read, which leaves an empty or partial list after a printed stack trace (empty when opening fails, partial when `readLine` fails midway), is not modelled.
- The `println` of the method name in `convertToOcrPseudocode` is left out.
- The parser is left out: `findAll`, positions, access specifiers and the printing of expressions, parameters and initialisers. Its output is the input records of `Spans.dfy`, and its traversal order is the order of their lists. Each statement list holds only its own kind of statement (`WellKinded`, part of `UnitFits`), as a query by statement class returns.
- DocumentApplication.java is not part of this model: the menu, file discovery, CSV writing and image drawing are all I/O or rendering.
- Exceptions are preconditions. An index outside the list, or a `for` statement without an initialiser or condition or with too few tokens, makes the Java code throw, and nothing catches it. The model requires these not to happen (`UnitFits`, `Printable`, the bounds of `ConvertToOcrPseudocode`).
- Strings are sequences of Unicode scalar values, not of UTF-16 units: a supplementary character is one `char` in the model and two in Java, so `CleanLine`'s length counts scalar values. No result of the model differs because of this, since every whitespace character, `;`, `{` and `}` is a single BMP unit and the code only looks for those. `Character.isWhitespace` uses one fixed Unicode version's space characters; its dependence on the Unicode version (U+180E in older versions) is not modelled.
- The four statement loops are one method, `RewriteStatements`, applied to each kind of statement in turn. Each kind differs only in its header and footer text.
- Cleanup is not idempotent: a line ending in ";;" keeps one ';' after one pass. The model follows the code.
- Footers are indented like the statement's first line, not like its last line, because the code reads the indentation once from the first line.
- The slice includes the end-marker line. `subList(startPos, end)` excludes index `end`, but the end marker sits at index `end - 1`, just inside the slice.
- Out-of-range spans are not skipped silently. The code does no such check, so the model has preconditions instead.
