/**
 * What the converter reads from the parsed compilation unit: for every
 * construct it rewrites, its 1-based first and last line and the textual
 * fragments it copies into the pseudocode. The parser and its
 * pretty-printer are outside the model; fragments are the strings the
 * parser's `toString` would have produced.
 */
module Spans {

  datatype Option<T> = None | Some(value: T)

  /** The parser's access specifier of a method. */
  datatype Access = Public | Protected | Private | PackagePrivate

  /** AccessSpecifier.asString: the keyword, or the empty string for
      package-private access. */
  function AccessString(a: Access): string {
    match a
    case Public => "public"
    case Protected => "protected"
    case Private => "private"
    case PackagePrivate => ""
  }

  /** A method declaration: its first line (the first annotation's line when
      it is annotated), its last line, and what the signature needs. */
  datatype MethodSpan = MethodSpan(
    begin: nat,
    end: nat,
    hasAnnotations: bool,
    isVoid: bool,
    isDefault: bool,
    hasBody: bool,
    access: Access,
    name: string,
    params: seq<string>)

  /** A class or interface declaration with its methods, in declaration order. */
  datatype TypeSpan = TypeSpan(isInterface: bool, methods: seq<MethodSpan>)

  /** A statement construct. `init` holds the printed initialisers of a `for`
      statement and `compare` its printed condition, absent in `for (;;)`. */
  datatype Stmt =
    | ForStmt(begin: nat, end: nat, init: seq<string>, compare: Option<string>)
    | IfStmt(begin: nat, end: nat, condition: string)
    | ForEachStmt(begin: nat, end: nat, variable: string, iterable: string)
    | SwitchStmt(begin: nat, end: nat, selector: string)

  /** The compilation unit as the converter queries it: every class or
      interface declaration, then every `for`, `if`, for-each and `switch`
      statement of the whole unit, each list in the parser's traversal order. */
  datatype UnitSpans = UnitSpans(
    types: seq<TypeSpan>,
    fors: seq<Stmt>,
    ifs: seq<Stmt>,
    forEachs: seq<Stmt>,
    switches: seq<Stmt>)

  /** Each statement list holds only statements of its own kind, as the
      parser's query by statement class returns them. */
  predicate WellKinded(u: UnitSpans) {
    && (forall s :: s in u.fors ==> s.ForStmt?)
    && (forall s :: s in u.ifs ==> s.IfStmt?)
    && (forall s :: s in u.forEachs ==> s.ForEachStmt?)
    && (forall s :: s in u.switches ==> s.SwitchStmt?)
  }
}
