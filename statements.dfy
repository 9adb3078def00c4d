/** The typed statements the component walker produces from a module body,
    and the records the resolver keeps about a component. */
module Statements {
  import opened Syntax

  /** The parsed form of a `$style` template: its literal parts and its
      interpolated expressions. */
  datatype CssTemplate = CssTemplate(quasis: seq<string>, exprs: seq<string>)

  /** What a `const` declaration's type annotation says about it. */
  datatype ConstTyped = Regular | Prop | Slots | Context | Memo

  /** The markup of a `$t:` template, kept as written. */
  datatype TemplateStatement = Element(element: JsxElement) | Fragment(children: seq<JsxChild>)

  datatype Statement =
    | ImportStatement(specifiers: seq<ImportSpecifier>, src: string, isAlefComponent: bool)
    | ExportStatement(expr: Expr)
    | ConstStatement(typed: ConstTyped, name: Pat, expr: Expr)
    | VarStatement(name: Pat, init: Option<Expr>, isArray: bool, isRef: bool, isAsync: bool)
    | SideEffectStatement(effectName: Option<string>, stmt: Stmt)
    | Template(template: TemplateStatement)
    | StyleStatement(css: CssTemplate)
    | FCStatement(statements: seq<Statement>)
    | Passthrough(stmt: Stmt)      // a statement the walker does not interpret

  /** A whole component as the walker hands it to the resolver. */
  datatype Ast = Ast(statements: seq<Statement>)
}
