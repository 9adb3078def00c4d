/** The part of the swc ECMAScript/TypeScript/JSX syntax tree that the Alef
    compiler front end inspects or builds. Spans, `has_escape` flags and other
    source-position data are not represented. */
module Syntax {

  datatype Option<T> = None | Some(value: T)

  /** The places where the front end aborts (a Rust panic) instead of
      returning a value. */
  datatype Panic =
    | UnnamedElement    // `chars().next().unwrap()` on an empty element name
    | EmptyAttrValue    // `unreachable!` on `attr={}`
    | SpreadChild       // `unimplemented!` on a `{...xs}` child
    | AlreadyBorrowed   // `borrow_mut` on the identifier map while it is borrowed
    | MissingConstInit  // `unwrap` on a const declarator without initialiser

  datatype Outcome<T> = Done(value: T) | Panicked(panic: Panic)

  datatype Lit = Str(text: string) | Bool(flag: bool) | Null | Num(num: int)

  datatype Expr =
    | Ident(sym: string)
    | This
    | Invalid
    | LitExpr(lit: Lit)
    | Member(obj: Expr, prop: string)
    | Call(callee: Expr, args: seq<Expr>)
    | Arrow(params: seq<Pat>, body: ArrowBody, isAsync: bool)
    | Fn(params: seq<Pat>, fnBody: Option<BlockStmt>, isGenerator: bool)
    | Object(props: seq<Property>)
    | Array(elems: seq<Expr>)
    | Await(arg: Expr)
    | Tpl(quasis: seq<string>, exprs: seq<Expr>)
    | Bin(op: string, left: Expr, right: Expr)
    | JSXElement(element: JsxElement)
    | JSXFragment(children: seq<JsxChild>)

  datatype ArrowBody = BlockBody(stmts: seq<Stmt>) | ExprBody(expr: Expr)

  datatype BlockStmt = BlockStmt(stmts: seq<Stmt>)

  datatype Property = KeyValue(key: PropName, value: Expr) | Shorthand(sym: string)

  datatype PropName =
    | IdentKey(sym: string)
    | StrKey(value: string)
    | NumKey(num: int)
    | ComputedKey(expr: Expr)

  /** Binding patterns; only identifier, array and object patterns carry a
      type annotation the walker looks at. */
  datatype Pat =
    | IdentPat(sym: string, typeAnn: Option<TsType>)
    | ArrayPat(elems: seq<Pat>, typeAnn: Option<TsType>)
    | ObjectPat(keys: seq<string>, typeAnn: Option<TsType>)
    | RestPat(arg: Pat)

  datatype TsType =
    | TypeRef(name: EntityName, typeParams: Option<seq<TsType>>)
    | ArrayType(elem: TsType)
    | KeywordType(keyword: string)

  datatype EntityName = EntityIdent(sym: string) | Qualified(left: EntityName, right: string)

  datatype VarKind = Var | Let | Const

  datatype Declarator = Declarator(name: Pat, init: Option<Expr>)

  datatype Stmt =
    | ExprStmt(expr: Expr)
    | Labeled(lbl: string, body: Stmt)
    | VarDecl(kind: VarKind, decls: seq<Declarator>)
    | Block(stmts: seq<Stmt>)
    | Return(arg: Option<Expr>)
    | Empty

  datatype ImportSpecifier =
    | DefaultImport(local: string)
    | NamedImport(local: string, imported: Option<string>)
    | NamespaceImport(local: string)

  datatype ModuleDecl =
    | Import(specifiers: seq<ImportSpecifier>, src: string)
    | ExportDefaultExpr(expr: Expr)
    | ExportNamed(names: seq<string>)

  datatype ModuleItem = ModuleDeclItem(decl: ModuleDecl) | StmtItem(stmt: Stmt)

  // JSX nodes

  datatype JsxElement = JsxElement(name: JsxElementName, attrs: seq<JsxAttrOrSpread>, children: seq<JsxChild>)

  datatype JsxElementName =
    | NameIdent(sym: string)
    | NameNamespaced(ns: string, local: string)
    | NameMember(obj: JsxObject, prop: string)

  datatype JsxObject = ObjIdent(sym: string) | ObjMember(obj: JsxObject, prop: string)

  datatype JsxAttr = JsxAttr(name: JsxAttrName, value: Option<JsxAttrValue>)

  datatype JsxAttrOrSpread = PlainAttr(attr: JsxAttr) | SpreadAttr(expr: Expr)

  datatype JsxAttrName = AttrIdent(sym: string) | AttrNamespaced(ns: string, local: string)

  datatype JsxAttrValue =
    | LitValue(lit: Lit)
    | ContainerValue(container: JsxExpr)
    | ElementValue(element: JsxElement)
    | FragmentValue(children: seq<JsxChild>)

  /** The content of `{ ... }`: an expression, or nothing at all. */
  datatype JsxExpr = EmptyExpr | SomeExpr(expr: Expr)

  datatype JsxChild =
    | Text(value: string)
    | ChildElement(element: JsxElement)
    | ChildFragment(children: seq<JsxChild>)
    | ChildContainer(container: JsxExpr)
    | ChildSpread(expr: Expr)
}
