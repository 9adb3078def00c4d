/** The component walker: it reads the statements of a component module and
    classifies each into the typed statements of `Statements`, following the
    labels (`$:`, `$t:`, `$style:`, `$_name:`) and the type annotations
    (`Prop`, `Slots`, `Context`, `Memo`, `FC`, `Ref`, arrays) the component
    language gives meaning to. */
module Walker {
  import opened Syntax
  import opened Statements
  import opened Strings
  import Resolve

  /** The style-sheet parser is not part of this model; the walker is given
      it as a function from a template literal's parts to a parsed style. */
  type CssParser = (seq<string>, seq<Expr>) -> CssTemplate

  const SideEffectPrefix := "$_"

  // ---------------------------------------------------------------------
  // Type annotations

  /** The type annotation of a binding pattern, when it can carry one. */
  function Annotation(p: Pat): Option<TsType> {
    match p
    case IdentPat(_, ann) => ann
    case ArrayPat(_, ann) => ann
    case ObjectPat(_, ann) => ann
    case RestPat(_) => None
  }

  /** The name of a type reference annotation `N` or `N<...>` whose name is a
      plain identifier. */
  function RefName(ann: Option<TsType>): Option<string> {
    if ann.Some? && ann.value.TypeRef? && ann.value.name.EntityIdent? then Some(ann.value.name.sym) else None
  }

  /** `Prop<Slots>`, the one annotation that marks slots. */
  const SlotsAnnotation := TypeRef(EntityIdent("Prop"), Some([TypeRef(EntityIdent("Slots"), None)]))

  /** The tag of a `const` declaration without an `FC` annotation. */
  function ConstTag(ann: Option<TsType>): (t: ConstTyped)
    ensures t == Slots <==> ann == Some(SlotsAnnotation)
    ensures t == Prop <==> RefName(ann) == Some("Prop") && ann != Some(SlotsAnnotation)
    ensures t == Context <==> RefName(ann) == Some("Context")
    ensures t == Memo <==> RefName(ann) == Some("Memo")
    ensures t == Regular <==> RefName(ann) !in {Some("Prop"), Some("Context"), Some("Memo")}
  {
    match RefName(ann)
    case None => Regular
    case Some(sym) =>
      if sym == "Prop" then
        match ann.value.typeParams
        case Some(params) =>
          if |params| == 1 && params[0].TypeRef? && params[0].name.EntityIdent?
             && params[0].typeParams.None? && params[0].name.sym == "Slots"
          then assert params == [params[0]]; Slots
          else Prop
        case None => Prop
      else if sym == "Context" then Context
      else if sym == "Memo" then Memo
      else Regular
  }

  /** An initialiser the walker takes a component body from: an arrow
      function, or a non-generator function expression that has a body. */
  predicate IsFcInit(init: Option<Expr>) {
    init.Some? && (init.value.Arrow? || (init.value.Fn? && init.value.fnBody.Some? && !init.value.isGenerator))
  }

  // ---------------------------------------------------------------------
  // The classification, as functions

  /** Sequential composition of two classifications: the first failure wins,
      otherwise the statements are concatenated in order. */
  function Then(a: Outcome<seq<Statement>>, b: Outcome<seq<Statement>>): Outcome<seq<Statement>> {
    if a.Panicked? then a else if b.Panicked? then b else Done(a.value + b.value)
  }

  function Single(o: Outcome<Statement>): Outcome<seq<Statement>> {
    if o.Panicked? then Panicked(o.panic) else Done([o.value])
  }

  function FcOf(body: Outcome<seq<Statement>>): Outcome<Statement> {
    if body.Panicked? then Panicked(body.panic) else Done(FCStatement(body.value))
  }

  /** A `const` declaration kept as such; its initialiser is required. */
  function PlainConst(typed: ConstTyped, d: Declarator): Outcome<Statement> {
    if d.init.None? then Panicked(MissingConstInit) else Done(ConstStatement(typed, d.name, d.init.value))
  }

  function ClassifyStmt(s: Stmt, parse: CssParser): Outcome<seq<Statement>>
    decreases s
  {
    match s
    case VarDecl(kind, decls) =>
      if kind == Const then ClassifyConsts(decls, parse) else Done(ClassifyVars(decls))
    case _ => Done(ClassifyNonDecl(s, parse))
  }

  function ClassifyConsts(decls: seq<Declarator>, parse: CssParser): Outcome<seq<Statement>>
    decreases decls
  {
    if decls == [] then Done([])
    else Then(ClassifyConsts(decls[..|decls| - 1], parse), Single(ClassifyConst(decls[|decls| - 1], parse)))
  }

  /** One `const` declarator: a component body when annotated `FC` and
      initialised by a function, a tagged constant otherwise. */
  function ClassifyConst(d: Declarator, parse: CssParser): Outcome<Statement>
    decreases d
  {
    if RefName(Annotation(d.name)) == Some("FC") then
      match d.init
      case Some(Arrow(_, BlockBody(ss), _)) => FcOf(ClassifyBody(ss, parse))
      case Some(Arrow(_, ExprBody(e), _)) => Done(FCStatement(ClassifyNonDecl(ExprStmt(e), parse)))
      case Some(Fn(_, Some(BlockStmt(ss)), false)) => FcOf(ClassifyBody(ss, parse))
      case _ => PlainConst(Regular, d)
    else PlainConst(ConstTag(Annotation(d.name)), d)
  }

  /** The statements of a body, classified one after the other. */
  function ClassifyBody(ss: seq<Stmt>, parse: CssParser): Outcome<seq<Statement>>
    decreases ss
  {
    if ss == [] then Done([])
    else Then(ClassifyBody(ss[..|ss| - 1], parse), ClassifyStmt(ss[|ss| - 1], parse))
  }

  /** A `let`/`var` declarator. */
  function VarOf(d: Declarator): (r: Statement)
    ensures r.VarStatement? && r.name == d.name && r.init == d.init
    ensures r.isAsync <==> d.init.Some? && d.init.value.Await?
    ensures r.isArray <==> Annotation(d.name).Some? && Annotation(d.name).value.ArrayType?
    ensures r.isRef <==> RefName(Annotation(d.name)) == Some("Ref")
    ensures !(r.isArray && r.isRef)
  {
    var isAsync := match d.init case Some(Await(_)) => true case _ => false;
    match Annotation(d.name)
    case Some(ArrayType(_)) => VarStatement(d.name, d.init, true, false, isAsync)
    case Some(TypeRef(EntityIdent(sym), _)) => VarStatement(d.name, d.init, false, sym == "Ref", isAsync)
    case _ => VarStatement(d.name, d.init, false, false, isAsync)
  }

  function ClassifyVars(decls: seq<Declarator>): (r: seq<Statement>)
    ensures |r| == |decls|
    ensures forall i :: 0 <= i < |decls| ==> r[i] == VarOf(decls[i])
  {
    seq(|decls|, i requires 0 <= i < |decls| => VarOf(decls[i]))
  }

  /** Labelled statements and every statement that is not a declaration. */
  function ClassifyNonDecl(s: Stmt, parse: CssParser): seq<Statement>
    requires !s.VarDecl?
  {
    match s
    case Labeled(lbl, body) => [ClassifyLabeled(lbl, body, parse)]
    case _ => [Passthrough(s)]
  }

  function ClassifyLabeled(lbl: string, body: Stmt, parse: CssParser): Statement {
    if lbl == "$" then SideEffectStatement(None, body)
    else if lbl == "$t" then
      if body.ExprStmt? && body.expr.JSXElement? then Template(Element(body.expr.element))
      else if body.ExprStmt? && body.expr.JSXFragment? then Template(Fragment(body.expr.children))
      else Passthrough(Labeled(lbl, body))
    else if lbl == "$style" then
      if body.ExprStmt? && body.expr.Tpl? then StyleStatement(parse(body.expr.quasis, body.expr.exprs))
      else Passthrough(Labeled(lbl, body))
    else if StartsWith(lbl, SideEffectPrefix) then
      SideEffectStatement(Some(TrimStartMatches(lbl, SideEffectPrefix)), body)
    else Passthrough(Labeled(lbl, body))
  }

  /** The statements one module item contributes. */
  function ItemStatements(item: ModuleItem, parse: CssParser): Outcome<seq<Statement>> {
    match item
    case ModuleDeclItem(Import(specifiers, src)) =>
      Done([ImportStatement(specifiers, src, EndsWith(src, Resolve.ComponentExtension))])
    case ModuleDeclItem(ExportDefaultExpr(e)) => Done([ExportStatement(e)])
    case ModuleDeclItem(_) => Done([])
    case StmtItem(s) => ClassifyStmt(s, parse)
  }

  function FoldItems(items: seq<ModuleItem>, parse: CssParser): Outcome<seq<Statement>> {
    if items == [] then Done([])
    else Then(FoldItems(items[..|items| - 1], parse), ItemStatements(items[|items| - 1], parse))
  }

  // ---------------------------------------------------------------------
  // The walker

  class AstWalker {
    const resolver: Resolve.Resolver
    const parseCss: CssParser

    constructor (resolver: Resolve.Resolver, parseCss: CssParser)
      ensures this.resolver == resolver && this.parseCss == parseCss
    {
      this.resolver := resolver;
      this.parseCss := parseCss;
    }

    /** Classifies one statement; declarations are classified declarator by
        declarator, in order. */
    method TransformStmt(stmt: Stmt) returns (r: Outcome<seq<Statement>>)
      ensures r == ClassifyStmt(stmt, parseCss)
      decreases stmt
    {
      match stmt {
        case VarDecl(kind, decls) =>
          var stmts: seq<Statement> := [];
          if kind == Const {
            for i := 0 to |decls|
              invariant ClassifyConsts(decls[..i], parseCss) == Done(stmts)
            {
              var one := TransformConst(decls[i]);
              assert decls[..i + 1][..i] == decls[..i];
              if one.Panicked? {
                ConstsPanicPersists(decls, i + 1, parseCss);
                return Panicked(one.panic);
              }
              stmts := stmts + [one.value];
            }
            assert decls[..|decls|] == decls;
          } else {
            for i := 0 to |decls|
              invariant |stmts| == i
              invariant forall j :: 0 <= j < i ==> stmts[j] == VarOf(decls[j])
            {
              stmts := stmts + [VarOf(decls[i])];
            }
            assert stmts == ClassifyVars(decls);
          }
          r := Done(stmts);
        case _ =>
          r := Done(ClassifyNonDecl(stmt, parseCss));
      }
    }

    /** One `const` declarator. */
    method TransformConst(d: Declarator) returns (r: Outcome<Statement>)
      ensures r == ClassifyConst(d, parseCss)
      decreases d
    {
      var typed := Regular;
      var ann := Annotation(d.name);
      if RefName(ann) == Some("FC") {
        match d.init {
          case Some(Arrow(_, BlockBody(ss), _)) =>
            var body := TransformBody(ss);
            return FcOf(body);
          case Some(Arrow(_, ExprBody(e), _)) =>
            return Done(FCStatement(ClassifyNonDecl(ExprStmt(e), parseCss)));
          case Some(Fn(_, Some(BlockStmt(ss)), false)) =>
            var body := TransformBody(ss);
            return FcOf(body);
          case _ =>
        }
      } else {
        typed := ConstTag(ann);
      }
      if d.init.None? {
        return Panicked(MissingConstInit);
      }
      r := Done(ConstStatement(typed, d.name, d.init.value));
    }

    /** The statements of a component body, concatenated in order. */
    method TransformBody(ss: seq<Stmt>) returns (r: Outcome<seq<Statement>>)
      ensures r == ClassifyBody(ss, parseCss)
      decreases ss
    {
      var fcStmts: seq<Statement> := [];
      for i := 0 to |ss|
        invariant ClassifyBody(ss[..i], parseCss) == Done(fcStmts)
      {
        var part := TransformStmt(ss[i]);
        assert ss[..i + 1][..i] == ss[..i];
        if part.Panicked? {
          BodyPanicPersists(ss, i + 1, parseCss);
          return Panicked(part.panic);
        }
        fcStmts := fcStmts + part.value;
      }
      assert ss[..|ss|] == ss;
      r := Done(fcStmts);
    }

    /** The statements of a whole module, in order. */
    method FoldStatements(items: seq<ModuleItem>) returns (r: Outcome<seq<Statement>>)
      ensures r == FoldItems(items, parseCss)
    {
      var stmts: seq<Statement> := [];
      for i := 0 to |items|
        invariant FoldItems(items[..i], parseCss) == Done(stmts)
      {
        assert items[..i + 1][..i] == items[..i];
        assert FoldItems(items[..i + 1], parseCss) == Then(Done(stmts), ItemStatements(items[i], parseCss));
        match items[i] {
          case ModuleDeclItem(decl) =>
            match decl {
              case Import(specifiers, src) =>
                stmts := stmts + [ImportStatement(specifiers, src, EndsWith(src, Resolve.ComponentExtension))];
              case ExportDefaultExpr(expr) =>
                stmts := stmts + [ExportStatement(expr)];
              case _ =>
                assert stmts + [] == stmts;
            }
          case StmtItem(stmt) =>
            var part := TransformStmt(stmt);
            if part.Panicked? {
              FoldPanicPersists(items, i + 1, parseCss);
              return Panicked(part.panic);
            }
            stmts := stmts + part.value;
        }
      }
      assert items[..|items|] == items;
      r := Done(stmts);
    }

    /** Folds the module into the resolver's AST and leaves an empty module. */
    method FoldModuleItems(items: seq<ModuleItem>) returns (r: Outcome<seq<ModuleItem>>)
      modifies resolver
      ensures FoldItems(items, parseCss).Done? ==>
        r == Done([]) && resolver.ast == Some(Ast(FoldItems(items, parseCss).value))
      ensures FoldItems(items, parseCss).Panicked? ==>
        r == Panicked(FoldItems(items, parseCss).panic) && resolver.ast == old(resolver.ast)
      ensures resolver.specifier == old(resolver.specifier)
      ensures resolver.runtimeModule == old(resolver.runtimeModule)
      ensures resolver.depGraph == old(resolver.depGraph)
      ensures resolver.css == old(resolver.css)
    {
      var stmts := FoldStatements(items);
      if stmts.Panicked? {
        return Panicked(stmts.panic);
      }
      resolver.ast := Some(Ast(stmts.value));
      r := Done([]);
    }
  }

  // ---------------------------------------------------------------------
  // Order and failure

  lemma ThenUnit(a: Outcome<seq<Statement>>)
    ensures Then(a, Done([])) == a
  {
    if a.Done? {
      assert a.value + [] == a.value;
    }
  }

  lemma ThenAssociative(a: Outcome<seq<Statement>>, b: Outcome<seq<Statement>>, c: Outcome<seq<Statement>>)
    ensures Then(Then(a, b), c) == Then(a, Then(b, c))
  {
    if a.Done? && b.Done? && c.Done? {
      assert (a.value + b.value) + c.value == a.value + (b.value + c.value);
    }
  }

  /** A body is classified piecewise: the statements of `a + b` are those of
      `a` followed by those of `b`, and the first failure wins. */
  lemma {:induction false} BodyAppend(a: seq<Stmt>, b: seq<Stmt>, parse: CssParser)
    ensures ClassifyBody(a + b, parse) == Then(ClassifyBody(a, parse), ClassifyBody(b, parse))
    decreases |b|
  {
    if b == [] {
      assert a + b == a;
      ThenUnit(ClassifyBody(a, parse));
    } else {
      var b' := b[..|b| - 1];
      BodyAppend(a, b', parse);
      assert (a + b)[..|a + b| - 1] == a + b';
      ThenAssociative(ClassifyBody(a, parse), ClassifyBody(b', parse), ClassifyStmt(b[|b| - 1], parse));
    }
  }

  /** The same for the declarators of one `const` declaration. */
  lemma {:induction false} ConstsAppend(a: seq<Declarator>, b: seq<Declarator>, parse: CssParser)
    ensures ClassifyConsts(a + b, parse) == Then(ClassifyConsts(a, parse), ClassifyConsts(b, parse))
    decreases |b|
  {
    if b == [] {
      assert a + b == a;
      ThenUnit(ClassifyConsts(a, parse));
    } else {
      var b' := b[..|b| - 1];
      ConstsAppend(a, b', parse);
      assert (a + b)[..|a + b| - 1] == a + b';
      ThenAssociative(ClassifyConsts(a, parse), ClassifyConsts(b', parse), Single(ClassifyConst(b[|b| - 1], parse)));
    }
  }

  /** The same for the items of a module. */
  lemma {:induction false} FoldAppend(a: seq<ModuleItem>, b: seq<ModuleItem>, parse: CssParser)
    ensures FoldItems(a + b, parse) == Then(FoldItems(a, parse), FoldItems(b, parse))
    decreases |b|
  {
    if b == [] {
      assert a + b == a;
      ThenUnit(FoldItems(a, parse));
    } else {
      var b' := b[..|b| - 1];
      FoldAppend(a, b', parse);
      assert (a + b)[..|a + b| - 1] == a + b';
      ThenAssociative(FoldItems(a, parse), FoldItems(b', parse), ItemStatements(b[|b| - 1], parse));
    }
  }

  lemma BodyPanicPersists(ss: seq<Stmt>, k: nat, parse: CssParser)
    requires k <= |ss| && ClassifyBody(ss[..k], parse).Panicked?
    ensures ClassifyBody(ss, parse) == ClassifyBody(ss[..k], parse)
  {
    BodyAppend(ss[..k], ss[k..], parse);
    assert ss[..k] + ss[k..] == ss;
  }

  lemma ConstsPanicPersists(decls: seq<Declarator>, k: nat, parse: CssParser)
    requires k <= |decls| && ClassifyConsts(decls[..k], parse).Panicked?
    ensures ClassifyConsts(decls, parse) == ClassifyConsts(decls[..k], parse)
  {
    ConstsAppend(decls[..k], decls[k..], parse);
    assert decls[..k] + decls[k..] == decls;
  }

  lemma FoldPanicPersists(items: seq<ModuleItem>, k: nat, parse: CssParser)
    requires k <= |items| && FoldItems(items[..k], parse).Panicked?
    ensures FoldItems(items, parse) == FoldItems(items[..k], parse)
  {
    FoldAppend(items[..k], items[k..], parse);
    assert items[..k] + items[k..] == items;
  }

  // ---------------------------------------------------------------------
  // Declarations

  /** A `const` declaration yields exactly one statement per declarator, in
      order, and fails exactly when one of its declarators does. */
  lemma {:induction false} OneStatementPerConst(decls: seq<Declarator>, parse: CssParser)
    ensures ClassifyConsts(decls, parse).Done? <==> forall i :: 0 <= i < |decls| ==> ClassifyConst(decls[i], parse).Done?
    ensures ClassifyConsts(decls, parse).Done? ==>
      |ClassifyConsts(decls, parse).value| == |decls| &&
      forall i :: 0 <= i < |decls| ==> ClassifyConsts(decls, parse).value[i] == ClassifyConst(decls[i], parse).value
  {
    if decls != [] {
      OneStatementPerConst(decls[..|decls| - 1], parse);
      ConstsStep(decls, parse);
    }
  }

  /** `OneStatementPerConst` for `decls` from the same facts about all but
      its last declarator. */
  lemma ConstsStep(decls: seq<Declarator>, parse: CssParser)
    requires decls != []
    requires var p := decls[..|decls| - 1];
      && (ClassifyConsts(p, parse).Done? <==> forall i :: 0 <= i < |p| ==> ClassifyConst(p[i], parse).Done?)
      && (ClassifyConsts(p, parse).Done? ==>
            |ClassifyConsts(p, parse).value| == |p| &&
            forall i :: 0 <= i < |p| ==> ClassifyConsts(p, parse).value[i] == ClassifyConst(p[i], parse).value)
    ensures ClassifyConsts(decls, parse).Done? <==> forall i :: 0 <= i < |decls| ==> ClassifyConst(decls[i], parse).Done?
    ensures ClassifyConsts(decls, parse).Done? ==>
      |ClassifyConsts(decls, parse).value| == |decls| &&
      forall i :: 0 <= i < |decls| ==> ClassifyConsts(decls, parse).value[i] == ClassifyConst(decls[i], parse).value
  {
    var n := |decls| - 1;
    var p := decls[..n];
    var rp, rl := ClassifyConsts(p, parse), ClassifyConst(decls[n], parse);
    assert ClassifyConsts(decls, parse) == Then(rp, Single(rl));
    assert forall i :: 0 <= i < n ==> p[i] == decls[i];
    if rp.Panicked? {
      var i :| 0 <= i < |p| && !ClassifyConst(p[i], parse).Done?;
      assert !ClassifyConst(decls[i], parse).Done?;
    } else if rl.Panicked? {
    } else {
      var v := rp.value + [rl.value];
      assert ClassifyConsts(decls, parse) == Done(v);
      forall i | 0 <= i < |decls| ensures v[i] == ClassifyConst(decls[i], parse).value {
        if i < n {
          assert v[i] == rp.value[i];
        }
      }
    }
  }

  /** A `const` declarator is either a component body or a constant carrying
      its own pattern and initialiser, tagged by its annotation (`FC` falls
      back to `Regular`); without an initialiser it fails. */
  lemma ConstShape(d: Declarator, parse: CssParser)
    ensures d.init.None? ==> ClassifyConst(d, parse) == Panicked(MissingConstInit)
    ensures ClassifyConst(d, parse).Panicked? ==> ClassifyConst(d, parse).panic == MissingConstInit
    ensures ClassifyConst(d, parse).Done? ==>
      var st := ClassifyConst(d, parse).value;
      (st.FCStatement? <==> RefName(Annotation(d.name)) == Some("FC") && IsFcInit(d.init)) &&
      (st.ConstStatement? <==> !st.FCStatement?) &&
      (st.ConstStatement? ==>
        st.name == d.name && d.init == Some(st.expr) &&
        st.typed == (if RefName(Annotation(d.name)) == Some("FC") then Regular else ConstTag(Annotation(d.name))))
  {
    ConstFailsOnlyOnMissingInit(d, parse);
  }

  /** The only way classification fails is a `const` declarator without an
      initialiser, at any depth of nested component bodies. */
  lemma {:induction false} StmtFailsOnlyOnMissingInit(s: Stmt, parse: CssParser)
    ensures ClassifyStmt(s, parse).Panicked? ==> ClassifyStmt(s, parse).panic == MissingConstInit
    decreases s
  {
    if s.VarDecl? && s.kind == Const {
      ConstsFailOnlyOnMissingInit(s.decls, parse);
    }
  }

  lemma {:induction false} ConstsFailOnlyOnMissingInit(decls: seq<Declarator>, parse: CssParser)
    ensures ClassifyConsts(decls, parse).Panicked? ==> ClassifyConsts(decls, parse).panic == MissingConstInit
    decreases decls
  {
    if decls != [] {
      ConstsFailOnlyOnMissingInit(decls[..|decls| - 1], parse);
      ConstFailsOnlyOnMissingInit(decls[|decls| - 1], parse);
    }
  }

  lemma {:induction false} ConstFailsOnlyOnMissingInit(d: Declarator, parse: CssParser)
    ensures ClassifyConst(d, parse).Panicked? ==> ClassifyConst(d, parse).panic == MissingConstInit
    decreases d
  {
    if RefName(Annotation(d.name)) == Some("FC") {
      match d.init
      case Some(Arrow(_, BlockBody(ss), _)) => BodyFailsOnlyOnMissingInit(ss, parse);
      case Some(Fn(_, Some(BlockStmt(ss)), false)) => BodyFailsOnlyOnMissingInit(ss, parse);
      case _ =>
    }
  }

  lemma {:induction false} BodyFailsOnlyOnMissingInit(ss: seq<Stmt>, parse: CssParser)
    ensures ClassifyBody(ss, parse).Panicked? ==> ClassifyBody(ss, parse).panic == MissingConstInit
    decreases ss
  {
    if ss != [] {
      BodyFailsOnlyOnMissingInit(ss[..|ss| - 1], parse);
      StmtFailsOnlyOnMissingInit(ss[|ss| - 1], parse);
    }
  }

  /** An `FC`-annotated declarator initialised by a function becomes one
      component statement holding its body's statements; an expression body
      counts as a single expression statement. Any other initialiser keeps
      the declarator as a `Regular` constant. */
  lemma ComponentBody(d: Declarator, parse: CssParser)
    requires RefName(Annotation(d.name)) == Some("FC")
    ensures d.init.Some? && d.init.value.Arrow? && d.init.value.body.BlockBody? ==>
      ClassifyConst(d, parse) == FcOf(ClassifyBody(d.init.value.body.stmts, parse))
    ensures d.init.Some? && d.init.value.Arrow? && d.init.value.body.ExprBody? ==>
      ClassifyConst(d, parse) == FcOf(ClassifyStmt(ExprStmt(d.init.value.body.expr), parse))
    ensures IsFcInit(d.init) && d.init.value.Fn? ==>
      ClassifyConst(d, parse) == FcOf(ClassifyBody(d.init.value.fnBody.value.stmts, parse))
    ensures !IsFcInit(d.init) ==> ClassifyConst(d, parse) == PlainConst(Regular, d)
  {
  }

  /** A body of one statement is that statement's classification. */
  lemma BodyOfOne(s: Stmt, parse: CssParser)
    ensures ClassifyBody([s], parse) == ClassifyStmt(s, parse)
  {
    assert [s][..0] == [];
    var r := ClassifyStmt(s, parse);
    if r.Done? {
      assert [] + r.value == r.value;
    }
  }

  /** Only `const` declarations can fail. */
  lemma OnlyConstsFail(s: Stmt, parse: CssParser)
    requires !(s.VarDecl? && s.kind == Const)
    ensures ClassifyStmt(s, parse).Done?
  {
  }

  /** A `let` or `var` declaration yields one variable statement per
      declarator, in order. */
  lemma OneStatementPerVar(kind: VarKind, decls: seq<Declarator>, parse: CssParser)
    requires kind != Const
    ensures ClassifyStmt(VarDecl(kind, decls), parse).Done?
    ensures var r := ClassifyStmt(VarDecl(kind, decls), parse).value;
      |r| == |decls| && forall i :: 0 <= i < |decls| ==> r[i].VarStatement? && r[i].name == decls[i].name
  {
  }

  /** A const declarator without initialiser aborts the walk. */
  lemma MissingInitFails(p: Pat, parse: CssParser)
    ensures ClassifyStmt(VarDecl(Const, [Declarator(p, None)]), parse) == Panicked(MissingConstInit)
  {
    var none: seq<Statement> := [];
    assert [Declarator(p, None)][..0] == [];
    var d := Declarator(p, None);
    assert ClassifyConsts([], parse) == Done(none);
    assert ClassifyConst(d, parse) == Panicked(MissingConstInit);
    assert ClassifyConsts([d], parse) == Then(Done(none), Single(ClassifyConst(d, parse)));
  }

  // ---------------------------------------------------------------------
  // Labels and other statements

  /** Any statement other than a declaration or a labelled statement passes
      through unchanged. */
  lemma OtherStatementPassesThrough(s: Stmt, parse: CssParser)
    requires !s.VarDecl? && !s.Labeled?
    ensures ClassifyStmt(s, parse) == Done([Passthrough(s)])
  {
  }

  /** A labelled statement yields exactly one statement. */
  lemma LabeledYieldsOne(lbl: string, body: Stmt, parse: CssParser)
    ensures ClassifyStmt(Labeled(lbl, body), parse) == Done([ClassifyLabeled(lbl, body, parse)])
    ensures var st := ClassifyLabeled(lbl, body, parse);
      st.Passthrough? ==> st.stmt == Labeled(lbl, body)
  {
  }

  /** `$: body` is an anonymous side effect keeping its body. */
  lemma AnonymousSideEffect(body: Stmt, parse: CssParser)
    ensures ClassifyLabeled("$", body, parse) == SideEffectStatement(None, body)
  {
  }

  /** `$_name: body` is a named side effect; the name is the label without
      all of its leading `$_` repetitions. */
  lemma NamedSideEffect(lbl: string, body: Stmt, parse: CssParser)
    requires StartsWith(lbl, SideEffectPrefix)
    ensures var st := ClassifyLabeled(lbl, body, parse);
      st.SideEffectStatement? && st.stmt == body && st.effectName.Some? &&
      lbl == Repeat(SideEffectPrefix, LeadingCopies(lbl, SideEffectPrefix)) + st.effectName.value &&
      !StartsWith(st.effectName.value, SideEffectPrefix)
  {
    assert lbl[1] == '_';
    TrimStartMatchesSplits(lbl, SideEffectPrefix);
  }

  lemma NamedSideEffectExamples(body: Stmt, parse: CssParser)
    ensures ClassifyLabeled("$_fetch", body, parse) == SideEffectStatement(Some("fetch"), body)
    ensures ClassifyLabeled("$_$_fetch", body, parse) == SideEffectStatement(Some("fetch"), body)
    ensures ClassifyLabeled("$_", body, parse) == SideEffectStatement(Some(""), body)
  {
    assert TrimStartMatches("fetch", SideEffectPrefix) == "fetch" by {
      assert "fetch"[..2][0] == 'f';
    }
    assert TrimStartMatches("$_fetch", SideEffectPrefix) == "fetch" by {
      assert "$_fetch"[2..] == "fetch";
    }
    assert TrimStartMatches("$_$_fetch", SideEffectPrefix) == "fetch" by {
      assert "$_$_fetch"[2..] == "$_fetch";
    }
    assert TrimStartMatches("$_", SideEffectPrefix) == "" by {
      assert "$_"[2..] == "";
    }
  }

  /** `$t:` keeps markup as a template, unchanged; any other body is passed
      through with its label. */
  lemma TemplateLabel(body: Stmt, parse: CssParser)
    ensures body.ExprStmt? && body.expr.JSXElement? ==>
      ClassifyLabeled("$t", body, parse) == Template(Element(body.expr.element))
    ensures body.ExprStmt? && body.expr.JSXFragment? ==>
      ClassifyLabeled("$t", body, parse) == Template(Fragment(body.expr.children))
    ensures !(body.ExprStmt? && (body.expr.JSXElement? || body.expr.JSXFragment?)) ==>
      ClassifyLabeled("$t", body, parse) == Passthrough(Labeled("$t", body))
  {
  }

  /** `$style:` parses a template literal into a style; any other body is
      passed through with its label. */
  lemma StyleLabel(body: Stmt, parse: CssParser)
    ensures body.ExprStmt? && body.expr.Tpl? ==>
      ClassifyLabeled("$style", body, parse) == StyleStatement(parse(body.expr.quasis, body.expr.exprs))
    ensures !(body.ExprStmt? && body.expr.Tpl?) ==>
      ClassifyLabeled("$style", body, parse) == Passthrough(Labeled("$style", body))
  {
  }

  /** Labels the walker does not know are passed through. */
  lemma OtherLabelPassesThrough(lbl: string, body: Stmt, parse: CssParser)
    requires lbl !in {"$", "$t", "$style"} && !StartsWith(lbl, SideEffectPrefix)
    ensures ClassifyLabeled(lbl, body, parse) == Passthrough(Labeled(lbl, body))
  {
  }

  // ---------------------------------------------------------------------
  // Modules

  /** An import becomes an import statement, flagged as a component import
      exactly when its source ends in `.alef`. */
  lemma ImportItem(specifiers: seq<ImportSpecifier>, src: string, parse: CssParser)
    ensures FoldItems([ModuleDeclItem(Import(specifiers, src))], parse) ==
      Done([ImportStatement(specifiers, src, EndsWith(src, Resolve.ComponentExtension))])
  {
    assert [ModuleDeclItem(Import(specifiers, src))][..0] == [];
    var st := ImportStatement(specifiers, src, EndsWith(src, Resolve.ComponentExtension));
    assert [] + [st] == [st];
  }

  lemma ImportFlagExamples(specifiers: seq<ImportSpecifier>)
    ensures EndsWith("./Button.alef", Resolve.ComponentExtension)
    ensures !EndsWith("./button.js", Resolve.ComponentExtension)
    ensures !EndsWith("./Button.alef.js", Resolve.ComponentExtension)
  {
    assert "./Button.alef"[8..] == ".alef";
    assert "./button.js"[6..] != ".alef" by { assert "./button.js"[6..][0] == 'o'; }
    assert "./Button.alef.js"[11..] != ".alef" by { assert "./Button.alef.js"[11..][0] == 'e'; }
  }

  /** A default export becomes an export statement. */
  lemma ExportItem(e: Expr, parse: CssParser)
    ensures FoldItems([ModuleDeclItem(ExportDefaultExpr(e))], parse) == Done([ExportStatement(e)])
  {
    assert [ModuleDeclItem(ExportDefaultExpr(e))][..0] == [];
    assert [] + [ExportStatement(e)] == [ExportStatement(e)];
  }

  /** Other module declarations contribute nothing. */
  lemma {:induction false} OtherDeclsDropped(items: seq<ModuleItem>, parse: CssParser)
    requires forall i :: 0 <= i < |items| ==> items[i].ModuleDeclItem? && items[i].decl.ExportNamed?
    ensures FoldItems(items, parse) == Done([])
  {
    if items != [] {
      OtherDeclsDropped(items[..|items| - 1], parse);
      ThenUnit(Done([]));
    }
  }

  /** A statement item contributes its classification. */
  lemma StatementItem(s: Stmt, parse: CssParser)
    ensures FoldItems([StmtItem(s)], parse) == ClassifyStmt(s, parse)
  {
    assert [StmtItem(s)][..0] == [];
    var r := ClassifyStmt(s, parse);
    if r.Done? {
      assert [] + r.value == r.value;
    }
  }
}
