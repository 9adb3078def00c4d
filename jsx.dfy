/** Lowering of JSX markup into calls of the Alef runtime: an element
    becomes `Element(name, attrs, ...children)`, a fragment becomes
    `Fragment(...children)`, and an embedded expression that depends on
    component state is wrapped in `Memo(() => e, [deps])` or
    `Dirty(e, [deps])`.

    The identifier map that collects dependencies is not part of this model:
    it enters as a `DepCollector`, a pair of functions returning the rewritten
    expression and the indices of the state it reads. Asking the map for a
    runtime identifier (`create_ident`) and reporting a diagnostic are
    recorded as `Effect`s, in the order the source performs them. */
module Jsx {
  import opened Syntax
  import opened Strings
  import JsxText

  // ---------------------------------------------------------------------
  // Effects and results

  datatype Effect = RecordIdent(name: string) | ReportError(message: string)

  /** A lowered expression with the effects performed while lowering it. */
  datatype Lowered = Lowered(expr: Expr, effects: seq<Effect>)

  datatype LoweredList = LoweredList(exprs: seq<Expr>, effects: seq<Effect>)

  datatype LoweredProps = LoweredProps(props: seq<Property>, effects: seq<Effect>)

  /** What the identifier map hands back: the rewritten expression and the
      indices of the state it depends on, in the order collected. */
  datatype Collected = Collected(expr: Expr, deps: seq<nat>)

  /** The identifier map's `convert_memo_expr` and `convert_dirty_expr`. */
  datatype DepCollector = DepCollector(memo: Expr -> Collected, dirty: Expr -> Collected)

  /** A converted expression, its dependencies and the effects so far. */
  datatype Converted = Converted(expr: Expr, deps: seq<nat>, effects: seq<Effect>)

  const NamespaceMessage := "Alep Component does not support JSX Namespace yet."

  predicate IsRuntimeName(n: string) {
    n == "Element" || n == "Fragment" || n == "Memo" || n == "Dirty"
  }

  /** The only effects lowering performs: asking for one of the four runtime
      identifiers, or reporting the namespace diagnostic. */
  ghost predicate KnownEffects(effs: seq<Effect>) {
    forall eff :: eff in effs ==>
      (eff.RecordIdent? && IsRuntimeName(eff.name)) || eff == ReportError(NamespaceMessage)
  }

  // ---------------------------------------------------------------------
  // Event props

  /** `is_event_prop_name`: at least three characters, `o`, `n`, then an
      upper-case ASCII letter. The answer depends on the first three
      characters only. */
  predicate IsEventPropName(name: string)
    ensures IsEventPropName(name) ==> |name| >= 3 && StartsWith(name, "on") && 'A' <= name[2] <= 'Z'
    ensures |name| > 3 ==> IsEventPropName(name) == IsEventPropName(name[..3])
  {
    if |name| < 3 then false
    else name[0] == 'o' && name[1] == 'n' && IsAsciiUpper(name[2])
  }

  /** `is_event_prop`: string and identifier keys are tested by their text;
      numeric and computed keys are never event props. */
  predicate IsEventProp(key: PropName)
    ensures IsEventProp(key) <==> (key.StrKey? || key.IdentKey?) && IsEventPropName(PropKeyText(key))
  {
    match key
    case StrKey(v) => IsEventPropName(v)
    case IdentKey(s) => IsEventPropName(s)
    case _ => false
  }

  /** The cases of the unit test of `is_event_prop`, and the short name. */
  lemma EventPropExamples()
    ensures IsEventProp(StrKey("onClick"))
    ensures !IsEventProp(StrKey("onclick"))
    ensures IsEventProp(IdentKey("onClick"))
    ensures !IsEventProp(IdentKey("onclick"))
    ensures !IsEventPropName("on")
    ensures !IsEventProp(NumKey(7))
  {
  }

  // ---------------------------------------------------------------------
  // Element names

  /** `convert_jsx_obj`: the object part of a member element name. */
  function ConvertJsxObj(obj: JsxObject): (r: Expr)
    ensures obj == ObjIdent("this") ==> r == This
    ensures obj.ObjIdent? && obj.sym != "this" ==> r == Ident(obj.sym)
    ensures obj.ObjMember? ==> r.Member? && r.prop == obj.prop
  {
    match obj
    case ObjIdent(sym) => if sym == "this" then This else Ident(sym)
    case ObjMember(o, prop) => Member(ConvertJsxObj(o), prop)
  }

  /** Reads a member element name's object back from its lowered form. */
  function JsxObjOf(e: Expr): Option<JsxObject> {
    match e
    case This => Some(ObjIdent("this"))
    case Ident(sym) => Some(ObjIdent(sym))
    case Member(o, prop) =>
      (match JsxObjOf(o)
       case Some(obj) => Some(ObjMember(obj, prop))
       case None => None)
    case _ => None
  }

  /** Lowering keeps the whole nesting of a member name: it can be read back. */
  lemma {:induction false} ConvertJsxObjRoundTrip(obj: JsxObject)
    ensures JsxObjOf(ConvertJsxObj(obj)) == Some(obj)
  {
    match obj
    case ObjIdent(sym) =>
    case ObjMember(o, prop) => ConvertJsxObjRoundTrip(o);
  }

  /** `jsx_name`: `this`, an intrinsic tag (lower-case first letter) as a
      string literal, a component as an identifier, a member name lowered
      recursively; a namespaced name reports an error and yields `Invalid`.
      An empty identifier has no first character: the source panics. */
  function JsxName(name: JsxElementName): (r: Outcome<Lowered>)
    ensures r.Panicked? <==> name.NameIdent? && name.sym == ""
    ensures r.Done? ==> (r.value.effects == [ReportError(NamespaceMessage)] <==> name.NameNamespaced?)
    ensures r.Done? ==> (r.value.effects == [] <==> !name.NameNamespaced?)
    ensures r.Done? && name.NameNamespaced? ==> r.value.expr == Invalid
    ensures r.Done? && name.NameIdent? && name.sym != "this" ==>
      (r.value.expr == LitExpr(Str(name.sym)) <==> IsAsciiLower(name.sym[0]))
    ensures r.Done? && name == NameIdent("this") ==> r.value.expr == This
    ensures r.Done? && name.NameIdent? && name.sym != "this" && !IsAsciiLower(name.sym[0]) ==>
      r.value.expr == Ident(name.sym)
    ensures r.Done? && name.NameMember? ==> r.value.expr == Member(ConvertJsxObj(name.obj), name.prop)
  {
    match name
    case NameIdent(sym) =>
      if sym == "this" then Done(Lowered(This, []))
      else if sym == "" then Panicked(UnnamedElement)
      else if IsAsciiLower(sym[0]) then Done(Lowered(LitExpr(Str(sym)), []))
      else Done(Lowered(Ident(sym), []))
    case NameNamespaced(_, _) => Done(Lowered(Invalid, [ReportError(NamespaceMessage)]))
    case NameMember(obj, prop) => Done(Lowered(Member(ConvertJsxObj(obj), prop), []))
  }

  /** Reads an element name back from the first argument of `Element`. */
  function JsxNameOf(e: Expr): Option<JsxElementName> {
    match e
    case This => Some(NameIdent("this"))
    case LitExpr(Str(s)) => Some(NameIdent(s))
    case Ident(s) => Some(NameIdent(s))
    case Member(o, prop) =>
      (match JsxObjOf(o)
       case Some(obj) => Some(NameMember(obj, prop))
       case None => None)
    case _ => None
  }

  /** Every name but a namespaced one is recoverable from its lowering, so two
      different element names never lower to the same callee argument. */
  lemma JsxNameRoundTrip(name: JsxElementName)
    requires JsxName(name).Done? && !name.NameNamespaced?
    ensures JsxNameOf(JsxName(name).value.expr) == Some(name)
  {
    if name.NameMember? {
      ConvertJsxObjRoundTrip(name.obj);
    }
  }

  // ---------------------------------------------------------------------
  // Attributes

  /** `to_prop_name`: a name holding `-` becomes a string key, any other
      identifier stays an identifier key, and `ns:name` becomes the string
      key `"ns:name"`. The key keeps the attribute name's text. */
  function ToPropName(n: JsxAttrName): (r: PropName)
    ensures PropKeyText(r) == AttrNameText(n)
    ensures r.StrKey? <==> n.AttrNamespaced? || '-' in n.sym
    ensures r.IdentKey? <==> n.AttrIdent? && '-' !in n.sym
  {
    match n
    case AttrIdent(sym) => if '-' in sym then StrKey(sym) else IdentKey(sym)
    case AttrNamespaced(ns, local) => StrKey(ns + ":" + local)
  }

  /** The text of an identifier or string key. */
  function PropKeyText(key: PropName): string {
    match key
    case IdentKey(s) => s
    case StrKey(v) => v
    case _ => ""
  }

  /** The attribute name as written in the markup. */
  function AttrNameText(n: JsxAttrName): string {
    match n
    case AttrIdent(sym) => sym
    case AttrNamespaced(ns, local) => ns + ":" + local
  }

  /** An attribute is treated as an event handler exactly when its name as
      written reads as an event name; for `ns:name` that is decided by the
      namespace alone (`on:click` is not an event handler, `onClick:x` is). */
  lemma EventAttrName(n: JsxAttrName)
    ensures IsEventProp(ToPropName(n)) <==> IsEventPropName(AttrNameText(n))
    ensures n.AttrNamespaced? ==> (IsEventProp(ToPropName(n)) <==> IsEventPropName(n.ns))
  {
    if n.AttrNamespaced? {
      var t := n.ns + ":" + n.local;
      if |n.ns| == 0 {
        assert t[0] == ':';
      } else if |n.ns| == 1 {
        assert t[1] == ':';
      } else if |n.ns| == 2 {
        assert t[2] == ':';
      } else {
        assert t[..3] == n.ns[..3];
        assert t[0] == n.ns[0] && t[1] == n.ns[1] && t[2] == n.ns[2];
      }
    }
  }

  /** The expression an attribute value denotes (`true` when absent); `None`
      for the empty container `attr={}`. */
  function AttrValueExpr(v: Option<JsxAttrValue>): Option<Expr> {
    match v
    case None => Some(LitExpr(Bool(true)))
    case Some(LitValue(lit)) => Some(LitExpr(lit))
    case Some(ContainerValue(SomeExpr(e))) => Some(e)
    case Some(ContainerValue(EmptyExpr)) => None
    case Some(ElementValue(el)) => Some(JSXElement(el))
    case Some(FragmentValue(ch)) => Some(JSXFragment(ch))
  }

  /** `attr_to_prop`: one key-value property; a missing value means `true`
      and the empty container is unreachable (a panic). */
  function AttrToProp(a: JsxAttr): (r: Outcome<Property>)
    ensures r.Panicked? <==> a.value == Some(ContainerValue(EmptyExpr))
    ensures r.Panicked? ==> r.panic == EmptyAttrValue
    ensures r.Done? ==> r.value.KeyValue? && r.value.key == ToPropName(a.name)
    ensures r.Done? ==> Some(r.value.value) == AttrValueExpr(a.value)
    ensures r.Done? ==> ExprSize(r.value.value) < AttrSize(PlainAttr(a))
  {
    var key := ToPropName(a.name);
    match a.value
    case None => Done(KeyValue(key, LitExpr(Bool(true))))
    case Some(v) =>
      match v
      case ContainerValue(SomeExpr(e)) => Done(KeyValue(key, e))
      case ElementValue(el) => Done(KeyValue(key, JSXElement(el)))
      case FragmentValue(ch) => Done(KeyValue(key, JSXFragment(ch)))
      case LitValue(lit) => Done(KeyValue(key, LitExpr(lit)))
      case ContainerValue(EmptyExpr) => Panicked(EmptyAttrValue)
  }

  predicate HasSpread(attrs: seq<JsxAttrOrSpread>) {
    exists i :: 0 <= i < |attrs| && attrs[i].SpreadAttr?
  }

  // The spread branch: `Object.assign({...}, spread, {...}, ...)`

  /** An attribute once `attr_to_prop` has run on it. */
  datatype ArgItem = PropItem(prop: Property) | SpreadItem(expr: Expr)

  /** The attributes with `attr_to_prop` applied to the plain ones; the first
      unreachable empty container aborts. */
  function LowerItems(attrs: seq<JsxAttrOrSpread>): (r: Outcome<seq<ArgItem>>)
    ensures r.Done? ==> |r.value| == |attrs|
    ensures r.Done? ==> forall i :: 0 <= i < |attrs| ==> (r.value[i].SpreadItem? <==> attrs[i].SpreadAttr?)
    ensures r.Done? ==> forall i :: 0 <= i < |attrs| && attrs[i].SpreadAttr? ==> r.value[i].expr == attrs[i].expr
  {
    if attrs == [] then Done([])
    else
      match LowerItems(attrs[..|attrs| - 1])
      case Panicked(p) => Panicked(p)
      case Done(items) =>
        match attrs[|attrs| - 1]
        case SpreadAttr(e) => Done(items + [SpreadItem(e)])
        case PlainAttr(a) =>
          match AttrToProp(a)
          case Panicked(p) => Panicked(p)
          case Done(prop) => Done(items + [PropItem(prop)])
  }

  lemma {:induction false} LowerItemsPanicPersists(attrs: seq<JsxAttrOrSpread>, n: nat)
    requires n <= |attrs|
    requires LowerItems(attrs[..n]).Panicked?
    ensures LowerItems(attrs) == LowerItems(attrs[..n])
    decreases |attrs| - n
  {
    if n < |attrs| {
      assert attrs[..n + 1][..n] == attrs[..n];
      LowerItemsPanicPersists(attrs, n + 1);
    } else {
      assert attrs[..n] == attrs;
    }
  }

  /** Some plain attribute has the empty container `attr={}` as its value. */
  ghost predicate HasEmptyContainer(attrs: seq<JsxAttrOrSpread>) {
    exists i :: 0 <= i < |attrs| && attrs[i].PlainAttr? && attrs[i].attr.value == Some(ContainerValue(EmptyExpr))
  }

  /** Each plain attribute gives the property `attr_to_prop` makes of it. */
  lemma {:induction false} LowerItemsPlainItems(attrs: seq<JsxAttrOrSpread>)
    requires LowerItems(attrs).Done?
    ensures forall i :: 0 <= i < |attrs| && attrs[i].PlainAttr? ==>
      LowerItems(attrs).value[i].PropItem? && AttrToProp(attrs[i].attr) == Done(LowerItems(attrs).value[i].prop)
  {
    if attrs != [] {
      var n := |attrs| - 1;
      LowerItemsPlainItems(attrs[..n]);
      var items := LowerItems(attrs[..n]).value;
      assert LowerItems(attrs).value[..n] == items;
    }
  }

  /** Lowering the attributes panics exactly when one of them is the empty
      container, and then with the `attr_to_prop` panic. */
  lemma {:induction false} LowerItemsPanicsExactly(attrs: seq<JsxAttrOrSpread>)
    ensures LowerItems(attrs).Panicked? <==> HasEmptyContainer(attrs)
    ensures LowerItems(attrs).Panicked? ==> LowerItems(attrs).panic == EmptyAttrValue
  {
    if attrs != [] {
      var n := |attrs| - 1;
      var init := attrs[..n];
      LowerItemsPanicsExactly(init);
      if HasEmptyContainer(init) {
        var i :| 0 <= i < |init| && init[i].PlainAttr? && init[i].attr.value == Some(ContainerValue(EmptyExpr));
        assert attrs[i] == init[i];
      }
      if HasEmptyContainer(attrs) && !HasEmptyContainer(init) {
        var i :| 0 <= i < |attrs| && attrs[i].PlainAttr? && attrs[i].attr.value == Some(ContainerValue(EmptyExpr));
        assert i == n;
      }
    }
  }

  /** The argument groups of `Object.assign`: a maximal run of plain
      attributes, or one spread. */
  datatype ArgGroup = RunGroup(props: seq<Property>) | SpreadGroup(expr: Expr)

  /** Length of the run of plain attributes at the end of `items`. */
  function PlainSuffix(items: seq<ArgItem>): (k: nat)
    ensures k <= |items|
    ensures k > 0 ==> items[|items| - 1].PropItem?
    ensures k < |items| ==> items[|items| - 1 - k].SpreadItem?
  {
    if items == [] || items[|items| - 1].SpreadItem? then 0
    else 1 + PlainSuffix(items[..|items| - 1])
  }

  /** The properties of the plain attributes among `items`, in order. */
  function PropsOf(items: seq<ArgItem>): seq<Property> {
    if items == [] then []
    else PropsOf(items[..|items| - 1]) + (if items[|items| - 1].PropItem? then [items[|items| - 1].prop] else [])
  }

  /** The spread expressions among `items`, in order. */
  function SpreadsOf(items: seq<ArgItem>): seq<Expr> {
    if items == [] then []
    else SpreadsOf(items[..|items| - 1]) + (if items[|items| - 1].SpreadItem? then [items[|items| - 1].expr] else [])
  }

  /** `items` cut into maximal runs of plain attributes and single spreads. */
  function Groups(items: seq<ArgItem>): (gs: seq<ArgGroup>)
    ensures items != [] ==> gs != []
  {
    if items == [] then []
    else if items[|items| - 1].SpreadItem? then
      Groups(items[..|items| - 1]) + [SpreadGroup(items[|items| - 1].expr)]
    else
      var k := PlainSuffix(items);
      Groups(items[..|items| - k]) + [RunGroup(PropsOf(items[|items| - k..]))]
  }

  function GroupArg(g: ArgGroup): Expr {
    match g
    case RunGroup(props) => Object(props)
    case SpreadGroup(e) => e
  }

  function GroupArgs(gs: seq<ArgGroup>): (args: seq<Expr>)
    ensures |args| == |gs|
    ensures forall i :: 0 <= i < |gs| ==> args[i] == GroupArg(gs[i])
  {
    if gs == [] then [] else [GroupArg(gs[0])] + GroupArgs(gs[1..])
  }

  /** The empty object put first when the first attribute is a spread, so
      that `Object.assign` never writes into a spread value. */
  function Lead(items: seq<ArgItem>): seq<Expr> {
    if items != [] && items[0].SpreadItem? then [Object([])] else []
  }

  /** The arguments of `Object.assign` for the lowered attributes. */
  function AssignArgsOf(items: seq<ArgItem>): seq<Expr> {
    if items == [] then [Object([])] else Lead(items) + GroupArgs(Groups(items))
  }

  /** The spread branch of `transform_attrs`, as a value. */
  function AssignArgs(attrs: seq<JsxAttrOrSpread>): Outcome<seq<Expr>> {
    match LowerItems(attrs)
    case Panicked(p) => Panicked(p)
    case Done(items) => Done(AssignArgsOf(items))
  }

  lemma GroupArgsAppend(a: seq<ArgGroup>, b: seq<ArgGroup>)
    ensures GroupArgs(a + b) == GroupArgs(a) + GroupArgs(b)
  {
  }

  lemma PlainSuffixSnoc(xs: seq<ArgItem>, x: ArgItem)
    ensures PlainSuffix(xs + [x]) == if x.PropItem? then PlainSuffix(xs) + 1 else 0
  {
    assert (xs + [x])[..|xs|] == xs;
  }

  lemma PropsOfSnoc(xs: seq<ArgItem>, p: Property)
    ensures PropsOf(xs + [PropItem(p)]) == PropsOf(xs) + [p]
  {
    assert (xs + [PropItem(p)])[..|xs|] == xs;
  }

  lemma GroupsSnocSpread(xs: seq<ArgItem>, e: Expr)
    ensures Groups(xs + [SpreadItem(e)]) == Groups(xs) + [SpreadGroup(e)]
  {
    assert (xs + [SpreadItem(e)])[..|xs|] == xs;
  }

  lemma LeadSnoc(xs: seq<ArgItem>, x: ArgItem)
    ensures Lead(xs + [x]) == if xs == [] then Lead([x]) else Lead(xs)
  {
    if xs != [] {
      assert (xs + [x])[0] == xs[0];
    }
  }

  lemma SliceSnoc(xs: seq<ArgItem>, x: ArgItem, k: nat)
    requires k <= |xs|
    ensures (xs + [x])[..|xs| - k] == xs[..|xs| - k]
    ensures (xs + [x])[|xs| - k..] == xs[|xs| - k..] + [x]
  {
  }

  lemma PropsOfRunNonEmpty(items: seq<ArgItem>, k: nat)
    requires k == PlainSuffix(items) && k > 0
    ensures PropsOf(items[|items| - k..]) != []
  {
    var run := items[|items| - k..];
    assert run[|run| - 1] == items[|items| - 1];
  }

  /** The `check!` flush of the source: push the pending object when nothing
      has been pushed yet or when it holds properties. */
  function Flush(args: seq<Expr>, cur: seq<Property>): seq<Expr> {
    if args == [] || cur != [] then args + [Object(cur)] else args
  }

  /** The loop state of the spread branch once `items` are processed: the
      pending object holds the trailing run of `k` plain attributes, and the
      arguments pushed so far are the groups before it. */
  ghost predicate ArgsState(items: seq<ArgItem>, k: nat, cur: seq<Property>, args: seq<Expr>) {
    && k == PlainSuffix(items)
    && cur == PropsOf(items[|items| - k..])
    && args == Lead(items) + GroupArgs(Groups(items[..|items| - k]))
  }

  lemma PropStep(items: seq<ArgItem>, k: nat, cur: seq<Property>, args: seq<Expr>, p: Property)
    requires ArgsState(items, k, cur, args)
    ensures ArgsState(items + [PropItem(p)], k + 1, cur + [p], args)
  {
    PlainSuffixSnoc(items, PropItem(p));
    SliceSnoc(items, PropItem(p), k);
    PropsOfSnoc(items[|items| - k..], p);
    LeadSnoc(items, PropItem(p));
  }

  lemma SpreadStep(items: seq<ArgItem>, k: nat, cur: seq<Property>, args: seq<Expr>, e: Expr)
    requires ArgsState(items, k, cur, args)
    ensures ArgsState(items + [SpreadItem(e)], 0, [], Flush(args, cur) + [e])
  {
    var s := items + [SpreadItem(e)];
    PlainSuffixSnoc(items, SpreadItem(e));
    LeadSnoc(items, SpreadItem(e));
    assert s[..|s| - 0] == s;
    assert s[|s| - 0..] == [];
    if k > 0 {
      SpreadAfterRun(items, k, cur, args, e);
    } else {
      SpreadAfterSpread(items, cur, args, e);
    }
  }

  /** A spread after a run of plain attributes flushes the run as an object. */
  lemma SpreadAfterRun(items: seq<ArgItem>, k: nat, cur: seq<Property>, args: seq<Expr>, e: Expr)
    requires ArgsState(items, k, cur, args) && k > 0
    ensures Flush(args, cur) + [e] == Lead(items) + GroupArgs(Groups(items + [SpreadItem(e)]))
  {
    var n := |items| - k;
    var pre := Groups(items[..n]);
    assert cur == PropsOf(items[n..]);
    assert args == Lead(items) + GroupArgs(pre);
    PropsOfRunNonEmpty(items, k);
    PlainSuffixSplit(items, k);
    GroupsSnocSpread(items, e);
    GroupArgsAppend(pre, [RunGroup(cur), SpreadGroup(e)]);
    assert GroupArgs([RunGroup(cur), SpreadGroup(e)]) == [Object(cur), e];
    calc {
      Flush(args, cur) + [e];
    == Lead(items) + GroupArgs(pre) + [Object(cur), e];
    == Lead(items) + GroupArgs(pre + [RunGroup(cur), SpreadGroup(e)]);
    == { assert pre + [RunGroup(cur), SpreadGroup(e)] == (pre + [RunGroup(cur)]) + [SpreadGroup(e)]; }
       Lead(items) + GroupArgs(Groups(items + [SpreadItem(e)]));
    }
  }

  /** A spread right after a spread, or first of all, flushes nothing but
      the leading empty object. */
  lemma SpreadAfterSpread(items: seq<ArgItem>, cur: seq<Property>, args: seq<Expr>, e: Expr)
    requires ArgsState(items, 0, cur, args)
    ensures Flush(args, cur) + [e] == Lead(items + [SpreadItem(e)]) + GroupArgs(Groups(items + [SpreadItem(e)]))
  {
    assert cur == [] && args == Lead(items) + GroupArgs(Groups(items)) by {
      assert items[..|items|] == items;
      assert items[|items|..] == [];
    }
    GroupsSnocSpread(items, e);
    GroupArgsAppend(Groups(items), [SpreadGroup(e)]);
    assert GroupArgs([SpreadGroup(e)]) == [e];
    LeadSnoc(items, SpreadItem(e));
    if items == [] {
      assert Flush(args, cur) == [Object([])];
      assert Lead([SpreadItem(e)]) == [Object([])];
    } else {
      assert args != [];
      assert Flush(args, cur) == args;
    }
  }

  lemma FinalFlush(items: seq<ArgItem>, k: nat, cur: seq<Property>, args: seq<Expr>)
    requires ArgsState(items, k, cur, args)
    ensures Flush(args, cur) == AssignArgsOf(items)
  {
    if items == [] {
      assert args == [] && cur == [];
    } else if k > 0 {
      FinalFlushRun(items, k, cur, args);
    } else {
      FinalFlushSpread(items, cur, args);
    }
  }

  /** The final flush after a run of plain attributes pushes the run. */
  lemma FinalFlushRun(items: seq<ArgItem>, k: nat, cur: seq<Property>, args: seq<Expr>)
    requires ArgsState(items, k, cur, args) && items != [] && k > 0
    ensures Flush(args, cur) == AssignArgsOf(items)
  {
    var n := |items| - k;
    var pre := Groups(items[..n]);
    assert cur == PropsOf(items[n..]);
    assert args == Lead(items) + GroupArgs(pre);
    PropsOfRunNonEmpty(items, k);
    PlainSuffixSplit(items, k);
    GroupArgsAppend(pre, [RunGroup(cur)]);
    assert GroupArgs([RunGroup(cur)]) == [Object(cur)];
    calc {
      Flush(args, cur);
    == args + [Object(cur)];
    == Lead(items) + (GroupArgs(pre) + GroupArgs([RunGroup(cur)]));
    == Lead(items) + GroupArgs(pre + [RunGroup(cur)]);
    == Lead(items) + GroupArgs(Groups(items));
    == AssignArgsOf(items);
    }
  }

  /** The final flush after a spread pushes nothing. */
  lemma FinalFlushSpread(items: seq<ArgItem>, cur: seq<Property>, args: seq<Expr>)
    requires ArgsState(items, 0, cur, args) && items != []
    ensures Flush(args, cur) == AssignArgsOf(items)
  {
    assert items[..|items|] == items;
    assert items[|items|..] == [];
    assert cur == [];
    assert |GroupArgs(Groups(items))| > 0;
    assert args != [];
  }

  /** The loop state of the spread branch after the first `i` attributes. */
  ghost predicate CollectState(attrs: seq<JsxAttrOrSpread>, i: nat, items: seq<ArgItem>, k: nat,
                               cur: seq<Property>, args: seq<Expr>) {
    && i <= |attrs|
    && LowerItems(attrs[..i]) == Done(items)
    && ArgsState(items, k, cur, args)
  }

  lemma PlainCollectStep(attrs: seq<JsxAttrOrSpread>, i: nat, items: seq<ArgItem>, k: nat,
                         cur: seq<Property>, args: seq<Expr>, p: Property)
    requires CollectState(attrs, i, items, k, cur, args) && i < |attrs|
    requires attrs[i].PlainAttr? && AttrToProp(attrs[i].attr) == Done(p)
    ensures CollectState(attrs, i + 1, items + [PropItem(p)], k + 1, cur + [p], args)
  {
    assert attrs[..i + 1][..i] == attrs[..i];
    PropStep(items, k, cur, args, p);
  }

  lemma SpreadCollectStep(attrs: seq<JsxAttrOrSpread>, i: nat, items: seq<ArgItem>, k: nat,
                          cur: seq<Property>, args: seq<Expr>)
    requires CollectState(attrs, i, items, k, cur, args) && i < |attrs| && attrs[i].SpreadAttr?
    ensures CollectState(attrs, i + 1, items + [SpreadItem(attrs[i].expr)], 0, [], Flush(args, cur) + [attrs[i].expr])
  {
    assert attrs[..i + 1][..i] == attrs[..i];
    SpreadStep(items, k, cur, args, attrs[i].expr);
  }

  lemma PlainCollectPanics(attrs: seq<JsxAttrOrSpread>, i: nat, items: seq<ArgItem>, k: nat,
                           cur: seq<Property>, args: seq<Expr>)
    requires CollectState(attrs, i, items, k, cur, args) && i < |attrs|
    requires attrs[i].PlainAttr? && AttrToProp(attrs[i].attr).Panicked?
    ensures AssignArgs(attrs) == Panicked(AttrToProp(attrs[i].attr).panic)
  {
    LowerItemsPanicAt(attrs, i, items);
  }

  lemma LowerItemsPanicAt(attrs: seq<JsxAttrOrSpread>, i: nat, items: seq<ArgItem>)
    requires i < |attrs| && LowerItems(attrs[..i]) == Done(items)
    requires attrs[i].PlainAttr? && AttrToProp(attrs[i].attr).Panicked?
    ensures LowerItems(attrs) == Panicked(AttrToProp(attrs[i].attr).panic)
  {
    assert attrs[..i + 1][..i] == attrs[..i];
    LowerItemsPanicPersists(attrs, i + 1);
  }

  lemma CollectDone(attrs: seq<JsxAttrOrSpread>, items: seq<ArgItem>, k: nat,
                    cur: seq<Property>, args: seq<Expr>)
    requires CollectState(attrs, |attrs|, items, k, cur, args)
    ensures AssignArgs(attrs) == Done(Flush(args, cur))
  {
    assert attrs[..|attrs|] == attrs;
    FinalFlush(items, k, cur, args);
  }

  /** The spread branch of `transform_attrs` as the source writes it: a loop
      that collects plain attributes into a pending object and flushes it
      before each spread and at the end. */
  method CollectAssignArgs(attrs: seq<JsxAttrOrSpread>) returns (r: Outcome<seq<Expr>>)
    ensures r == AssignArgs(attrs)
  {
    var args: seq<Expr> := [];
    var cur: seq<Property> := [];
    ghost var items: seq<ArgItem> := [];
    ghost var k: nat := 0;
    var i := 0;
    while i < |attrs|
      invariant CollectState(attrs, i, items, k, cur, args)
      decreases |attrs| - i
    {
      match attrs[i] {
        case PlainAttr(a) =>
          var prop := AttrToProp(a);
          if prop.Panicked? {
            PlainCollectPanics(attrs, i, items, k, cur, args);
            return Panicked(prop.panic);
          }
          PlainCollectStep(attrs, i, items, k, cur, args, prop.value);
          cur := cur + [prop.value];
          items := items + [PropItem(prop.value)];
          k := k + 1;
        case SpreadAttr(e) =>
          SpreadCollectStep(attrs, i, items, k, cur, args);
          if args == [] || cur != [] {
            args := args + [Object(cur)];
            cur := [];
          }
          args := args + [e];
          items := items + [SpreadItem(e)];
          k := 0;
      }
      i := i + 1;
    }
    CollectDone(attrs, items, k, cur, args);
    if args == [] || cur != [] {
      args := args + [Object(cur)];
      cur := [];
    }
    r := Done(args);
  }

  // What the grouping keeps

  /** The properties of the run groups, concatenated in order. */
  function RunProps(gs: seq<ArgGroup>): seq<Property> {
    if gs == [] then []
    else RunProps(gs[..|gs| - 1]) + (if gs[|gs| - 1].RunGroup? then gs[|gs| - 1].props else [])
  }

  /** The expressions of the spread groups, in order. */
  function SpreadExprs(gs: seq<ArgGroup>): seq<Expr> {
    if gs == [] then []
    else SpreadExprs(gs[..|gs| - 1]) + (if gs[|gs| - 1].SpreadGroup? then [gs[|gs| - 1].expr] else [])
  }

  /** Runs are maximal: no run is empty and no two runs are adjacent. */
  ghost predicate MaximalRuns(gs: seq<ArgGroup>) {
    forall i :: 0 <= i < |gs| && gs[i].RunGroup? ==>
      gs[i].props != [] && (i + 1 < |gs| ==> gs[i + 1].SpreadGroup?)
  }

  lemma PropsOfAppend(a: seq<ArgItem>, b: seq<ArgItem>)
    ensures PropsOf(a + b) == PropsOf(a) + PropsOf(b)
    decreases |b|
  {
    if b == [] {
      assert a + b == a;
    } else {
      assert (a + b)[..|a + b| - 1] == a + b[..|b| - 1];
      PropsOfAppend(a, b[..|b| - 1]);
    }
  }

  lemma RunPropsSnoc(gs: seq<ArgGroup>, g: ArgGroup)
    ensures RunProps(gs + [g]) == RunProps(gs) + (if g.RunGroup? then g.props else [])
    ensures SpreadExprs(gs + [g]) == SpreadExprs(gs) + (if g.SpreadGroup? then [g.expr] else [])
  {
    assert (gs + [g])[..|gs|] == gs;
  }

  /** The run at the end of `items` and what comes before it. */
  lemma PlainSuffixSplit(items: seq<ArgItem>, k: nat)
    requires items != [] && items[|items| - 1].PropItem? && k == PlainSuffix(items)
    ensures Groups(items) == Groups(items[..|items| - k]) + [RunGroup(PropsOf(items[|items| - k..]))]
  {
  }

  /** The step of `GroupsKeepItems` for a trailing run of plain attributes. */
  lemma KeepItemsRunStep(items: seq<ArgItem>, prefix: seq<ArgItem>, run: seq<ArgItem>)
    requires items != [] && items[|items| - 1].PropItem?
    requires prefix == items[..|items| - PlainSuffix(items)] && run == items[|items| - PlainSuffix(items)..]
    requires RunProps(Groups(prefix)) == PropsOf(prefix)
    requires SpreadExprs(Groups(prefix)) == SpreadsOf(prefix)
    ensures RunProps(Groups(items)) == PropsOf(items)
    ensures SpreadExprs(Groups(items)) == SpreadsOf(items)
  {
    PlainSuffixSplit(items, PlainSuffix(items));
    var g := RunGroup(PropsOf(run));
    RunPropsSnoc(Groups(prefix), g);
    assert items == prefix + run;
    PropsOfAppend(prefix, run);
    calc {
      RunProps(Groups(items));
    == RunProps(Groups(prefix) + [g]);
    == RunProps(Groups(prefix)) + PropsOf(run);
    == PropsOf(prefix + run);
    }
    SpreadsOfDropRun(items);
    calc {
      SpreadExprs(Groups(items));
    == SpreadExprs(Groups(prefix) + [g]);
    == SpreadExprs(Groups(prefix));
    == SpreadsOf(items);
    }
  }

  /** Dropping the trailing run of plain attributes drops no spread. */
  lemma {:induction false} SpreadsOfDropRun(items: seq<ArgItem>)
    ensures SpreadsOf(items) == SpreadsOf(items[..|items| - PlainSuffix(items)])
    decreases |items|
  {
    if items != [] && items[|items| - 1].PropItem? {
      var init := items[..|items| - 1];
      SpreadsOfDropRun(init);
      assert items[..|items| - PlainSuffix(items)] == init[..|init| - PlainSuffix(init)];
    } else {
      assert items[..|items|] == items;
    }
  }

  lemma {:induction false} GroupsKeepItems(items: seq<ArgItem>)
    ensures RunProps(Groups(items)) == PropsOf(items)
    ensures SpreadExprs(Groups(items)) == SpreadsOf(items)
    decreases |items|
  {
    if items == [] {
    } else if items[|items| - 1].SpreadItem? {
      var init := items[..|items| - 1];
      GroupsKeepItems(init);
      RunPropsSnoc(Groups(init), SpreadGroup(items[|items| - 1].expr));
    } else {
      var k := PlainSuffix(items);
      var prefix := items[..|items| - k];
      GroupsKeepItems(prefix);
      KeepItemsRunStep(items, prefix, items[|items| - k..]);
    }
  }

  lemma MaximalRunsSnoc(gs: seq<ArgGroup>, g: ArgGroup)
    requires MaximalRuns(gs)
    requires g.RunGroup? ==> g.props != [] && (gs == [] || gs[|gs| - 1].SpreadGroup?)
    ensures MaximalRuns(gs + [g])
  {
  }

  /** The last group of a non-empty prefix ending in a spread is a spread. */
  lemma GroupsEndInSpread(items: seq<ArgItem>)
    requires items != [] && items[|items| - 1].SpreadItem?
    ensures Groups(items)[|Groups(items)| - 1].SpreadGroup?
  {
  }

  lemma {:induction false} GroupsAreMaximal(items: seq<ArgItem>)
    ensures MaximalRuns(Groups(items))
    decreases |items|
  {
    if items == [] {
    } else if items[|items| - 1].SpreadItem? {
      var init := items[..|items| - 1];
      GroupsAreMaximal(init);
      MaximalRunsSnoc(Groups(init), SpreadGroup(items[|items| - 1].expr));
    } else {
      var k := PlainSuffix(items);
      var prefix := items[..|items| - k];
      PlainSuffixSplit(items, k);
      PropsOfRunNonEmpty(items, k);
      GroupsAreMaximal(prefix);
      if prefix != [] {
        assert prefix[|prefix| - 1] == items[|items| - k - 1];
        GroupsEndInSpread(prefix);
      }
      MaximalRunsSnoc(Groups(prefix), RunGroup(PropsOf(items[|items| - k..])));
    }
  }

  /** The groups partition the attributes: the run groups hold exactly the
      plain attributes' properties, the spread groups exactly the spreads,
      both in source order, and every run is maximal. */
  lemma GroupsPartition(items: seq<ArgItem>)
    ensures RunProps(Groups(items)) == PropsOf(items)
    ensures SpreadExprs(Groups(items)) == SpreadsOf(items)
    ensures MaximalRuns(Groups(items))
  {
    GroupsKeepItems(items);
    GroupsAreMaximal(items);
  }

  /** When the first attribute is plain, the first group is a run. */
  lemma {:induction false} GroupsFirstRun(items: seq<ArgItem>)
    requires items != [] && items[0].PropItem?
    ensures Groups(items)[0].RunGroup?
    decreases |items|
  {
    if items[|items| - 1].SpreadItem? {
      var init := items[..|items| - 1];
      assert init != [] && init[0] == items[0];
      GroupsFirstRun(init);
    } else {
      var k := PlainSuffix(items);
      var prefix := items[..|items| - k];
      if prefix != [] {
        assert prefix[0] == items[0];
        GroupsFirstRun(prefix);
      }
    }
  }

  /** The first argument of `Object.assign` is always an object literal, so
      the call never writes into a spread value. */
  lemma AssignArgsFirstIsObject(items: seq<ArgItem>)
    ensures |AssignArgsOf(items)| > 0 && AssignArgsOf(items)[0].Object?
  {
    if items != [] && items[0].PropItem? {
      GroupsFirstRun(items);
    }
  }

  lemma LowerItemsSnoc(xs: seq<JsxAttrOrSpread>, x: JsxAttrOrSpread, items: seq<ArgItem>, item: ArgItem)
    requires LowerItems(xs) == Done(items)
    requires x.SpreadAttr? ==> item == SpreadItem(x.expr)
    requires x.PlainAttr? ==> item.PropItem? && AttrToProp(x.attr) == Done(item.prop)
    ensures LowerItems(xs + [x]) == Done(items + [item])
  {
    assert (xs + [x])[..|xs|] == xs;
  }

  /** Runs then a spread then a run: the grouping of three items. */
  lemma GroupsOfRunSpreadRun(p1: Property, e: Expr, p2: Property)
    ensures Groups([PropItem(p1), SpreadItem(e), PropItem(p2)]) == [RunGroup([p1]), SpreadGroup(e), RunGroup([p2])]
  {
    var i0, i1, i2 := PropItem(p1), SpreadItem(e), PropItem(p2);
    var items := [i0, i1, i2];
    assert PlainSuffix([i0]) == 1 && PropsOf([i0]) == [p1] by {
      assert [i0][..0] == [];
    }
    assert [i0][0..] == [i0];
    assert Groups([i0]) == [RunGroup([p1])] by {
      assert [i0][..0] == [];
    }
    assert [i0, i1][..1] == [i0];
    assert Groups([i0, i1]) == [RunGroup([p1]), SpreadGroup(e)];
    assert items[..2] == [i0, i1] && items[2..] == [i2];
    assert PlainSuffix(items) == 1 by {
      assert PlainSuffix([i0, i1]) == 0;
    }
    assert PropsOf([i2]) == [p2] by {
      assert [i2][..0] == [];
    }
  }

  lemma LowerItemsOfRunSpreadRun(a0: JsxAttr, e: Expr, a2: JsxAttr, p1: Property, p2: Property)
    requires AttrToProp(a0) == Done(p1) && AttrToProp(a2) == Done(p2)
    ensures LowerItems([PlainAttr(a0), SpreadAttr(e), PlainAttr(a2)])
            == Done([PropItem(p1), SpreadItem(e), PropItem(p2)])
  {
    var x0, x1, x2 := PlainAttr(a0), SpreadAttr(e), PlainAttr(a2);
    var i0, i1, i2 := PropItem(p1), SpreadItem(e), PropItem(p2);
    LowerItemsSnoc([], x0, [], i0);
    assert [] + [x0] == [x0] && [] + [i0] == [i0];
    LowerItemsSnoc([x0], x1, [i0], i1);
    assert [x0] + [x1] == [x0, x1] && [i0] + [i1] == [i0, i1];
    LowerItemsSnoc([x0, x1], x2, [i0, i1], i2);
    assert [x0, x1] + [x2] == [x0, x1, x2] && [i0, i1] + [i2] == [i0, i1, i2];
  }

  /** Plain, spread, plain: three arguments, the plain values copied as
      they are. */
  lemma AssignArgsRunSpreadRun(a0: JsxAttr, e: Expr, a2: JsxAttr, p1: Property, p2: Property)
    requires AttrToProp(a0) == Done(p1) && AttrToProp(a2) == Done(p2)
    ensures AssignArgs([PlainAttr(a0), SpreadAttr(e), PlainAttr(a2)]) == Done([Object([p1]), e, Object([p2])])
  {
    LowerItemsOfRunSpreadRun(a0, e, a2, p1, p2);
    GroupsOfRunSpreadRun(p1, e, p2);
    var items := [PropItem(p1), SpreadItem(e), PropItem(p2)];
    var gs := [RunGroup([p1]), SpreadGroup(e), RunGroup([p2])];
    assert GroupArgs(gs) == [Object([p1]), e, Object([p2])];
    assert Lead(items) == [];
    assert AssignArgsOf(items) == [] + GroupArgs(gs);
    assert [] + GroupArgs(gs) == [Object([p1]), e, Object([p2])];
    var attrs := [PlainAttr(a0), SpreadAttr(e), PlainAttr(a2)];
    assert LowerItems(attrs) == Done(items);
    assert AssignArgs(attrs) == Done(AssignArgsOf(items));
  }

  /** `class="a" {...rest} id="b"` gives exactly three arguments. */
  lemma AssignArgsExample()
    ensures AssignArgs([
      PlainAttr(JsxAttr(AttrIdent("class"), Some(LitValue(Str("a"))))),
      SpreadAttr(Ident("rest")),
      PlainAttr(JsxAttr(AttrIdent("id"), Some(LitValue(Str("b")))))])
      == Done([
        Object([KeyValue(IdentKey("class"), LitExpr(Str("a")))]),
        Ident("rest"),
        Object([KeyValue(IdentKey("id"), LitExpr(Str("b")))])])
  {
    assert '-' !in "class" && '-' !in "id";
    AssignArgsRunSpreadRun(JsxAttr(AttrIdent("class"), Some(LitValue(Str("a")))), Ident("rest"),
                           JsxAttr(AttrIdent("id"), Some(LitValue(Str("b")))),
                           KeyValue(IdentKey("class"), LitExpr(Str("a"))),
                           KeyValue(IdentKey("id"), LitExpr(Str("b"))));
  }

  // ---------------------------------------------------------------------
  // Wrapping expressions that depend on state

  /** `expr_to_arrow`: `() => e`, not async. */
  function ExprToArrow(e: Expr): (r: Expr)
    ensures r.Arrow? && r.params == [] && !r.isAsync && r.body == ExprBody(e)
  {
    Arrow([], ExprBody(e), false)
  }

  /** The array literal of dependency indices. */
  function DepsArray(deps: seq<nat>): Expr {
    Array(NumLits(deps))
  }

  function NumLits(deps: seq<nat>): (es: seq<Expr>)
    ensures |es| == |deps|
  {
    if deps == [] then [] else [LitExpr(Num(deps[0]))] + NumLits(deps[1..])
  }

  /** Reads dependency indices back from number literals. */
  function NumsOf(es: seq<Expr>): Option<seq<nat>> {
    if es == [] then Some([])
    else if es[0].LitExpr? && es[0].lit.Num? && es[0].lit.num >= 0 then
      match NumsOf(es[1..])
      case Some(ds) => Some([es[0].lit.num as nat] + ds)
      case None => None
    else None
  }

  lemma {:induction false} NumLitsRoundTrip(deps: seq<nat>)
    ensures NumsOf(NumLits(deps)) == Some(deps)
  {
    if deps != [] {
      NumLitsRoundTrip(deps[1..]);
      var es := NumLits(deps);
      assert es[0] == LitExpr(Num(deps[0]));
      assert es[1..] == NumLits(deps[1..]);
      assert [deps[0]] + deps[1..] == deps;
    }
  }

  /** Reads `Memo(() => x, [d1, ..., dn])` back as `x` and its dependencies. */
  function MemoOf(e: Expr): Option<Collected> {
    if e.Call? && e.callee == Ident("Memo") && |e.args| == 2 && e.args[0].Arrow?
       && e.args[0].params == [] && e.args[0].body.ExprBody? && !e.args[0].isAsync && e.args[1].Array?
    then
      match NumsOf(e.args[1].elems)
      case Some(ds) => Some(Collected(e.args[0].body.expr, ds))
      case None => None
    else None
  }

  /** Reads `Dirty(x, [d1, ..., dn])` back as `x` and its dependencies. */
  function DirtyOf(e: Expr): Option<Collected> {
    if e.Call? && e.callee == Ident("Dirty") && |e.args| == 2 && e.args[1].Array? then
      match NumsOf(e.args[1].elems)
      case Some(ds) => Some(Collected(e.args[0], ds))
      case None => None
    else None
  }

  /** The arrow `expr_to_arrow` builds returns exactly the wrapped expression. */
  lemma ExprToArrowRoundTrip(e: Expr, deps: seq<nat>)
    ensures MemoOf(Call(Ident("Memo"), [ExprToArrow(e), DepsArray(deps)])) == Some(Collected(e, deps))
  {
    NumLitsRoundTrip(deps);
  }

  // ---------------------------------------------------------------------
  // The lowering itself (mutually recursive through nested markup)

  /** `convert_dirty_expr` / `convert_memo_expr` as `transform_expr` calls
      them: event handlers go to the identifier map as they are. */
  function Convert(e: Expr, isEvent: bool, dc: DepCollector): (r: Outcome<Converted>)
    ensures r.Done? ==> KnownEffects(r.value.effects)
    ensures isEvent ==> r == Done(Converted(dc.dirty(e).expr, dc.dirty(e).deps, []))
    ensures !isEvent ==> r == ConvertMemoExpr(e, dc)
    decreases ExprSize(e), 1
  {
    if isEvent then
      var c := dc.dirty(e);
      Done(Converted(c.expr, c.deps, []))
    else ConvertMemoExpr(e, dc)
  }

  /** `convert_memo_expr`, corrected: markup in a value position is lowered
      in place and depends on nothing; any other expression goes to the
      identifier map. */
  function ConvertMemoExpr(e: Expr, dc: DepCollector): (r: Outcome<Converted>)
    ensures r.Done? ==> KnownEffects(r.value.effects)
    ensures (e.JSXElement? || e.JSXFragment?) && r.Done? ==> r.value.deps == []
    ensures !(e.JSXElement? || e.JSXFragment?) ==> r == Done(Converted(dc.memo(e).expr, dc.memo(e).deps, []))
    decreases ExprSize(e), 0
  {
    match e
    case JSXElement(el) =>
      (match TransformElement(el, dc)
       case Panicked(p) => Panicked(p)
       case Done(l) => Done(Converted(l.expr, [], l.effects)))
    case JSXFragment(ch) =>
      (match TransformFragment(ch, dc)
       case Panicked(p) => Panicked(p)
       case Done(l) => Done(Converted(l.expr, [], l.effects)))
    case _ =>
      var c := dc.memo(e);
      Done(Converted(c.expr, c.deps, []))
  }

  /** `transform_expr`: the converted expression as it is when it depends on
      nothing, otherwise `Memo(() => e, deps)` (value) or `Dirty(e, deps)`
      (event handler), asking the map for the runtime identifier last. */
  function TransformExpr(e: Expr, isEvent: bool, dc: DepCollector): (r: Outcome<Lowered>)
    ensures r.Done? ==> KnownEffects(r.value.effects)
    ensures r.Panicked? <==> Convert(e, isEvent, dc).Panicked?
    decreases ExprSize(e), 2
  {
    match Convert(e, isEvent, dc)
    case Panicked(p) => Panicked(p)
    case Done(c) =>
      if |c.deps| > 0 then
        var name := if isEvent then "Dirty" else "Memo";
        var callee := if isEvent then c.expr else ExprToArrow(c.expr);
        Done(Lowered(Call(Ident(name), [callee, DepsArray(c.deps)]), c.effects + [RecordIdent(name)]))
      else Done(Lowered(c.expr, c.effects))
  }

  /** A text child that collapses to nothing, or an empty `{}`, is dropped. */
  predicate DroppedChild(c: JsxChild) {
    (c.Text? && JsxText.CollapsedText(c.value) == "") || c == ChildContainer(EmptyExpr)
  }

  /** The children that produce an argument, in order. */
  function KeptChildren(cs: seq<JsxChild>): (kept: seq<JsxChild>)
    ensures |kept| <= |cs|
  {
    if cs == [] then []
    else (if DroppedChild(cs[0]) then [] else [cs[0]]) + KeptChildren(cs[1..])
  }

  /** A lowered child kept as an argument, or the panic that lowering it hit. */
  function Kept(o: Outcome<Lowered>): (r: Outcome<Option<Lowered>>)
    ensures r.Done? <==> o.Done?
    ensures r.Done? ==> r.value == Some(o.value)
    ensures r.Panicked? ==> r.panic == o.panic
  {
    match o
    case Panicked(p) => Panicked(p)
    case Done(l) => Done(Some(l))
  }

  /** `transform_child`: `None` for a dropped child; a spread child is not
      implemented (a panic). */
  function TransformChild(c: JsxChild, dc: DepCollector): (r: Outcome<Option<Lowered>>)
    ensures r.Done? ==> (r.value.None? <==> DroppedChild(c))
    ensures r.Done? && r.value.Some? ==> KnownEffects(r.value.value.effects)
    ensures c.ChildSpread? ==> r == Panicked(SpreadChild)
    ensures c.Text? ==> r.Done?
    decreases ChildSize(c), 3
  {
    match c
    case Text(t) =>
      var s := JsxText.CollapsedText(t);
      if s == "" then Done(None) else Done(Some(Lowered(LitExpr(Str(s)), [])))
    case ChildElement(el) => Kept(TransformElement(el, dc))
    case ChildFragment(ch) => Kept(TransformFragment(ch, dc))
    case ChildContainer(SomeExpr(e)) => Kept(TransformExpr(e, false, dc))
    case ChildContainer(EmptyExpr) => Done(None)
    case ChildSpread(_) => Panicked(SpreadChild)
  }

  /** What a kept child becomes: a text child the string literal of its
      collapsed text, a container its expression lowered as a value (not as
      an event handler), an element or fragment its own lowering. */
  lemma KeptChildLowering(c: JsxChild, dc: DepCollector)
    ensures c.Text? && !DroppedChild(c) ==>
      TransformChild(c, dc) == Done(Some(Lowered(LitExpr(Str(JsxText.CollapsedText(c.value))), [])))
    ensures c.ChildContainer? && c.container.SomeExpr? ==>
      TransformChild(c, dc) == Kept(TransformExpr(c.container.expr, false, dc))
    ensures c.ChildElement? ==> TransformChild(c, dc) == Kept(TransformElement(c.element, dc))
    ensures c.ChildFragment? ==> TransformChild(c, dc) == Kept(TransformFragment(c.children, dc))
  {
  }

  /** The `filter_map` over the children: one argument per kept child. */
  function TransformChildren(cs: seq<JsxChild>, dc: DepCollector): (r: Outcome<LoweredList>)
    ensures r.Done? ==> |r.value.exprs| == |KeptChildren(cs)|
    ensures r.Done? ==> KnownEffects(r.value.effects)
    decreases ChildrenSize(cs), 4
  {
    if cs == [] then Done(LoweredList([], []))
    else
      match TransformChild(cs[0], dc)
      case Panicked(p) => Panicked(p)
      case Done(o) =>
        match TransformChildren(cs[1..], dc)
        case Panicked(p) => Panicked(p)
        case Done(rest) =>
          match o
          case None => Done(rest)
          case Some(l) => Done(LoweredList([l.expr] + rest.exprs, l.effects + rest.effects))
  }

  /** The no-spread branch: one key-value property per attribute, in order,
      each value passed through `transform_expr` as an event handler exactly
      when its key is an event prop. */
  function ObjectProps(attrs: seq<JsxAttrOrSpread>, dc: DepCollector): (r: Outcome<LoweredProps>)
    requires forall i :: 0 <= i < |attrs| ==> attrs[i].PlainAttr?
    ensures r.Done? ==> |r.value.props| == |attrs|
    ensures r.Done? ==> forall i :: 0 <= i < |attrs| ==>
      r.value.props[i].KeyValue? && r.value.props[i].key == ToPropName(attrs[i].attr.name)
    ensures r.Done? ==> KnownEffects(r.value.effects)
    decreases AttrsSize(attrs), 4
  {
    if attrs == [] then Done(LoweredProps([], []))
    else
      match AttrToProp(attrs[0].attr)
      case Panicked(p) => Panicked(p)
      case Done(prop) =>
        match TransformExpr(prop.value, IsEventProp(prop.key), dc)
        case Panicked(p) => Panicked(p)
        case Done(v) =>
          match ObjectProps(attrs[1..], dc)
          case Panicked(p) => Panicked(p)
          case Done(rest) =>
            Done(LoweredProps([KeyValue(prop.key, v.expr)] + rest.props, v.effects + rest.effects))
  }

  const ObjectAssign := Member(Ident("Object"), "assign")

  /** `transform_attrs`: `null` for no attributes, `Object.assign(...)` when
      any attribute is a spread, one object literal otherwise. */
  function TransformAttrs(attrs: seq<JsxAttrOrSpread>, dc: DepCollector): (r: Outcome<Lowered>)
    ensures attrs == [] ==> r == Done(Lowered(LitExpr(Null), []))
    ensures HasSpread(attrs) ==> (r.Done? <==> AssignArgs(attrs).Done?)
    ensures HasSpread(attrs) && r.Done? ==> r.value == Lowered(Call(ObjectAssign, AssignArgs(attrs).value), [])
    ensures attrs != [] && !HasSpread(attrs) && r.Done? ==>
      r.value.expr.Object? && |r.value.expr.props| == |attrs|
    ensures r.Done? ==> KnownEffects(r.value.effects)
    decreases AttrsSize(attrs), 5
  {
    if attrs == [] then Done(Lowered(LitExpr(Null), []))
    else if HasSpread(attrs) then
      match AssignArgs(attrs)
      case Panicked(p) => Panicked(p)
      case Done(args) => Done(Lowered(Call(ObjectAssign, args), []))
    else
      assert forall i :: 0 <= i < |attrs| ==> attrs[i].PlainAttr?;
      match ObjectProps(attrs, dc)
      case Panicked(p) => Panicked(p)
      case Done(lp) => Done(Lowered(Object(lp.props), lp.effects))
  }

  /** `transform_element`: `Element(name, attrs, ...children)`, asking the
      map for `Element` first. */
  function TransformElement(el: JsxElement, dc: DepCollector): (r: Outcome<Lowered>)
    ensures r.Done? ==> r.value.expr.Call? && r.value.expr.callee == Ident("Element")
    ensures r.Done? ==> |r.value.expr.args| == 2 + |KeptChildren(el.children)|
    ensures r.Done? ==> |r.value.effects| > 0 && r.value.effects[0] == RecordIdent("Element")
    ensures r.Done? ==> KnownEffects(r.value.effects)
    decreases ElemSize(el), 5
  {
    match JsxName(el.name)
    case Panicked(p) => Panicked(p)
    case Done(n) =>
      match TransformAttrs(el.attrs, dc)
      case Panicked(p) => Panicked(p)
      case Done(a) =>
        match TransformChildren(el.children, dc)
        case Panicked(p) => Panicked(p)
        case Done(k) =>
          Done(Lowered(Call(Ident("Element"), [n.expr, a.expr] + k.exprs),
                       [RecordIdent("Element")] + n.effects + a.effects + k.effects))
  }

  /** `transform_fragment`: `Fragment(...children)`, asking the map for
      `Fragment` first. */
  function TransformFragment(ch: seq<JsxChild>, dc: DepCollector): (r: Outcome<Lowered>)
    ensures r.Done? ==> r.value.expr.Call? && r.value.expr.callee == Ident("Fragment")
    ensures r.Done? ==> |r.value.expr.args| == |KeptChildren(ch)|
    ensures r.Done? ==> |r.value.effects| > 0 && r.value.effects[0] == RecordIdent("Fragment")
    ensures r.Done? ==> KnownEffects(r.value.effects)
    decreases ChildrenSize(ch), 5
  {
    match TransformChildren(ch, dc)
    case Panicked(p) => Panicked(p)
    case Done(k) => Done(Lowered(Call(Ident("Fragment"), k.exprs), [RecordIdent("Fragment")] + k.effects))
  }

  // ---------------------------------------------------------------------
  // Properties of the lowering

  /** With no dependencies the converted expression is returned as it is. */
  lemma TransformExprUnwrapped(e: Expr, isEvent: bool, dc: DepCollector)
    requires Convert(e, isEvent, dc).Done? && Convert(e, isEvent, dc).value.deps == []
    ensures TransformExpr(e, isEvent, dc)
            == Done(Lowered(Convert(e, isEvent, dc).value.expr, Convert(e, isEvent, dc).value.effects))
  {
  }

  /** With dependencies, a value becomes `Memo(() => x, deps)` and an event
      handler `Dirty(x, deps)` (no arrow); both read back to the converted
      expression and the dependencies in the order collected, and the runtime
      identifier is asked for after conversion. */
  lemma TransformExprWrapped(e: Expr, isEvent: bool, dc: DepCollector)
    requires Convert(e, isEvent, dc).Done? && Convert(e, isEvent, dc).value.deps != []
    ensures var c := Convert(e, isEvent, dc).value;
            var r := TransformExpr(e, isEvent, dc).value;
            && (!isEvent ==> MemoOf(r.expr) == Some(Collected(c.expr, c.deps)))
            && (isEvent ==> DirtyOf(r.expr) == Some(Collected(c.expr, c.deps)))
            && r.effects == c.effects + [RecordIdent(if isEvent then "Dirty" else "Memo")]
  {
    var c := Convert(e, isEvent, dc).value;
    NumLitsRoundTrip(c.deps);
  }

  /** An event handler is handed to the identifier map untouched, even when
      it is markup. */
  lemma EventHandlerNotLowered(e: Expr, dc: DepCollector)
    ensures Convert(e, true, dc) == Done(Converted(dc.dirty(e).expr, dc.dirty(e).deps, []))
  {
  }

  /** Markup in a value position is lowered in place and never wrapped. */
  lemma MarkupValueLoweredInPlace(el: JsxElement, ch: seq<JsxChild>, dc: DepCollector)
    ensures TransformExpr(JSXElement(el), false, dc) == TransformElement(el, dc)
    ensures TransformExpr(JSXFragment(ch), false, dc) == TransformFragment(ch, dc)
  {
    ElementValueLoweredInPlace(el, dc);
    FragmentValueLoweredInPlace(ch, dc);
  }

  lemma ElementValueLoweredInPlace(el: JsxElement, dc: DepCollector)
    ensures TransformExpr(JSXElement(el), false, dc) == TransformElement(el, dc)
  {
    var e := JSXElement(el);
    assert Convert(e, false, dc) == ConvertMemoExpr(e, dc);
    if TransformElement(el, dc).Done? {
      var l := TransformElement(el, dc).value;
      assert ConvertMemoExpr(e, dc) == Done(Converted(l.expr, [], l.effects));
    }
  }

  lemma FragmentValueLoweredInPlace(ch: seq<JsxChild>, dc: DepCollector)
    ensures TransformExpr(JSXFragment(ch), false, dc) == TransformFragment(ch, dc)
  {
    var e := JSXFragment(ch);
    assert Convert(e, false, dc) == ConvertMemoExpr(e, dc);
    if TransformFragment(ch, dc).Done? {
      var l := TransformFragment(ch, dc).value;
      assert ConvertMemoExpr(e, dc) == Done(Converted(l.expr, [], l.effects));
    }
  }

  /** The arguments of `Element`: the lowered name, the lowered attributes,
      then the lowered kept children. */
  lemma ElementArgs(el: JsxElement, dc: DepCollector)
    requires TransformElement(el, dc).Done?
    ensures JsxName(el.name).Done? && TransformAttrs(el.attrs, dc).Done? && TransformChildren(el.children, dc).Done?
    ensures var args := TransformElement(el, dc).value.expr.args;
            && args[0] == JsxName(el.name).value.expr
            && args[1] == TransformAttrs(el.attrs, dc).value.expr
            && args[2..] == TransformChildren(el.children, dc).value.exprs
  {
    var args := TransformElement(el, dc).value.expr.args;
    var n, a, k := JsxName(el.name).value, TransformAttrs(el.attrs, dc).value, TransformChildren(el.children, dc).value;
    assert args == [n.expr, a.expr] + k.exprs;
  }

  /** The arguments of `Fragment` are the lowered kept children only. */
  lemma FragmentArgs(ch: seq<JsxChild>, dc: DepCollector)
    requires TransformFragment(ch, dc).Done?
    ensures TransformChildren(ch, dc).Done?
    ensures TransformFragment(ch, dc).value.expr.args == TransformChildren(ch, dc).value.exprs
  {
  }

  /** The i-th argument from the children is the lowering of the i-th kept
      child: order is preserved and dropped children leave no gap. */
  lemma {:induction false} ChildrenKeptInOrder(cs: seq<JsxChild>, dc: DepCollector)
    requires TransformChildren(cs, dc).Done?
    ensures forall i :: 0 <= i < |KeptChildren(cs)| ==>
      LowersChildTo(KeptChildren(cs)[i], TransformChildren(cs, dc).value.exprs[i], dc)
    decreases |cs|
  {
    if cs != [] {
      ChildrenKeptInOrder(cs[1..], dc);
      var kept := KeptChildren(cs);
      var rest := KeptChildren(cs[1..]);
      var o := TransformChild(cs[0], dc).value;
      var exprs := TransformChildren(cs, dc).value.exprs;
      var restExprs := TransformChildren(cs[1..], dc).value.exprs;
      if DroppedChild(cs[0]) {
        assert kept == rest;
        assert exprs == restExprs;
      } else {
        assert kept == [cs[0]] + rest;
        assert exprs == [o.value.expr] + restExprs;
        KeptConsStep(cs[0], rest, restExprs, o.value.expr, dc);
      }
    }
  }

  /** The child lowers without panicking to an argument whose expression is `e`. */
  ghost predicate LowersChildTo(c: JsxChild, e: Expr, dc: DepCollector) {
    TransformChild(c, dc).Done? && TransformChild(c, dc).value.Some? && TransformChild(c, dc).value.value.expr == e
  }

  /** The step of `ChildrenKeptInOrder` for a kept first child. */
  lemma KeptConsStep(c: JsxChild, rest: seq<JsxChild>, restExprs: seq<Expr>, e: Expr, dc: DepCollector)
    requires LowersChildTo(c, e, dc) && |rest| == |restExprs|
    requires forall i :: 0 <= i < |rest| ==> LowersChildTo(rest[i], restExprs[i], dc)
    ensures forall i :: 0 <= i < |[c] + rest| ==> LowersChildTo(([c] + rest)[i], ([e] + restExprs)[i], dc)
  {
    var lowers := (x, y) => LowersChildTo(x, y, dc);
    PairwiseCons(lowers, c, rest, e, restExprs);
  }

  /** A relation that holds pairwise on two sequences, and on two new first
      elements, holds pairwise on the extended sequences. */
  lemma PairwiseCons<T, U>(rel: (T, U) -> bool, x: T, xs: seq<T>, y: U, ys: seq<U>)
    requires rel(x, y) && |xs| == |ys|
    requires forall i :: 0 <= i < |xs| ==> rel(xs[i], ys[i])
    ensures forall i :: 0 <= i < |[x] + xs| ==> rel(([x] + xs)[i], ([y] + ys)[i])
  {
    forall i | 0 <= i < |[x] + xs|
      ensures rel(([x] + xs)[i], ([y] + ys)[i])
    {
      if i > 0 {
        assert ([x] + xs)[i] == xs[i - 1];
        assert ([y] + ys)[i] == ys[i - 1];
      }
    }
  }

  /** In the no-spread branch each value is the attribute's value passed
      through `transform_expr`, as an event handler exactly when the key is
      an event prop. */
  lemma {:induction false} ObjectPropsValues(attrs: seq<JsxAttrOrSpread>, dc: DepCollector)
    requires forall i :: 0 <= i < |attrs| ==> attrs[i].PlainAttr?
    requires ObjectProps(attrs, dc).Done?
    ensures forall i :: 0 <= i < |attrs| ==>
      && AttrValueExpr(attrs[i].attr.value).Some?
      && var key := ToPropName(attrs[i].attr.name);
         var v := TransformExpr(AttrValueExpr(attrs[i].attr.value).value, IsEventProp(key), dc);
         v.Done? && ObjectProps(attrs, dc).value.props[i].value == v.value.expr
    decreases |attrs|
  {
    if attrs != [] {
      ObjectPropsValues(attrs[1..], dc);
      var props := ObjectProps(attrs, dc).value.props;
      var restProps := ObjectProps(attrs[1..], dc).value.props;
      assert props[1..] == restProps;
      forall i | 1 <= i < |attrs|
        ensures attrs[i] == attrs[1..][i - 1] && props[i] == restProps[i - 1]
      {
      }
    }
  }

  /** `<App />`: a component reference and `null` attributes. */
  lemma ComponentExample(dc: DepCollector)
    ensures TransformElement(JsxElement(NameIdent("App"), [], []), dc)
            == Done(Lowered(Call(Ident("Element"), [Ident("App"), LitExpr(Null)]), [RecordIdent("Element")]))
  {
    assert !IsAsciiLower("App"[0]);
    assert JsxName(NameIdent("App")) == Done(Lowered(Ident("App"), []));
    assert TransformChildren([], dc) == Done(LoweredList([], []));
    assert [Ident("App"), LitExpr(Null)] + [] == [Ident("App"), LitExpr(Null)];
    assert [RecordIdent("Element")] + [] + [] + [] == [RecordIdent("Element")];
  }

  /** `<div>hi</div>`: an intrinsic tag as a string and the text child. */
  lemma IntrinsicExample(dc: DepCollector)
    ensures TransformElement(JsxElement(NameIdent("div"), [], [Text("hi")]), dc)
            == Done(Lowered(Call(Ident("Element"), [LitExpr(Str("div")), LitExpr(Null), LitExpr(Str("hi"))]),
                            [RecordIdent("Element")]))
  {
    assert ' ' !in "hi" && '\n' !in "hi";
    assert JsxText.CollapsedText("hi") == "hi";
    assert TransformChild(Text("hi"), dc) == Done(Some(Lowered(LitExpr(Str("hi")), [])));
    assert TransformChildren([Text("hi")], dc) == Done(LoweredList([LitExpr(Str("hi"))], [])) by {
      assert [Text("hi")][1..] == [];
      assert [Text("hi")][0] == Text("hi");
      assert TransformChildren([], dc) == Done(LoweredList([], []));
      assert [LitExpr(Str("hi"))] + [] == [LitExpr(Str("hi"))];
      var none: seq<Effect> := [];
      assert none + none == none;
    }
    assert JsxName(NameIdent("div")) == Done(Lowered(LitExpr(Str("div")), []));
    assert [LitExpr(Str("div")), LitExpr(Null)] + [LitExpr(Str("hi"))] == [LitExpr(Str("div")), LitExpr(Null), LitExpr(Str("hi"))];
    assert [RecordIdent("Element")] + [] + [] + [] == [RecordIdent("Element")];
  }

  // ---------------------------------------------------------------------
  // Value markup as the source converts it

  /** `convert_memo_expr` as written: it holds a shared borrow of the
      identifier map for its whole body, so lowering markup there -- whose
      first step is `create_ident`, a mutable borrow of the same map -- fails
      with an already-borrowed panic. */
  function ConvertMemoExprAsWritten(e: Expr, dc: DepCollector): (r: Outcome<Converted>)
    ensures e.JSXElement? || e.JSXFragment? ==> r == Panicked(AlreadyBorrowed)
    ensures !(e.JSXElement? || e.JSXFragment?) ==> r == ConvertMemoExpr(e, dc)
  {
    match e
    case JSXElement(_) => Panicked(AlreadyBorrowed)
    case JSXFragment(_) => Panicked(AlreadyBorrowed)
    case _ =>
      var c := dc.memo(e);
      Done(Converted(c.expr, c.deps, []))
  }

  lemma InnerElementExample(dc: DepCollector)
    ensures TransformElement(JsxElement(NameIdent("b"), [], []), dc)
         == Done(Lowered(Call(Ident("Element"), [LitExpr(Str("b")), LitExpr(Null)]), [RecordIdent("Element")]))
  {
    assert IsAsciiLower("b"[0]);
    assert JsxName(NameIdent("b")) == Done(Lowered(LitExpr(Str("b")), []));
    assert TransformChildren([], dc) == Done(LoweredList([], []));
    assert [LitExpr(Str("b")), LitExpr(Null)] + [] == [LitExpr(Str("b")), LitExpr(Null)];
    assert [RecordIdent("Element")] + [] + [] + [] == [RecordIdent("Element")];
  }

  /** `<A render={<b />} />`: the value is markup in a non-event prop, so it
      reaches `convert_memo_expr`. As written that panics; the corrected
      conversion lowers it in place and the whole element lowers. */
  lemma BorrowPanicExample(dc: DepCollector)
    ensures var inner := JsxElement(NameIdent("b"), [], []);
            && ConvertMemoExprAsWritten(JSXElement(inner), dc) == Panicked(AlreadyBorrowed)
            && ConvertMemoExpr(JSXElement(inner), dc)
               == Done(Converted(Call(Ident("Element"), [LitExpr(Str("b")), LitExpr(Null)]), [], [RecordIdent("Element")]))
            && !IsEventProp(ToPropName(AttrIdent("render")))
            && TransformElement(JsxElement(NameIdent("A"), [PlainAttr(JsxAttr(AttrIdent("render"), Some(ElementValue(inner))))], []), dc).Done?
  {
    var inner := JsxElement(NameIdent("b"), [], []);
    InnerElementExample(dc);
    assert !IsEventPropName("render");
    RenderPropLowers(dc, inner);
  }

  lemma RenderPropLowers(dc: DepCollector, inner: JsxElement)
    requires ConvertMemoExpr(JSXElement(inner), dc).Done?
    ensures TransformElement(JsxElement(NameIdent("A"), [PlainAttr(JsxAttr(AttrIdent("render"), Some(ElementValue(inner))))], []), dc).Done?
  {
    assert !IsAsciiLower("A"[0]);
    assert '-' !in "render";
    var attrs := [PlainAttr(JsxAttr(AttrIdent("render"), Some(ElementValue(inner))))];
    assert attrs[1..] == [];
    assert !IsEventPropName("render");
    assert ObjectProps(attrs, dc).Done?;
    assert !HasSpread(attrs);
  }

  /** `<div>{<b />}</div>`: a container child goes through
      `transform_expr(e, false)` and so reaches `convert_memo_expr` too. As
      written that panics; the corrected conversion keeps the lowered inner
      element as the child argument. */
  lemma ChildBorrowPanicExample(dc: DepCollector)
    ensures var inner := JsxElement(NameIdent("b"), [], []);
            && Convert(JSXElement(inner), false, dc) == ConvertMemoExpr(JSXElement(inner), dc)
            && ConvertMemoExprAsWritten(JSXElement(inner), dc) == Panicked(AlreadyBorrowed)
            && TransformChild(ChildContainer(SomeExpr(JSXElement(inner))), dc)
               == Done(Some(Lowered(Call(Ident("Element"), [LitExpr(Str("b")), LitExpr(Null)]), [RecordIdent("Element")])))
            && TransformElement(JsxElement(NameIdent("div"), [], [ChildContainer(SomeExpr(JSXElement(inner)))]), dc).Done?
  {
    var inner := JsxElement(NameIdent("b"), [], []);
    InnerElementExample(dc);
    var child := ChildContainer(SomeExpr(JSXElement(inner)));
    var l := Lowered(Call(Ident("Element"), [LitExpr(Str("b")), LitExpr(Null)]), [RecordIdent("Element")]);
    assert TransformExpr(JSXElement(inner), false, dc) == Done(l);
    assert TransformChild(child, dc) == Done(Some(l));
    assert [child][1..] == [];
    assert TransformChildren([child], dc).Done?;
    assert IsAsciiLower("div"[0]);
  }

  // ---------------------------------------------------------------------
  // Sizes of markup, the measure of the mutual recursion below

  function ElemSize(el: JsxElement): nat {
    1 + AttrsSize(el.attrs) + ChildrenSize(el.children)
  }

  function AttrsSize(attrs: seq<JsxAttrOrSpread>): nat {
    if attrs == [] then 0 else AttrSize(attrs[0]) + AttrsSize(attrs[1..])
  }

  function AttrSize(a: JsxAttrOrSpread): nat {
    match a
    case PlainAttr(JsxAttr(_, Some(v))) => ValueSize(v)
    case _ => 1
  }

  function ValueSize(v: JsxAttrValue): nat {
    match v
    case ContainerValue(SomeExpr(e)) => 1 + ExprSize(e)
    case ElementValue(el) => 2 + ElemSize(el)
    case FragmentValue(ch) => 2 + ChildrenSize(ch)
    case _ => 1
  }

  /** Only markup counts: other expressions are handed to the identifier map
      and never lowered recursively here. */
  function ExprSize(e: Expr): nat {
    match e
    case JSXElement(el) => 1 + ElemSize(el)
    case JSXFragment(ch) => 1 + ChildrenSize(ch)
    case _ => 0
  }

  function ChildrenSize(cs: seq<JsxChild>): nat {
    if cs == [] then 0 else ChildSize(cs[0]) + ChildrenSize(cs[1..])
  }

  function ChildSize(c: JsxChild): nat {
    match c
    case ChildElement(el) => 1 + ElemSize(el)
    case ChildFragment(ch) => 1 + ChildrenSize(ch)
    case ChildContainer(SomeExpr(e)) => 1 + ExprSize(e)
    case _ => 1
  }
}
