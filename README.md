# Alef component compiler front end, in Dafny

This project models the front end of the Alef component compiler. That front end turns a component module, written as TypeScript with JSX, into typed component statements and runtime calls. The model covers three parts, and proves what each promises.

- **Markup lowering** (`Jsx`, `JsxText`; `packages/compiler/src/ast/jsx.rs`):
  - An element becomes `Element(name, attrs, ...children)`; a fragment becomes `Fragment(...children)`.
  - The element name becomes `this`, a tag string, a component reference or a member expression. A namespaced name is reported as an error.
  - Attributes become `null`, one object literal, or the argument list of `Object.assign(...)` when a spread is present.
  - JSX text has its whitespace collapsed.
  - An embedded expression that depends on state is wrapped in `Memo(() => e, [deps])`. For an event prop (`on` followed by an upper-case letter) the wrapper is `Dirty(e, [deps])`.
- **Statement walker** (`Walker`, `Statements`; `compiler/src/ast/walker.rs`). The walker classifies each statement of a component:
  - `const` declarations are tagged `Prop`, `Slots`, `Context`, `Memo` or `Regular`, or become a nested component body (`FC`);
  - `let`/`var` declarations carry array, ref and async flags;
  - labelled statements become side effects (`$:`, `$_name:`), templates (`$t:`) or styles (`$style:`);
  - everything else passes through.

  It then folds the module's items into the resolver's AST and leaves an empty module.
- **Resolver and component names** (`Resolve`, `Strings`; `packages/compiler/src/resolve.rs`):
  - the resolver record and its two constructors;
  - `to_component_name`, which derives a PascalCase name from a specifier and falls back to `App`.

The code is modelled in its own form:
- the whitespace collapse, the spread branch of `transform_attrs`, the walker's loops and `to_component_name` are methods with loops;
- each of those methods is proved equal to a specification function;
- the properties are proved about those functions;
- the resolver is a class, and folding writes its `ast` field.

Rust panics (`unwrap`, `unreachable!`, `unimplemented!`) are modelled as an `Outcome` that is either `Done(value)` or `Panicked(reason)`. The one `RefCell` borrow that fails in the source is shown by a separate as-written member; the lowering functions use the corrected conversion (see Findings and Left out).

## Model

| member | source | states |
|---|---|---|
| `JsxText.JsxTextToString` | packages/compiler/src/ast/jsx.rs:328-359 | the method's result is the collapsed text: a lone space and text without spaces or newlines are kept as they are; otherwise the newline-bearing edge runs are stripped and the words are rejoined |
| `JsxText.PushWords` | packages/compiler/src/ast/jsx.rs:347-352 | the word loop appends the words joined by single spaces, with no space after the last word |
| `JsxText.RejoinWords` | packages/compiler/src/ast/jsx.rs:338-357 | one leading space is kept if the text starts with a space, the words follow, and one trailing space is added only if the text ends with a space and the buffer does not already |
| `JsxText.StripLeadingNewlineRun` | packages/compiler/src/ast/jsx.rs:324 | the result is a suffix of the text; when something is removed, it is the whole maximal leading `\s` run and it holds a newline; when nothing is removed, no maximal leading `\s` run holds a newline |
| `JsxText.StripTrailingNewlineRun` | packages/compiler/src/ast/jsx.rs:325 | the result is a prefix of the text; when something is removed, it is the whole maximal trailing `\s` run and it holds a newline; when nothing is removed, no maximal trailing `\s` run holds a newline |
| `JsxText.LeadingRunIsTheRun` | packages/compiler/src/ast/jsx.rs:324 | there is exactly one maximal leading `\s` run, the one the greedy `^\s*` consumes |
| `JsxText.TrailingRunIsTheRun` | packages/compiler/src/ast/jsx.rs:325 | there is exactly one maximal trailing `\s` run, the one the greedy `\s*$` consumes |
| `JsxText.LeadingRunIsMaximal` | packages/compiler/src/ast/jsx.rs:324 | the run the leading pattern matches is all whitespace and is followed by a non-space |
| `JsxText.TrailingRunIsMaximal` | packages/compiler/src/ast/jsx.rs:325 | the run the trailing pattern matches is all whitespace and is preceded by a non-space |
| `JsxText.WordsAreWords` | packages/compiler/src/ast/jsx.rs:347 | the ASCII-whitespace split yields non-empty words without whitespace |
| `JsxText.CollapsedHasNoDoubleSpace` | packages/compiler/src/ast/jsx.rs:328-359 | collapsed text never holds two spaces in a row |
| `JsxText.CollapsedKeepsWords` | packages/compiler/src/ast/jsx.rs:328-359 | collapsing keeps the words of the text, in order, when its whitespace is ASCII |
| `JsxText.RejoinedKeepsWords` | packages/compiler/src/ast/jsx.rs:338-357 | rejoining keeps the words, in order |
| `JsxText.TrimmedKeepsWords` | packages/compiler/src/ast/jsx.rs:336-337 | stripping the edge runs keeps the words, in order |
| `JsxText.IndentationCollapsesToEmpty` | packages/compiler/src/ast/jsx.rs:336-337 | whitespace-only text that holds a newline collapses to the empty string, so the child is dropped |
| `JsxText.TrimmedBetweenRuns` | packages/compiler/src/ast/jsx.rs:336-337 | when both edge runs hold a newline and some other character exists, stripping keeps exactly the text between the runs |
| `JsxText.NewlineEdgesLeaveNoSpace` | packages/compiler/src/ast/jsx.rs:336-357 | in that case the result is the words of the middle joined by single spaces, non-empty, with no leading and no trailing space |
| `JsxText.IndentedTextExample` | packages/compiler/src/ast/jsx.rs:328-359 | `"  \n   hello   world\n  "` collapses to `"hello world"` |
| `JsxText.CollapseExample` | packages/compiler/src/ast/jsx.rs:328-359 | `"\n a  b\n"` collapses to `"a b"` |
| `JsxText.SingleSpaceKept` | packages/compiler/src/ast/jsx.rs:329-331 | a lone space is kept |
| `Jsx.EventPropExamples` | packages/compiler/src/ast/jsx.rs:411-417 | the unit tests: `onClick` is an event prop and `onclick` is not, for string and identifier keys; `on` and numeric keys are not |
| `Jsx.IsEventPropName` | packages/compiler/src/ast/jsx.rs:381-387 | an event name starts with `on` followed by an upper-case ASCII letter, and the answer depends on its first three characters only |
| `Jsx.IsEventProp` | packages/compiler/src/ast/jsx.rs:373-379 | a key is an event prop exactly when it is a string or identifier key whose text is an event name |
| `Jsx.EventAttrName` | packages/compiler/src/ast/jsx.rs:298-321 | an attribute is treated as an event handler exactly when its name as written is an event name; for `ns:name` the namespace alone decides |
| `Jsx.ConvertJsxObj` | packages/compiler/src/ast/jsx.rs:251-270 | the object `this` becomes `this`, any other identifier stays an identifier, and a member keeps its property |
| `Jsx.ConvertJsxObjRoundTrip` | packages/compiler/src/ast/jsx.rs:251-270 | the object of a member element name is lowered without losing its nesting, and can be read back |
| `Jsx.JsxName` | packages/compiler/src/ast/jsx.rs:213-249 | it panics exactly on an empty identifier; the error is reported exactly for a namespaced name, which becomes `Invalid`; `this` becomes `this`; a non-`this` identifier becomes a tag string exactly when it starts with a lower-case ASCII letter, and otherwise an identifier of the same name; a member name becomes the member expression of its converted object |
| `Jsx.JsxNameRoundTrip` | packages/compiler/src/ast/jsx.rs:213-249 | every non-namespaced name can be read back from its lowering, so distinct names lower differently |
| `Jsx.ToPropName` | packages/compiler/src/ast/jsx.rs:298-321 | the key keeps the attribute's text (`ns:name` for a namespaced one), and it is a string key exactly when namespaced or holding a `-` |
| `Jsx.AttrToProp` | packages/compiler/src/ast/jsx.rs:272-296 | it panics exactly on an empty container; otherwise it gives a key-value property with the converted key and the attribute's value, where a missing value means `true` |
| `Jsx.LowerItems` | packages/compiler/src/ast/jsx.rs:112-122 | each attribute gives one item in order; spreads stay spreads with their expression |
| `Jsx.LowerItemsPlainItems` | packages/compiler/src/ast/jsx.rs:112-122 | each plain attribute gives the property `attr_to_prop` makes of it, unchanged |
| `Jsx.LowerItemsPanicsExactly` | packages/compiler/src/ast/jsx.rs:112-122 | lowering the attribute list panics exactly when some plain attribute is the empty container, with the `attr_to_prop` panic |
| `Jsx.CollectAssignArgs` | packages/compiler/src/ast/jsx.rs:96-129 | the loop with its pending object and the flush step computes exactly the specified `Object.assign` arguments |
| `Jsx.GroupsPartition` | packages/compiler/src/ast/jsx.rs:96-123 | the argument groups hold every plain property and every spread, in order; runs of plain attributes are non-empty and maximal |
| `Jsx.AssignArgsFirstIsObject` | packages/compiler/src/ast/jsx.rs:101-109 | the first argument of `Object.assign` is always an object literal, so spreads never write into a caller's object |
| `Jsx.GroupsFirstRun` | packages/compiler/src/ast/jsx.rs:101-109 | when the first attribute is plain, the first group is a run of plain attributes |
| `Jsx.LowerItemsPanicPersists` | packages/compiler/src/ast/jsx.rs:112-122 | a panic in one attribute aborts the whole attribute list |
| `Jsx.AssignArgsRunSpreadRun` | packages/compiler/src/ast/jsx.rs:96-129 | attribute, spread, attribute gives three arguments: object, spread, object |
| `Jsx.AssignArgsExample` | packages/compiler/src/ast/jsx.rs:96-129 | `class="a" {...rest} id="b"` gives `Object.assign({class: "a"}, rest, {id: "b"})` |
| `Jsx.TransformAttrs` | packages/compiler/src/ast/jsx.rs:88-154 | no attributes give `null`; with a spread, the result is `Object.assign` over the grouped arguments and succeeds exactly when they do; otherwise an object with one property per attribute |
| `Jsx.ObjectProps` | packages/compiler/src/ast/jsx.rs:130-153 | one property per attribute, in order, keyed by the converted name |
| `Jsx.ObjectPropsValues` | packages/compiler/src/ast/jsx.rs:140-148 | each property's value is the attribute value lowered by `transform_expr`, with the event flag taken from its key |
| `Jsx.NumLitsRoundTrip` | packages/compiler/src/ast/jsx.rs:173-188 | the dependency array literal holds exactly the dependency indices, in order |
| `Jsx.ExprToArrowRoundTrip` | packages/compiler/src/ast/jsx.rs:361-371 | the parameterless arrow returns exactly the wrapped expression, so `Memo(...)` can be read back as that expression with its dependencies |
| `Jsx.TransformExpr` | packages/compiler/src/ast/jsx.rs:156-196 | lowering an expression fails exactly when converting it does; every effect it has is one of the runtime identifiers or the namespace diagnostic |
| `Jsx.TransformExprUnwrapped` | packages/compiler/src/ast/jsx.rs:163-195 | with no dependencies the converted expression is returned unwrapped |
| `Jsx.TransformExprWrapped` | packages/compiler/src/ast/jsx.rs:163-194 | with dependencies, a value becomes `Memo(() => e, [deps])` and an event handler becomes `Dirty(e, [deps])`; the wrapper's identifier is requested after the conversion's |
| `Jsx.EventHandlerNotLowered` | packages/compiler/src/ast/jsx.rs:207-210 | an event handler goes to the identifier map as it is; markup in it is not lowered |
| `Jsx.Convert` | packages/compiler/src/ast/jsx.rs:156-162 | an event handler goes to the identifier map's dirty conversion unchanged and never fails; a value goes through `convert_memo_expr` |
| `Jsx.ExprToArrow` | packages/compiler/src/ast/jsx.rs:361-371 | the wrapper is a parameterless, non-async arrow whose body is the expression |
| `Jsx.ConvertMemoExpr` | packages/compiler/src/ast/jsx.rs:198-205 | markup in a value position is lowered in place and has no dependencies; any other expression goes to the identifier map |
| `Jsx.MarkupValueLoweredInPlace` | packages/compiler/src/ast/jsx.rs:198-205 | a markup value lowers to exactly the element or fragment call |
| `Jsx.TransformChild` | packages/compiler/src/ast/jsx.rs:58-86 | empty text and empty containers are dropped and nothing else is; text never fails; a spread child panics |
| `Jsx.KeptChildLowering` | packages/compiler/src/ast/jsx.rs:58-86 | a kept text child becomes the string literal of its collapsed text; a container child becomes its expression lowered as a value, never as an event handler; an element or fragment child becomes its own lowering |
| `Jsx.TransformChildren` | packages/compiler/src/ast/jsx.rs:31-34 | one argument per kept child |
| `Jsx.ChildrenKeptInOrder` | packages/compiler/src/ast/jsx.rs:31-34 | the arguments are the kept children's lowerings, in order |
| `Jsx.TransformElement` | packages/compiler/src/ast/jsx.rs:23-38 | an `Element` call with two arguments plus one per kept child; `Element` is the first identifier requested |
| `Jsx.ElementArgs` | packages/compiler/src/ast/jsx.rs:23-38 | the arguments are the lowered name, then the lowered attributes, then the lowered children |
| `Jsx.TransformFragment` | packages/compiler/src/ast/jsx.rs:40-52 | a `Fragment` call with one argument per kept child; `Fragment` is the first identifier requested |
| `Jsx.FragmentArgs` | packages/compiler/src/ast/jsx.rs:40-52 | the arguments are exactly the lowered children |
| `Jsx.ComponentExample` | packages/compiler/src/ast/jsx.rs:23-38 | `<App/>` lowers to `Element(App, null)` |
| `Jsx.IntrinsicExample` | packages/compiler/src/ast/jsx.rs:23-38 | `<div>hi</div>` lowers to `Element("div", null, "hi")` |
| `Jsx.ConvertMemoExprAsWritten` | packages/compiler/src/ast/jsx.rs:198-205 | as written, markup in a value position panics on the second borrow of the identifier map |
| `Jsx.BorrowPanicExample` | packages/compiler/src/ast/jsx.rs:198-205 | `<A render={<b/>}/>` panics as written and lowers with the corrected conversion |
| `Jsx.ChildBorrowPanicExample` | packages/compiler/src/ast/jsx.rs:72-76 | `<div>{<b/>}</div>`: the container child reaches the same conversion, panics as written, and with the corrected conversion becomes the lowered inner element |
| `Walker.ConstTag` | compiler/src/ast/walker.rs:24-61 | `Slots` exactly for `Prop<Slots>` with a bare `Slots`; `Prop` for any other `Prop` annotation; `Context` and `Memo` by name; `Regular` for everything else |
| `Walker.VarOf` | compiler/src/ast/walker.rs:119-151 | a variable keeps its pattern and initialiser; async exactly when initialised by `await`, array exactly for an array type, ref exactly for a `Ref` type reference, never both array and ref |
| `Walker.ClassifyVars` | compiler/src/ast/walker.rs:118-153 | one variable statement per declarator, in order |
| `Walker.AstWalker.TransformStmt` | compiler/src/ast/walker.rs:17-197 | the method computes exactly the specified classification of a statement |
| `Walker.AstWalker.TransformConst` | compiler/src/ast/walker.rs:23-116 | the per-declarator step of the `const` loop computes exactly the specified statement |
| `Walker.AstWalker.TransformBody` | compiler/src/ast/walker.rs:66-70 | the loop over a component body concatenates the classifications of its statements, in order |
| `Walker.AstWalker.FoldStatements` | compiler/src/ast/walker.rs:207-226 | the loop over module items computes exactly the specified statements |
| `Walker.AstWalker.FoldModuleItems` | compiler/src/ast/walker.rs:205-233 | the folded statements are stored as the resolver's AST and the returned module is empty; no other resolver field changes |
| `Walker.OneStatementPerConst` | compiler/src/ast/walker.rs:23-116 | a `const` declaration gives exactly one statement per declarator, in order, and fails exactly when one of them fails |
| `Walker.ConstShape` | compiler/src/ast/walker.rs:62-115 | a declarator becomes a component body exactly when annotated `FC` and initialised by an arrow or a non-generator function with a body; otherwise it is a constant keeping its pattern and initialiser, tagged by its annotation (`Regular` for `FC`); a missing initialiser panics |
| `Walker.ComponentBody` | compiler/src/ast/walker.rs:62-102 | the component's statements are the body's classifications, and an expression body counts as one expression statement |
| `Walker.BodyAppend` | compiler/src/ast/walker.rs:66-70 | a body is classified piecewise: the statements of two parts are concatenated in order, and the first failure wins |
| `Walker.ConstsAppend` | compiler/src/ast/walker.rs:23-116 | the same holds for the declarators of a `const` declaration |
| `Walker.FoldAppend` | compiler/src/ast/walker.rs:209-226 | the same holds for the items of a module |
| `Walker.StmtFailsOnlyOnMissingInit` | compiler/src/ast/walker.rs:114 | the only failure, at any depth of component bodies, is a `const` declarator without an initialiser |
| `Walker.MissingInitFails` | compiler/src/ast/walker.rs:114 | `const x;` aborts the walk |
| `Walker.OnlyConstsFail` | compiler/src/ast/walker.rs:118-193 | a statement that is not a `const` declaration always succeeds |
| `Walker.OneStatementPerVar` | compiler/src/ast/walker.rs:118-153 | a `let`/`var` declaration gives one variable statement per declarator, with its pattern |
| `Walker.BodyOfOne` | compiler/src/ast/walker.rs:66-70 | a body of one statement is that statement's classification |
| `Walker.OtherStatementPassesThrough` | compiler/src/ast/walker.rs:193 | any other statement passes through unchanged |
| `Walker.LabeledYieldsOne` | compiler/src/ast/walker.rs:155-192 | a labelled statement gives exactly one statement, and a passthrough keeps the labelled statement itself |
| `Walker.AnonymousSideEffect` | compiler/src/ast/walker.rs:156-159 | `$:` gives an anonymous side effect with its body |
| `Walker.NamedSideEffect` | compiler/src/ast/walker.rs:181-187 | a `$_` label gives a named side effect; the label is some copies of `$_` followed by the name, and the name does not start with `$_` |
| `Walker.NamedSideEffectExamples` | compiler/src/ast/walker.rs:181-187 | `$_fetch` and `$_$_fetch` are named `fetch`; `$_` is named with the empty string |
| `Walker.TemplateLabel` | compiler/src/ast/walker.rs:160-171 | `$t:` keeps an element or fragment unchanged as a template; any other body passes through with its label |
| `Walker.StyleLabel` | compiler/src/ast/walker.rs:172-180 | `$style:` parses a template literal into a style; any other body passes through with its label |
| `Walker.OtherLabelPassesThrough` | compiler/src/ast/walker.rs:181-191 | any other label passes through |
| `Walker.ImportItem` | compiler/src/ast/walker.rs:212-218 | an import becomes an import statement, flagged as a component import exactly when its source ends in `.alef` |
| `Walker.ImportFlagExamples` | compiler/src/ast/walker.rs:217 | `./Button.alef` is a component import; `./button.js` and `./Button.alef.js` are not |
| `Walker.ExportItem` | compiler/src/ast/walker.rs:219-221 | a default export becomes an export statement |
| `Walker.OtherDeclsDropped` | compiler/src/ast/walker.rs:222 | other module declarations contribute nothing |
| `Walker.StatementItem` | compiler/src/ast/walker.rs:224 | a statement item contributes its classification |
| `Resolve.Resolver.constructor` | packages/compiler/src/resolve.rs:37-44 | the specifier and runtime module are stored as given; the dependency graph is empty and there is no CSS or AST |
| `Resolve.Resolver.Default` | packages/compiler/src/resolve.rs:47-56 | the default resolver is for `./App.alef` with runtime `alef-dom`, an empty dependency graph, and no CSS or AST |
| `Resolve.ToComponentName` | packages/compiler/src/resolve.rs:58-83 | the character loop computes the specified component name |
| `Resolve.ComponentName` | packages/compiler/src/resolve.rs:58-83 | the name is non-empty, made of ASCII letters and digits, and starts with an upper-case letter |
| `Resolve.ScanInvariant` | packages/compiler/src/resolve.rs:59-78 | the scan emits only ASCII letters and digits, its first output is upper case, and it emits something exactly when the stem holds an ASCII letter |
| `Resolve.ScanMatchesPositions` | packages/compiler/src/resolve.rs:59-78 | the scan's output is, position by position: letters kept; digits kept once a letter came before them; a lower-case letter capitalised at the start or after a dropped character; everything else dropped |
| `Resolve.ComponentNameByPositions` | packages/compiler/src/resolve.rs:58-83 | a stem with a letter gives its kept characters as rendered; a stem without one gives `App` |
| `Resolve.NameOfStem` | packages/compiler/src/resolve.rs:61 | the `.alef` extension is stripped before the scan |
| `Resolve.NameApp` | packages/compiler/src/resolve.rs:91 | `app.alef` gives `App` |
| `Resolve.NameUpperCaseKept` | packages/compiler/src/resolve.rs:92 | `APP.alef` gives `APP` |
| `Resolve.NameHyphen` | packages/compiler/src/resolve.rs:93 | `hello-world.alef` gives `HelloWorld` |
| `Resolve.NameSpace` | packages/compiler/src/resolve.rs:94 | `hello world.alef` gives `HelloWorld` |
| `Resolve.NameTrailingDigits` | packages/compiler/src/resolve.rs:95 | `hi798.alef` gives `Hi798` |
| `Resolve.NameLeadingDigits` | packages/compiler/src/resolve.rs:96 | `798hi.alef` gives `Hi` |
| `Resolve.NameDigitsOnly` | packages/compiler/src/resolve.rs:97 | `798.alef` gives the fallback `App` |
| `Resolve.NameNonAscii` | packages/compiler/src/resolve.rs:98 | `Hello 世界!.alef` gives `Hello` |
| `Strings.TrimEndMatchesNoSuffix` | packages/compiler/src/resolve.rs:61 | the trimmed string no longer ends with the pattern |
| `Strings.TrimEndMatchesSplits` | packages/compiler/src/resolve.rs:61 | only whole trailing copies of the pattern are removed, so `a.alef.alef` has stem `a` |
| `Strings.TrimStartMatches` | compiler/src/ast/walker.rs:185 | the result no longer starts with the pattern |
| `Strings.TrimStartMatchesSplits` | compiler/src/ast/walker.rs:185 | only whole leading copies of the pattern are removed |

## Left out

- The identifier map (`IdentMap`: `convert_memo_expr`, `convert_dirty_expr`, `create_ident`) is not part of this model.
  - Dependency collection enters as a `DepCollector`: two functions that return the rewritten expression and its dependency indices.
  - `create_ident` is recorded as an effect naming the identifier requested, and is assumed to return an identifier with that name.
- Diagnostics emitted through `HANDLER` are recorded as an effect carrying the message. Spans are not kept.
- The two regular expressions of `jsx_text_to_string` are modelled directly: a leading or trailing whitespace run is stripped when it contains a newline. `\s` is modelled with Unicode `White_Space`.
  - `JsxText.CollapsedKeepsWords` and `JsxText.TrimmedKeepsWords` assume that any whitespace in the text is ASCII, because `split_ascii_whitespace` does not split at other whitespace.
- `Rc<RefCell<...>>` sharing is replaced by explicit values: the walker holds its resolver, and the markup functions take the collector as an argument.
  - The `borrow_mut` of the resolver at the start of `fold_module_items` cannot fail in this model.
- Jsx.ConvertMemoExpr, Jsx.TransformExpr, Jsx.TransformChild, Jsx.ObjectProps, Jsx.TransformElement, Jsx.TransformFragment: these model the intended in-place lowering of markup in a value position, not the program as written. As written, every such input panics on the second `RefCell` borrow of the identifier map. This covers an attribute value (`<A render={<b/>}/>`) and a container child (`<div>{<b/>}</div>`) alike. The model returns a lowering there; `Jsx.ConvertMemoExprAsWritten` models the panic (see Findings).
- `transform_condition` always returns an empty statement and is not modelled.
- Spans, `has_escape`, `DUMMY_SP` and the conversion of dependency indices to `f64` are left out. Indices are `nat`.
- `CSS::parse` is not part of this model. The walker is given it as a function `CssParser` from a template literal's parts to a style. The `StyleStatement` holds the resolver's `CSSTemplate` record as that style.
- The statement types (`Statement`, `AST`) and the resolver used by the walker come from modules not included here. Their shape is taken from how `walker.rs` builds them:
  - the resolver in `packages/compiler/src/resolve.rs` has no `ast` field, so the model adds one to `Resolve.Resolver`;
  - both constructors start it as empty.
- Folding the module does not add anything to the dependency graph, because `fold_module_items` never touches `dep_graph`. `Walker.AstWalker.FoldModuleItems` states that the graph is unchanged.
- `Walker.ComponentBody`: for an `FC` arrow with an expression body, the model classifies the synthesised expression statement with the non-recursive case directly, rather than calling `transform_stmt` again. The lemma proves the two agree.
- Serde derives, `Target`, `Clone`/`Debug`/`PartialEq` derives and the `JSXTransformer` struct's fields are not modelled.

## Findings

| source | as written | input that shows it | evidently intended | confidence | as-written member | corrected member |
|---|---|---|---|---|---|---|
| packages/compiler/src/ast/jsx.rs:198-205 | `convert_memo_expr` holds a shared borrow of the identifier map while it lowers markup. Lowering calls `create_ident`, which needs a mutable borrow of the same map, so `RefCell` panics | markup inside an expression container in a value position: a non-event attribute value such as `<A render={<b/>}/>`, or a child container such as `<div>{<b/>}</div>` | markup in a value position is lowered in place into an element or fragment call, with no dependencies | not executed | `Jsx.ConvertMemoExprAsWritten` | `Jsx.ConvertMemoExpr` |
