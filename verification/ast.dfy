/**
  An abstract syntax tree for one TSX source file, reduced to what the
  extractor and the injector look at, and the pre-order flattening that plays
  the part of ts-morph's `getDescendantsOfKind`.
 */
module Ast {
  import opened Wrappers

  /** A syntax node. Statements, expressions and JSX share one type, as they
      do in the syntax tree the source walks. */
  datatype Node =
    | JsxText(raw: string)                                   // `getText()` of a text run between tags, untrimmed
    | JsxElement(tag: string, attributes: seq<Node>, children: seq<Node>)
    | JsxAttribute(name: string, initializer: Option<Node>)  // `name`, `name="v"` or `name={e}`
    | JsxExpression(expression: Node)                        // `{e}` as a child or an attribute value
    | StringLiteral(value: string)                           // the literal's value, quotes removed
    | CallExpression(callee: Node, args: seq<Node>)
    // A function's parameters, each a node (a default value is its child),
    // come before the body in the walk, as in the syntax tree.
    | ArrowFunction(params: seq<Node>, body: seq<Node>)      // block-bodied arrow function
    // `exported` and `defaultExport` are ts-morph's `isExported()` and
    // `isDefaultExport()`. Both go by the file's exported symbols, so
    // `function App() {}` followed by `export default App;` is a default export.
    | FunctionDeclaration(name: string, exported: bool, defaultExport: bool, params: seq<Node>, body: seq<Node>)
    // `exported` is the statement's own `export` keyword, which is what both
    // tests at injector.ts line 101 come to for a variable statement.
    | VariableStatement(exported: bool, first: Node, rest: seq<Node>)
    | VariableDeclaration(binding: string, initializer: Option<Node>)
    | Other(children: seq<Node>)                             // any other node, by its children in source order
    | Leaf(text: string)                                     // an identifier or other childless node, by its source text

  datatype ImportDeclaration = ImportDeclaration(moduleSpecifier: string, namedImports: seq<string>)

  datatype SourceFile = SourceFile(imports: seq<ImportDeclaration>, statements: seq<Node>)

  /** A parsed input file and the path it was read from. */
  datatype SourceInput = SourceInput(path: string, tree: SourceFile)

  /** What the two scans read off a `JsxAttribute`: its name and, when the
      initializer is a plain string literal, that literal's value. */
  datatype Attribute = Attribute(name: string, literal: Option<string>)

  /** One node of interest met by a pre-order walk: a JSX text run, a JSX
      attribute, or a call (its callee's text when the callee is a plain
      name, and its first argument when that is a string literal). */
  datatype Visit =
    | TextVisit(raw: string)
    | AttributeVisit(attribute: Attribute)
    | CallVisit(callee: Option<string>, firstLiteral: Option<string>)

  function LiteralOf(initializer: Option<Node>): Option<string> {
    if initializer.Some? && initializer.value.StringLiteral? then Some(initializer.value.value) else None
  }

  function CalleeText(callee: Node): Option<string> {
    if callee.Leaf? then Some(callee.text) else None
  }

  function FirstLiteral(args: seq<Node>): Option<string> {
    if |args| > 0 && args[0].StringLiteral? then Some(args[0].value) else None
  }

  /** Pre-order walk of `n`: a node is met before its descendants, an
      element's attributes before its children, a callee before the
      arguments. */
  function Visits(n: Node): seq<Visit>
    decreases n
  {
    match n
    case JsxText(raw) => [TextVisit(raw)]
    case JsxElement(_, attributes, children) => VisitsOf(attributes) + VisitsOf(children)
    case JsxAttribute(name, initializer) =>
      [AttributeVisit(Attribute(name, LiteralOf(initializer)))]
        + (if initializer.Some? then Visits(initializer.value) else [])
    case JsxExpression(e) => Visits(e)
    case StringLiteral(_) => []
    case CallExpression(callee, args) =>
      [CallVisit(CalleeText(callee), FirstLiteral(args))] + Visits(callee) + VisitsOf(args)
    case ArrowFunction(params, body) => VisitsOf(params) + VisitsOf(body)
    case FunctionDeclaration(_, _, _, params, body) => VisitsOf(params) + VisitsOf(body)
    case VariableStatement(_, first, rest) => Visits(first) + VisitsOf(rest)
    case VariableDeclaration(_, initializer) =>
      if initializer.Some? then Visits(initializer.value) else []
    case Other(children) => VisitsOf(children)
    case Leaf(_) => []
  }

  function VisitsOf(ns: seq<Node>): seq<Visit>
    decreases ns
  {
    if |ns| == 0 then [] else Visits(ns[0]) + VisitsOf(ns[1..])
  }

  /** All nodes of interest in a file, in document order. Import
      declarations hold none of them. */
  function FileVisits(f: SourceFile): seq<Visit> {
    VisitsOf(f.statements)
  }

  lemma {:induction false} VisitsOfAppend(a: seq<Node>, b: seq<Node>)
    ensures VisitsOf(a + b) == VisitsOf(a) + VisitsOf(b)
  {
    if a == [] {
      assert a + b == b;
    } else {
      assert (a + b)[0] == a[0];
      assert (a + b)[1..] == a[1..] + b;
      VisitsOfAppend(a[1..], b);
    }
  }

  /** Replacing one node of a list changes the walk only at that node's
      place. */
  lemma {:induction false} VisitsOfUpdate(ns: seq<Node>, i: nat, n: Node)
    requires i < |ns|
    ensures VisitsOf(ns[i := n]) == VisitsOf(ns[..i]) + Visits(n) + VisitsOf(ns[i + 1..])
    ensures VisitsOf(ns) == VisitsOf(ns[..i]) + Visits(ns[i]) + VisitsOf(ns[i + 1..])
  {
    assert ns[i := n] == ns[..i] + [n] + ns[i + 1..];
    assert ns == ns[..i] + [ns[i]] + ns[i + 1..];
    VisitsOfAppend(ns[..i] + [n], ns[i + 1..]);
    VisitsOfAppend(ns[..i], [n]);
    VisitsOfAppend(ns[..i] + [ns[i]], ns[i + 1..]);
    VisitsOfAppend(ns[..i], [ns[i]]);
    assert VisitsOf([n]) == Visits(n) + VisitsOf([]);
    assert VisitsOf([ns[i]]) == Visits(ns[i]) + VisitsOf([]);
  }

  /** `getDescendantsOfKind(SyntaxKind.JsxText)`, as raw texts: at most one
      per visit, each from a text visit of the walk (`TextRunsMembers` gives
      both directions of membership). */
  function TextRuns(vs: seq<Visit>): (texts: seq<string>)
    ensures |texts| <= |vs|
    ensures forall i :: 0 <= i < |texts| ==> TextVisit(texts[i]) in vs
  {
    if vs == [] then []
    else (if vs[0].TextVisit? then [vs[0].raw] else []) + TextRuns(vs[1..])
  }

  /** `getDescendantsOfKind(SyntaxKind.JsxAttribute)`, as (name, literal):
      at most one per visit, each from an attribute visit of the walk
      (`AttributesMembers` gives both directions of membership). */
  function Attributes(vs: seq<Visit>): (attrs: seq<Attribute>)
    ensures |attrs| <= |vs|
    ensures forall i :: 0 <= i < |attrs| ==> AttributeVisit(attrs[i]) in vs
  {
    if vs == [] then []
    else (if vs[0].AttributeVisit? then [vs[0].attribute] else []) + Attributes(vs[1..])
  }

  lemma {:induction false} TextRunsAppend(a: seq<Visit>, b: seq<Visit>)
    ensures TextRuns(a + b) == TextRuns(a) + TextRuns(b)
  {
    if a == [] {
      assert a + b == b;
    } else {
      assert (a + b)[0] == a[0];
      assert (a + b)[1..] == a[1..] + b;
      TextRunsAppend(a[1..], b);
    }
  }

  lemma {:induction false} AttributesAppend(a: seq<Visit>, b: seq<Visit>)
    ensures Attributes(a + b) == Attributes(a) + Attributes(b)
  {
    if a == [] {
      assert a + b == b;
    } else {
      assert (a + b)[0] == a[0];
      assert (a + b)[1..] == a[1..] + b;
      AttributesAppend(a[1..], b);
    }
  }

  /** The text runs are exactly the texts of the walk's text visits. */
  lemma {:induction false} TextRunsMembers(vs: seq<Visit>)
    ensures forall t :: t in TextRuns(vs) <==> TextVisit(t) in vs
  {
    if vs != [] {
      TextRunsMembers(vs[1..]);
      assert vs == [vs[0]] + vs[1..];
    }
  }

  /** The attributes are exactly those of the walk's attribute visits. */
  lemma {:induction false} AttributesMembers(vs: seq<Visit>)
    ensures forall a :: a in Attributes(vs) <==> AttributeVisit(a) in vs
  {
    if vs != [] {
      AttributesMembers(vs[1..]);
      assert vs == [vs[0]] + vs[1..];
    }
  }

  /** A visit is a text run, an attribute or neither, never both. */
  lemma {:induction false} TextRunsAttributesBound(vs: seq<Visit>)
    ensures |TextRuns(vs)| + |Attributes(vs)| <= |vs|
  {
    if vs != [] {
      TextRunsAttributesBound(vs[1..]);
    }
  }

  lemma TextRunsSingle(v: Visit)
    ensures TextRuns([v]) == if v.TextVisit? then [v.raw] else []
  {
    assert TextRuns([v]) == (if v.TextVisit? then [v.raw] else []) + TextRuns([]);
  }

  lemma AttributesSingle(v: Visit)
    ensures Attributes([v]) == if v.AttributeVisit? then [v.attribute] else []
  {
    assert Attributes([v]) == (if v.AttributeVisit? then [v.attribute] else []) + Attributes([]);
  }
}
