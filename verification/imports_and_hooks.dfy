/**
  `Injector.addImportsAndHooks` (src/core/injector.ts:64-112): the support
  repair run on a file that received at least one replacement. It makes sure
  `useTranslation` is imported from `react-i18next`, and, unless the file
  already calls `useTranslation` somewhere, inserts
  `const { t } = useTranslation();` as the first statement of the chosen
  component.
 */
module ImportsAndHooks {
  import opened Wrappers
  import opened Ast
  import Seqs

  const HookModule: string := "react-i18next"
  const HookName: string := "useTranslation"

  /** `const { t } = useTranslation();` */
  const HookStatement: Node :=
    VariableStatement(false, VariableDeclaration("{ t }", Some(CallExpression(Leaf(HookName), []))), [])

  /** What the walk meets in the hook statement: one call of `useTranslation`
      with no arguments. */
  const HookVisit: Visit := CallVisit(Some(HookName), None)

  /** Index of the first element satisfying `p` (`Array.prototype.find`). */
  function FirstIndex<T>(s: seq<T>, p: T -> bool): (r: Option<nat>)
    ensures r.Some? ==> r.value < |s| && p(s[r.value]) && forall j :: 0 <= j < r.value ==> !p(s[j])
    ensures r.None? ==> forall j :: 0 <= j < |s| ==> !p(s[j])
  {
    if s == [] then None
    else if p(s[0]) then Some(0)
    else match FirstIndex(s[1..], p)
      case None => None
      case Some(i) => Some(i + 1)
  }

  /** `find` answers the same on two lists whose elements agree, place by
      place, on the test. */
  lemma FirstIndexAgree<T>(a: seq<T>, b: seq<T>, p: T -> bool)
    requires |a| == |b|
    requires forall i :: 0 <= i < |a| ==> p(a[i]) == p(b[i])
    ensures FirstIndex(a, p) == FirstIndex(b, p)
  {
    var x, y := FirstIndex(a, p), FirstIndex(b, p);
    if x.Some? && y.Some? {
      assert p(b[x.value]) && p(a[y.value]);
    }
  }

  // ---------------------------------------------------------------------
  // The import
  // ---------------------------------------------------------------------

  predicate IsHookImport(d: ImportDeclaration) {
    d.moduleSpecifier == HookModule
  }

  /** Lines 66-80: find the first `react-i18next` import; with none, add
      `import { useTranslation } from 'react-i18next'` after the others;
      otherwise add `useTranslation` to that import's named imports unless
      it is already there. */
  function AddHookImport(imports: seq<ImportDeclaration>): (r: seq<ImportDeclaration>)
    ensures |r| >= |imports|
  {
    match FirstIndex(imports, IsHookImport)
    case None => imports + [ImportDeclaration(HookModule, [HookName])]
    case Some(i) =>
      if HookName in imports[i].namedImports then imports
      else imports[i := imports[i].(namedImports := imports[i].namedImports + [HookName])]
  }

  /** The import repair adds exactly one declaration when there was none and
      never a second one; afterwards the first `react-i18next` import names
      `useTranslation`; only that first one changes, and only by gaining
      `useTranslation` at the end when it did not name it already. */
  lemma AddHookImportSpec(imports: seq<ImportDeclaration>)
    ensures var r := AddHookImport(imports);
      && (forall j :: 0 <= j < |imports| ==> !IsHookImport(imports[j])) ==>
           r == imports + [ImportDeclaration(HookModule, [HookName])]
    ensures var r := AddHookImport(imports);
      (exists j :: 0 <= j < |imports| && IsHookImport(imports[j])) ==>
        && |r| == |imports|
        && (forall j :: 0 <= j < |imports| ==> r[j].moduleSpecifier == imports[j].moduleSpecifier)
        && (forall j :: 0 <= j < |imports| && !IsHookImport(imports[j]) ==> r[j] == imports[j])
        && (forall j :: 0 <= j < |imports| ==>
              r[j].namedImports == imports[j].namedImports || r[j].namedImports == imports[j].namedImports + [HookName])
    ensures var r := AddHookImport(imports);
      var first := FirstIndex(imports, IsHookImport);
      first.Some? ==>
        && (HookName in imports[first.value].namedImports ==> r == imports)
        && (HookName !in imports[first.value].namedImports ==>
              r[first.value].namedImports == imports[first.value].namedImports + [HookName])
        && (forall j :: 0 <= j < |imports| && j != first.value ==> r[j] == imports[j])
    ensures var r := AddHookImport(imports);
      var first := FirstIndex(r, IsHookImport);
      first.Some? && HookName in r[first.value].namedImports
  {
    var r := AddHookImport(imports);
    match FirstIndex(imports, IsHookImport)
    case None =>
      assert r[|imports|] == ImportDeclaration(HookModule, [HookName]);
      assert forall j :: 0 <= j < |imports| ==> r[j] == imports[j];
    case Some(i) =>
      assert forall j :: 0 <= j < |imports| ==> r[j] == imports[j] || j == i;
  }

  /** Repairing the imports twice is repairing them once. */
  lemma AddHookImportIdempotent(imports: seq<ImportDeclaration>)
    ensures AddHookImport(AddHookImport(imports)) == AddHookImport(imports)
  {
    var r := AddHookImport(imports);
    AddHookImportSpec(imports);
    var first := FirstIndex(r, IsHookImport);
    assert first.Some? && HookName in r[first.value].namedImports;
  }

  // ---------------------------------------------------------------------
  // The component
  // ---------------------------------------------------------------------

  predicate IsFunction(n: Node) {
    n.FunctionDeclaration?
  }

  /** `f.isExported() || f.isDefaultExport()`. */
  predicate IsExportedFunction(n: Node) {
    n.FunctionDeclaration? && (n.exported || n.defaultExport)
  }

  /** An exported variable statement whose first declarator is initialised
      with an arrow function; any other initializer is not a component. */
  predicate IsExportedArrowStatement(n: Node) {
    && n.VariableStatement?
    && n.exported
    && n.first.VariableDeclaration?
    && n.first.initializer.Some?
    && n.first.initializer.value.ArrowFunction?
  }

  /** Where the hook goes: a function declaration or an exported arrow
      function, by its index among the file's top-level statements. */
  datatype Component = FunctionComponent(index: nat) | ArrowComponent(index: nat)

  predicate ValidComponent(statements: seq<Node>, c: Component) {
    && c.index < |statements|
    && (c.FunctionComponent? ==> IsFunction(statements[c.index]))
    && (c.ArrowComponent? ==> IsExportedArrowStatement(statements[c.index]))
  }

  /** Lines 94-109, in priority order: the first exported or default-exported
      function; else the first function; else the first exported variable
      statement whose first declarator is an arrow function; else none. */
  function ChooseComponent(statements: seq<Node>): (c: Option<Component>)
    ensures c.Some? ==> ValidComponent(statements, c.value)
    ensures c.Some? && c.value.FunctionComponent? && IsExportedFunction(statements[c.value.index]) ==>
      forall j :: 0 <= j < c.value.index ==> !IsExportedFunction(statements[j])
    ensures c.Some? && c.value.FunctionComponent? && !IsExportedFunction(statements[c.value.index]) ==>
      && (forall j :: 0 <= j < |statements| ==> !IsExportedFunction(statements[j]))
      && (forall j :: 0 <= j < c.value.index ==> !IsFunction(statements[j]))
    ensures c.Some? && c.value.ArrowComponent? ==>
      && (forall j :: 0 <= j < |statements| ==> !IsFunction(statements[j]))
      && (forall j :: 0 <= j < c.value.index ==> !IsExportedArrowStatement(statements[j]))
    ensures c.None? <==>
      && (forall j :: 0 <= j < |statements| ==> !IsFunction(statements[j]))
      && (forall j :: 0 <= j < |statements| ==> !IsExportedArrowStatement(statements[j]))
  {
    match FirstIndex(statements, IsExportedFunction)
    case Some(i) => Some(FunctionComponent(i))
    case None =>
      match FirstIndex(statements, IsFunction)
      case Some(i) => Some(FunctionComponent(i))
      case None =>
        match FirstIndex(statements, IsExportedArrowStatement)
        case Some(i) => Some(ArrowComponent(i))
        case None => None
  }

  /** The parameters of a component: those of the function declaration, or
      of the arrow function initialising the first declarator. */
  function ComponentParams(n: Node): seq<Node>
    requires IsFunction(n) || IsExportedArrowStatement(n)
  {
    if n.FunctionDeclaration? then n.params else n.first.initializer.value.params
  }

  /** `insertStatements(0, 'const { t } = useTranslation();')` on a
      function declaration, or on the arrow function that initialises a
      variable statement's first declarator. */
  function WithHook(n: Node): (r: Node)
    requires IsFunction(n) || IsExportedArrowStatement(n)
    ensures IsFunction(n) ==> IsFunction(r) && r.body == [HookStatement] + n.body
    ensures IsFunction(n) ==> r.name == n.name && r.exported == n.exported && r.defaultExport == n.defaultExport
    ensures IsExportedArrowStatement(n) ==>
      && IsExportedArrowStatement(r)
      && r.first.initializer.value.body == [HookStatement] + n.first.initializer.value.body
    ensures IsExportedArrowStatement(n) ==> r.exported == n.exported && r.first.binding == n.first.binding && r.rest == n.rest
    ensures (IsFunction(r) || IsExportedArrowStatement(r)) && ComponentParams(r) == ComponentParams(n)
  {
    if n.FunctionDeclaration? then
      FunctionDeclaration(n.name, n.exported, n.defaultExport, n.params, [HookStatement] + n.body)
    else
      var arrow := n.first.initializer.value;
      VariableStatement(n.exported,
        VariableDeclaration(n.first.binding, Some(ArrowFunction(arrow.params, [HookStatement] + arrow.body))), n.rest)
  }

  /** The hooked component's walk is the old one with the hook call put in
      where the body starts, after everything met in the parameters. */
  lemma WithHookVisits(n: Node)
    requires IsFunction(n) || IsExportedArrowStatement(n)
    ensures var k := |VisitsOf(ComponentParams(n))|;
      && k <= |Visits(n)|
      && Visits(n)[..k] == VisitsOf(ComponentParams(n))
      && Visits(WithHook(n)) == Visits(n)[..k] + [HookVisit] + Visits(n)[k..]
  {
    var ps, tail := VisitsOf(ComponentParams(n)), AfterParams(n);
    WithHookSplit(n);
    assert Visits(n)[..|ps|] == ps && Visits(n)[|ps|..] == tail;
  }

  /** Both walks, split at the end of the parameters. */
  lemma WithHookSplit(n: Node)
    requires IsFunction(n) || IsExportedArrowStatement(n)
    ensures Visits(n) == VisitsOf(ComponentParams(n)) + AfterParams(n)
    ensures Visits(WithHook(n)) == VisitsOf(ComponentParams(n)) + [HookVisit] + AfterParams(n)
  {
    if n.FunctionDeclaration? {
      FunctionHookVisits(n);
    } else {
      ArrowHookVisits(n);
    }
  }

  /** What a component's walk meets after its parameters. */
  function AfterParams(n: Node): seq<Visit>
    requires IsFunction(n) || IsExportedArrowStatement(n)
  {
    if n.FunctionDeclaration? then VisitsOf(n.body)
    else VisitsOf(n.first.initializer.value.body) + VisitsOf(n.rest)
  }

  lemma HookStatementVisits(body: seq<Node>)
    ensures VisitsOf([HookStatement] + body) == [HookVisit] + VisitsOf(body)
  {
    assert VisitsOf([HookStatement]) == Visits(HookStatement) + VisitsOf([]);
    VisitsOfAppend([HookStatement], body);
  }

  /** For a function declaration: the parameters' walk, then the rest. */
  lemma FunctionHookVisits(n: Node)
    requires IsFunction(n)
    ensures Visits(n) == VisitsOf(n.params) + AfterParams(n)
    ensures Visits(WithHook(n)) == VisitsOf(n.params) + [HookVisit] + AfterParams(n)
  {
    HookStatementVisits(n.body);
  }

  /** For an exported arrow statement: the arrow's parameters' walk, then
      the rest. */
  lemma ArrowHookVisits(n: Node)
    requires IsExportedArrowStatement(n)
    ensures Visits(n) == VisitsOf(n.first.initializer.value.params) + AfterParams(n)
    ensures Visits(WithHook(n)) == VisitsOf(n.first.initializer.value.params) + [HookVisit] + AfterParams(n)
  {
    var arrow := n.first.initializer.value;
    var ps, bs, rs := VisitsOf(arrow.params), VisitsOf(arrow.body), VisitsOf(n.rest);
    HookStatementVisits(arrow.body);
    assert Visits(n.first) == ps + bs;
    assert Visits(WithHook(n).first) == ps + ([HookVisit] + bs);
    Seqs.AppendAssoc(ps, bs, rs);
    Seqs.AppendAssoc(ps, [HookVisit] + bs, rs);
    Seqs.AppendAssoc(ps, [HookVisit], bs);
    Seqs.AppendAssoc(ps + [HookVisit], bs, rs);
  }

  /** Hook insertion into the chosen component; the other statements are
      kept as they are. */
  function InsertHook(statements: seq<Node>, c: Component): (r: seq<Node>)
    requires ValidComponent(statements, c)
    ensures |r| == |statements|
    ensures forall j :: 0 <= j < |statements| && j != c.index ==> r[j] == statements[j]
    ensures ValidComponent(r, c)
  {
    statements[c.index := WithHook(statements[c.index])]
  }

  /** Where in the statements' walk the hook call goes: after every visit
      of the statements before the component and of its parameters. */
  function HookOffset(statements: seq<Node>, c: Component): nat
    requires ValidComponent(statements, c)
  {
    |VisitsOf(statements[..c.index])| + |VisitsOf(ComponentParams(statements[c.index]))|
  }

  /** The walk of the repaired statements is the old walk with one hook
      call put in at the place the component's body starts. */
  lemma InsertHookVisits(statements: seq<Node>, c: Component)
    requires ValidComponent(statements, c)
    ensures var k := HookOffset(statements, c);
      && k <= |VisitsOf(statements)|
      && VisitsOf(InsertHook(statements, c)) == VisitsOf(statements)[..k] + [HookVisit] + VisitsOf(statements)[k..]
  {
    var i := c.index;
    var n := statements[i];
    var pre, ps, tail, post := VisitsOf(statements[..i]), VisitsOf(ComponentParams(n)), AfterParams(n), VisitsOf(statements[i + 1..]);
    VisitsOfUpdate(statements, i, WithHook(n));
    WithHookSplit(n);
    assert InsertHook(statements, c) == statements[i := WithHook(n)];
    assert HookOffset(statements, c) == |pre| + |ps|;
    assert VisitsOf(statements) == pre + (ps + tail) + post;
    assert VisitsOf(InsertHook(statements, c)) == pre + (ps + [HookVisit] + tail) + post;
    Seqs.InsertBetween(VisitsOf(statements), HookOffset(statements, c), pre, ps, tail, post, HookVisit);
  }


  /** The walk of a suffix: its first statement, then the rest. */
  lemma VisitsOfFrom(ns: seq<Node>, i: nat)
    requires i < |ns|
    ensures VisitsOf(ns[i..]) == Visits(ns[i]) + VisitsOf(ns[i + 1..])
  {
    assert ns[i..] == [ns[i]] + ns[i + 1..];
    VisitsOfAppend([ns[i]], ns[i + 1..]);
    assert VisitsOf([ns[i]]) == Visits(ns[i]) + VisitsOf([]);
  }

  // ---------------------------------------------------------------------
  // The repair
  // ---------------------------------------------------------------------

  /** `c.getExpression().getText() === 'useTranslation'`. */
  predicate IsHookCall(v: Visit) {
    v.CallVisit? && v.callee == Some(HookName)
  }

  /** Line 89: some call anywhere in the file has `useTranslation` as callee. */
  predicate HasHookCall(f: SourceFile) {
    exists v :: v in FileVisits(f) && IsHookCall(v)
  }

  /** Lines 64-112. With no component found, the import is still repaired
      and nothing else happens; no warning is given. */
  function AddImportsAndHooks(f: SourceFile): (r: SourceFile)
    ensures r.imports == AddHookImport(f.imports)
    ensures HasHookCall(f) || ChooseComponent(f.statements).None? ==> r.statements == f.statements
    ensures !HasHookCall(f) && ChooseComponent(f.statements).Some? ==>
      var c := ChooseComponent(f.statements).value;
      && |r.statements| == |f.statements|
      && r.statements[c.index] == WithHook(f.statements[c.index])
      && forall j :: 0 <= j < |f.statements| && j != c.index ==> r.statements[j] == f.statements[j]
  {
    var statements :=
      if HasHookCall(f) then f.statements
      else match ChooseComponent(f.statements)
        case None => f.statements
        case Some(c) => InsertHook(f.statements, c);
    SourceFile(AddHookImport(f.imports), statements)
  }

  /** When the file has no hook call but has a component, the repaired file's
      walk is the old one with exactly one hook call inserted where the
      chosen component's statement starts; afterwards the
      file calls the hook exactly when it did before or a component was
      found. */
  lemma {:induction false} AddImportsAndHooksVisits(f: SourceFile)
    ensures var r := AddImportsAndHooks(f);
      !HasHookCall(f) && ChooseComponent(f.statements).Some? ==>
        var k := HookOffset(f.statements, ChooseComponent(f.statements).value);
        && k <= |FileVisits(f)|
        && FileVisits(r) == FileVisits(f)[..k] + [HookVisit] + FileVisits(f)[k..]
    ensures HasHookCall(AddImportsAndHooks(f)) <==> HasHookCall(f) || ChooseComponent(f.statements).Some?
  {
    var r := AddImportsAndHooks(f);
    if !HasHookCall(f) && ChooseComponent(f.statements).Some? {
      var c := ChooseComponent(f.statements).value;
      InsertHookVisits(f.statements, c);
      var k := HookOffset(f.statements, c);
      assert FileVisits(r)[k] == HookVisit;
      assert IsHookCall(HookVisit);
      assert HasHookCall(r);
    }
  }


  /** Running the repair a second time changes nothing: the import is in
      place, and either a hook call now exists or there is still no
      component. */
  lemma AddImportsAndHooksIdempotent(f: SourceFile)
    ensures AddImportsAndHooks(AddImportsAndHooks(f)) == AddImportsAndHooks(f)
  {
    var r := AddImportsAndHooks(f);
    AddHookImportIdempotent(f.imports);
    AddImportsAndHooksVisits(f);
  }
}
