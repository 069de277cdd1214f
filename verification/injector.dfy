/**
  The injector (src/core/injector.ts): per file, replace every valid JSX text
  run by `{t('<key>')}`, then every allowlisted string-literal attribute
  value by `{t('<key>')}`, and, when anything was replaced, repair imports
  and hooks and save. Keys come from the key generator under the file's
  scope, as in the extractor.
 */
module Injector {
  import opened Wrappers
  import opened Text
  import opened Ast
  import KeyGenerator
  import PathName
  import ImportsAndHooks
  import Seqs

  /** `isValidText`, written out again in the injector as it is in the
      source; `Consistency.FiltersAgree` shows both copies are the same
      predicate. */
  predicate IsValidText(text: string) {
    !AllWhitespace(text) && !(|text| >= 2 && text[0] == '{' && text[|text| - 1] == '}')
  }

  /** The allowlist at line 42. */
  const TranslatableAttributes: seq<string> := ["label", "placeholder", "title", "alt", "aria-label"]

  /** Lines 37-42: a string-literal initializer, a valid raw value, an
      allowlisted name. */
  predicate IsCandidateAttribute(a: Attribute) {
    a.literal.Some? && IsValidText(a.literal.value) && a.name in TranslatableAttributes
  }

  /** The two loops of `inject`: pass 1 over JSX text, pass 2 over JSX
      attributes. */
  datatype Pass = TextPass | AttributePass

  /** The node `{t('<key>')}` that replaces a candidate. */
  function TranslationCall(key: string): Node {
    JsxExpression(CallExpression(Leaf("t"), [StringLiteral(key)]))
  }

  /** What the walk meets in `{t('<key>')}`. */
  function TranslationVisit(key: string): Visit {
    CallVisit(Some("t"), Some(key))
  }

  /** The walk meets `{t('<key>')}` as one `t` call with the key. */
  lemma TranslationCallVisits(k: string)
    ensures Visits(TranslationCall(k)) == [TranslationVisit(k)]
  {
    var args := [StringLiteral(k)];
    assert VisitsOf(args) == Visits(args[0]) + VisitsOf(args[1..]);
    assert args[1..] == [];
    assert FirstLiteral(args) == Some(k);
    assert Visits(CallExpression(Leaf("t"), args)) == [TranslationVisit(k)] + Visits(Leaf("t")) + VisitsOf(args);
  }

  /** One pass over a tree. Every node of the pass's kind that is a
      candidate is replaced; every other node is rebuilt from its rewritten
      parts. Candidates never contain candidates of the same kind (JSX text
      has no children; a string literal has none), so collecting all
      candidates first and then replacing them, as the source does, gives
      this tree. */
  function Rewrite(pass: Pass, key: string -> string, n: Node): (r: Node)
    ensures n.Leaf? ==> r == n
    ensures n.StringLiteral? ==> r == n
    ensures r.Leaf? ==> n.Leaf?
    ensures r.StringLiteral? ==> n.StringLiteral?
    decreases n
  {
    match n
    case JsxText(raw) =>
      if pass == TextPass && IsValidText(Trim(raw))
      then TranslationCall(key(Trim(raw)))
      else n
    case JsxElement(tag, attributes, children) =>
      JsxElement(tag, RewriteAll(pass, key, attributes), RewriteAll(pass, key, children))
    case JsxAttribute(name, initializer) =>
      var a := Attribute(name, LiteralOf(initializer));
      if pass == AttributePass && IsCandidateAttribute(a)
      then JsxAttribute(name, Some(TranslationCall(key(a.literal.value))))
      else if initializer.Some? then JsxAttribute(name, Some(Rewrite(pass, key, initializer.value)))
      else n
    case JsxExpression(e) => JsxExpression(Rewrite(pass, key, e))
    case StringLiteral(_) => n
    case CallExpression(callee, args) => CallExpression(Rewrite(pass, key, callee), RewriteAll(pass, key, args))
    case ArrowFunction(params, body) => ArrowFunction(RewriteAll(pass, key, params), RewriteAll(pass, key, body))
    case FunctionDeclaration(name, exported, defaultExport, params, body) =>
      FunctionDeclaration(name, exported, defaultExport, RewriteAll(pass, key, params), RewriteAll(pass, key, body))
    case VariableStatement(exported, first, rest) =>
      VariableStatement(exported, Rewrite(pass, key, first), RewriteAll(pass, key, rest))
    case VariableDeclaration(binding, initializer) =>
      if initializer.Some? then VariableDeclaration(binding, Some(Rewrite(pass, key, initializer.value))) else n
    case Other(children) => Other(RewriteAll(pass, key, children))
    case Leaf(_) => n
  }

  function RewriteAll(pass: Pass, key: string -> string, ns: seq<Node>): (r: seq<Node>)
    ensures |r| == |ns|
    ensures forall i :: 0 <= i < |ns| ==> r[i] == Rewrite(pass, key, ns[i])
    decreases ns
  {
    if ns == [] then [] else [Rewrite(pass, key, ns[0])] + RewriteAll(pass, key, ns[1..])
  }

  // ---------------------------------------------------------------------
  // The same pass, read off the walk
  // ---------------------------------------------------------------------

  /** What one pass does to one visit of the walk: a candidate text becomes
      a `t` call; a candidate attribute loses its literal and is followed by
      a `t` call; every other visit is kept. */
  function EditVisit(pass: Pass, key: string -> string, v: Visit): seq<Visit> {
    match v
    case TextVisit(raw) =>
      if pass == TextPass && IsValidText(Trim(raw))
      then [TranslationVisit(key(Trim(raw)))]
      else [v]
    case AttributeVisit(a) =>
      if pass == AttributePass && IsCandidateAttribute(a)
      then [AttributeVisit(Attribute(a.name, None)), TranslationVisit(key(a.literal.value))]
      else [v]
    case CallVisit(_, _) => [v]
  }

  function EditVisits(pass: Pass, key: string -> string, vs: seq<Visit>): seq<Visit> {
    if vs == [] then [] else EditVisit(pass, key, vs[0]) + EditVisits(pass, key, vs[1..])
  }

  /** The key each candidate visit receives, in walk order. */
  function NewKey(pass: Pass, key: string -> string, v: Visit): seq<string> {
    match v
    case TextVisit(raw) =>
      if pass == TextPass && IsValidText(Trim(raw)) then [key(Trim(raw))] else []
    case AttributeVisit(a) =>
      if pass == AttributePass && IsCandidateAttribute(a) then [key(a.literal.value)] else []
    case CallVisit(_, _) => []
  }

  function NewKeys(pass: Pass, key: string -> string, vs: seq<Visit>): (keys: seq<string>)
    ensures |keys| <= |vs|
  {
    if vs == [] then [] else NewKey(pass, key, vs[0]) + NewKeys(pass, key, vs[1..])
  }

  lemma {:induction false} EditVisitsAppend(pass: Pass, key: string -> string, a: seq<Visit>, b: seq<Visit>)
    ensures EditVisits(pass, key, a + b) == EditVisits(pass, key, a) + EditVisits(pass, key, b)
  {
    if a == [] {
      assert a + b == b;
    } else {
      Seqs.AppendHeadTail(a, b);
      EditVisitsAppend(pass, key, a[1..], b);
      Seqs.AppendAssoc(EditVisit(pass, key, a[0]), EditVisits(pass, key, a[1..]), EditVisits(pass, key, b));
    }
  }

  lemma {:induction false} NewKeysAppend(pass: Pass, key: string -> string, a: seq<Visit>, b: seq<Visit>)
    ensures NewKeys(pass, key, a + b) == NewKeys(pass, key, a) + NewKeys(pass, key, b)
  {
    if a == [] {
      assert a + b == b;
    } else {
      Seqs.AppendHeadTail(a, b);
      NewKeysAppend(pass, key, a[1..], b);
      Seqs.AppendAssoc(NewKey(pass, key, a[0]), NewKeys(pass, key, a[1..]), NewKeys(pass, key, b));
    }
  }

  /** The tree rewrite is the walk edit: walking the rewritten tree meets
      exactly the edited visits of the original walk, in order. */
  lemma {:induction false} RewriteVisits(pass: Pass, key: string -> string, n: Node)
    ensures Visits(Rewrite(pass, key, n)) == EditVisits(pass, key, Visits(n))
    decreases n, 2
  {
    match n
    case JsxText(raw) =>
      TextRewriteVisits(pass, key, raw);
    case JsxElement(_, _, _) =>
      ElementRewriteVisits(pass, key, n);
    case JsxAttribute(name, initializer) =>
      AttributeRewriteVisits(pass, key, n);
    case JsxExpression(_) =>
      ExpressionRewriteVisits(pass, key, n);
    case StringLiteral(_) =>
    case CallExpression(callee, args) =>
      CallRewriteVisits(pass, key, n);
    case ArrowFunction(_, _) =>
      ArrowRewriteVisits(pass, key, n);
    case FunctionDeclaration(_, _, _, _, _) =>
      FunctionRewriteVisits(pass, key, n);
    case VariableStatement(_, _, _) =>
      StatementRewriteVisits(pass, key, n);
    case VariableDeclaration(_, _) =>
      DeclarationRewriteVisits(pass, key, n);
    case Other(_) =>
      OtherRewriteVisits(pass, key, n);
    case Leaf(_) =>
  }

  lemma {:induction false} ElementRewriteVisits(pass: Pass, key: string -> string, n: Node)
    requires n.JsxElement?
    ensures Visits(Rewrite(pass, key, n)) == EditVisits(pass, key, Visits(n))
    decreases n, 1
  {
    RewriteAllVisits(pass, key, n.attributes);
    RewriteAllVisits(pass, key, n.children);
    EditVisitsAppend(pass, key, VisitsOf(n.attributes), VisitsOf(n.children));
  }

  lemma {:induction false} StatementRewriteVisits(pass: Pass, key: string -> string, n: Node)
    requires n.VariableStatement?
    ensures Visits(Rewrite(pass, key, n)) == EditVisits(pass, key, Visits(n))
    decreases n, 1
  {
    RewriteVisits(pass, key, n.first);
    RewriteAllVisits(pass, key, n.rest);
    EditVisitsAppend(pass, key, Visits(n.first), VisitsOf(n.rest));
  }

  lemma {:induction false} ArrowRewriteVisits(pass: Pass, key: string -> string, n: Node)
    requires n.ArrowFunction?
    ensures Visits(Rewrite(pass, key, n)) == EditVisits(pass, key, Visits(n))
    decreases n, 1
  {
    assert Rewrite(pass, key, n) == ArrowFunction(RewriteAll(pass, key, n.params), RewriteAll(pass, key, n.body));
    assert Visits(n) == VisitsOf(n.params) + VisitsOf(n.body);
    RewriteAllVisits(pass, key, n.params);
    RewriteAllVisits(pass, key, n.body);
    EditVisitsAppend(pass, key, VisitsOf(n.params), VisitsOf(n.body));
  }

  lemma {:induction false} FunctionRewriteVisits(pass: Pass, key: string -> string, n: Node)
    requires n.FunctionDeclaration?
    ensures Visits(Rewrite(pass, key, n)) == EditVisits(pass, key, Visits(n))
    decreases n, 1
  {
    assert Rewrite(pass, key, n)
      == FunctionDeclaration(n.name, n.exported, n.defaultExport, RewriteAll(pass, key, n.params), RewriteAll(pass, key, n.body));
    assert Visits(n) == VisitsOf(n.params) + VisitsOf(n.body);
    RewriteAllVisits(pass, key, n.params);
    RewriteAllVisits(pass, key, n.body);
    EditVisitsAppend(pass, key, VisitsOf(n.params), VisitsOf(n.body));
  }

  lemma {:induction false} OtherRewriteVisits(pass: Pass, key: string -> string, n: Node)
    requires n.Other?
    ensures Visits(Rewrite(pass, key, n)) == EditVisits(pass, key, Visits(n))
    decreases n, 1
  {
    RewriteAllVisits(pass, key, n.children);
  }

  lemma {:induction false} ExpressionRewriteVisits(pass: Pass, key: string -> string, n: Node)
    requires n.JsxExpression?
    ensures Visits(Rewrite(pass, key, n)) == EditVisits(pass, key, Visits(n))
    decreases n, 1
  {
    RewriteVisits(pass, key, n.expression);
  }

  lemma {:induction false} DeclarationRewriteVisits(pass: Pass, key: string -> string, n: Node)
    requires n.VariableDeclaration?
    ensures Visits(Rewrite(pass, key, n)) == EditVisits(pass, key, Visits(n))
    decreases n, 1
  {
    if n.initializer.Some? {
      RewriteVisits(pass, key, n.initializer.value);
    } else {
      assert Visits(n) == [];
    }
  }

  lemma TextRewriteVisits(pass: Pass, key: string -> string, raw: string)
    ensures Visits(Rewrite(pass, key, JsxText(raw))) == EditVisits(pass, key, Visits(JsxText(raw)))
  {
    assert EditVisits(pass, key, [TextVisit(raw)]) == EditVisit(pass, key, TextVisit(raw)) + EditVisits(pass, key, []);
    if pass == TextPass && IsValidText(Trim(raw)) {
      TranslationCallVisits(key(Trim(raw)));
    }
  }

  lemma {:induction false} AttributeRewriteVisits(pass: Pass, key: string -> string, n: Node)
    requires n.JsxAttribute?
    ensures Visits(Rewrite(pass, key, n)) == EditVisits(pass, key, Visits(n))
    decreases n, 1
  {
    var a := Attribute(n.name, LiteralOf(n.initializer));
    var rest := if n.initializer.Some? then Visits(n.initializer.value) else [];
    assert Visits(n) == [AttributeVisit(a)] + rest;
    EditVisitsAppend(pass, key, [AttributeVisit(a)], rest);
    assert EditVisits(pass, key, [AttributeVisit(a)]) == EditVisit(pass, key, AttributeVisit(a)) + EditVisits(pass, key, []);
    if pass == AttributePass && IsCandidateAttribute(a) {
      var k := key(a.literal.value);
      TranslationCallVisits(k);
      assert Visits(n.initializer.value) == [];
      assert Visits(Rewrite(pass, key, n)) == [AttributeVisit(Attribute(n.name, None))] + Visits(TranslationCall(k));
    } else if n.initializer.Some? {
      RewriteVisits(pass, key, n.initializer.value);
      assert LiteralOf(Some(Rewrite(pass, key, n.initializer.value))) == LiteralOf(n.initializer);
    }
  }

  /** A call's walk: its own visit, then its callee's, then its arguments'. */
  lemma CallVisits(callee: Node, args: seq<Node>)
    ensures Visits(CallExpression(callee, args))
      == [CallVisit(CalleeText(callee), FirstLiteral(args))] + (Visits(callee) + VisitsOf(args))
  {
    Seqs.AppendAssoc([CallVisit(CalleeText(callee), FirstLiteral(args))], Visits(callee), VisitsOf(args));
  }

  lemma {:induction false} CallRewriteVisits(pass: Pass, key: string -> string, n: Node)
    requires n.CallExpression?
    ensures Visits(Rewrite(pass, key, n)) == EditVisits(pass, key, Visits(n))
    decreases n, 1
  {
    var callee, args := n.callee, n.args;
    var callee', args' := Rewrite(pass, key, callee), RewriteAll(pass, key, args);
    var head := CallVisit(CalleeText(callee), FirstLiteral(args));
    assert Rewrite(pass, key, n) == CallExpression(callee', args');
    RewriteVisits(pass, key, callee);
    RewriteAllVisits(pass, key, args);
    assert CalleeText(callee') == CalleeText(callee);
    assert FirstLiteral(args') == FirstLiteral(args);
    CallVisits(callee, args);
    CallVisits(callee', args');
    EditVisitsAppend(pass, key, [head], Visits(callee) + VisitsOf(args));
    EditVisitsAppend(pass, key, Visits(callee), VisitsOf(args));
    assert EditVisits(pass, key, [head]) == [head] + EditVisits(pass, key, []);
  }

  lemma {:induction false} RewriteAllVisits(pass: Pass, key: string -> string, ns: seq<Node>)
    ensures VisitsOf(RewriteAll(pass, key, ns)) == EditVisits(pass, key, VisitsOf(ns))
    decreases ns, 0
  {
    if ns != [] {
      var r := RewriteAll(pass, key, ns);
      assert r[1..] == RewriteAll(pass, key, ns[1..]);
      RewriteVisits(pass, key, ns[0]);
      RewriteAllVisits(pass, key, ns[1..]);
      EditVisitsAppend(pass, key, Visits(ns[0]), VisitsOf(ns[1..]));
    }
  }

  /** A pass that meets no candidate leaves the tree exactly as it was. */
  lemma {:induction false} RewriteUnchanged(pass: Pass, key: string -> string, n: Node)
    requires NewKeys(pass, key, Visits(n)) == []
    ensures Rewrite(pass, key, n) == n
    decreases n, 2
  {
    match n
    case JsxText(raw) =>
      TextUnchanged(pass, key, raw);
    case JsxElement(_, attributes, children) =>
      NewKeysAppend(pass, key, VisitsOf(attributes), VisitsOf(children));
      RewriteAllUnchanged(pass, key, attributes);
      RewriteAllUnchanged(pass, key, children);
    case JsxAttribute(_, _) =>
      AttributeUnchanged(pass, key, n);
    case JsxExpression(e) =>
      RewriteUnchanged(pass, key, e);
    case StringLiteral(_) =>
    case CallExpression(_, _) =>
      CallUnchanged(pass, key, n);
    case ArrowFunction(params, body) =>
      NewKeysAppend(pass, key, VisitsOf(params), VisitsOf(body));
      RewriteAllUnchanged(pass, key, params);
      RewriteAllUnchanged(pass, key, body);
    case FunctionDeclaration(_, _, _, params, body) =>
      NewKeysAppend(pass, key, VisitsOf(params), VisitsOf(body));
      RewriteAllUnchanged(pass, key, params);
      RewriteAllUnchanged(pass, key, body);
    case VariableStatement(_, first, rest) =>
      NewKeysAppend(pass, key, Visits(first), VisitsOf(rest));
      RewriteUnchanged(pass, key, first);
      RewriteAllUnchanged(pass, key, rest);
    case VariableDeclaration(_, initializer) =>
      if initializer.Some? {
        RewriteUnchanged(pass, key, initializer.value);
      }
    case Other(children) =>
      RewriteAllUnchanged(pass, key, children);
    case Leaf(_) =>
  }

  lemma TextUnchanged(pass: Pass, key: string -> string, raw: string)
    requires NewKeys(pass, key, Visits(JsxText(raw))) == []
    ensures Rewrite(pass, key, JsxText(raw)) == JsxText(raw)
  {
    assert NewKeys(pass, key, [TextVisit(raw)]) == NewKey(pass, key, TextVisit(raw)) + NewKeys(pass, key, []);
  }

  lemma {:induction false} AttributeUnchanged(pass: Pass, key: string -> string, n: Node)
    requires n.JsxAttribute?
    requires NewKeys(pass, key, Visits(n)) == []
    ensures Rewrite(pass, key, n) == n
    decreases n, 1
  {
    var a := Attribute(n.name, LiteralOf(n.initializer));
    var rest := if n.initializer.Some? then Visits(n.initializer.value) else [];
    NewKeysAppend(pass, key, [AttributeVisit(a)], rest);
    assert NewKeys(pass, key, [AttributeVisit(a)]) == NewKey(pass, key, AttributeVisit(a)) + NewKeys(pass, key, []);
    if n.initializer.Some? {
      RewriteUnchanged(pass, key, n.initializer.value);
    }
  }

  /** A call's own visit never yields a key, so a call's new keys are its
      callee's followed by its arguments'. */
  lemma CallNewKeys(pass: Pass, key: string -> string, n: Node)
    requires n.CallExpression?
    ensures NewKeys(pass, key, Visits(n)) == NewKeys(pass, key, Visits(n.callee)) + NewKeys(pass, key, VisitsOf(n.args))
  {
    var callee, args := n.callee, n.args;
    var head := CallVisit(CalleeText(callee), FirstLiteral(args));
    Seqs.AppendAssoc([head], Visits(callee), VisitsOf(args));
    assert Visits(n) == [head] + (Visits(callee) + VisitsOf(args));
    NewKeysAppend(pass, key, [head], Visits(callee) + VisitsOf(args));
    NewKeysAppend(pass, key, Visits(callee), VisitsOf(args));
    assert NewKeys(pass, key, [head]) == NewKey(pass, key, head) + NewKeys(pass, key, []);
  }

  lemma {:induction false} CallUnchanged(pass: Pass, key: string -> string, n: Node)
    requires n.CallExpression?
    requires NewKeys(pass, key, Visits(n)) == []
    ensures Rewrite(pass, key, n) == n
    decreases n, 1
  {
    CallNewKeys(pass, key, n);
    RewriteUnchanged(pass, key, n.callee);
    RewriteAllUnchanged(pass, key, n.args);
  }

  lemma {:induction false} RewriteAllUnchanged(pass: Pass, key: string -> string, ns: seq<Node>)
    requires NewKeys(pass, key, VisitsOf(ns)) == []
    ensures RewriteAll(pass, key, ns) == ns
    decreases ns, 0
  {
    if ns != [] {
      NewKeysAppend(pass, key, Visits(ns[0]), VisitsOf(ns[1..]));
      RewriteUnchanged(pass, key, ns[0]);
      RewriteAllUnchanged(pass, key, ns[1..]);
    }
  }

  // ---------------------------------------------------------------------
  // What one pass leaves behind
  // ---------------------------------------------------------------------

  /** After a pass, no candidate of its kind is left in the walk. */
  lemma {:induction false} EditLeavesNoCandidates(pass: Pass, key: string -> string, vs: seq<Visit>)
    ensures NewKeys(pass, key, EditVisits(pass, key, vs)) == []
  {
    if vs != [] {
      var e := EditVisit(pass, key, vs[0]);
      EditLeavesNoCandidates(pass, key, vs[1..]);
      NewKeysAppend(pass, key, e, EditVisits(pass, key, vs[1..]));
      if |e| == 2 {
        assert NewKeys(pass, key, e) == NewKey(pass, key, e[0]) + NewKey(pass, key, e[1]) + NewKeys(pass, key, []) by {
          assert e[1..][1..] == [];
        }
      } else {
        assert NewKeys(pass, key, e) == NewKey(pass, key, e[0]) + NewKeys(pass, key, []);
      }
    }
  }

  /** The attribute pass does not touch JSX text, so the text candidates
      it leaves are the ones it was given. */
  lemma {:induction false} AttributeEditKeepsTextCandidates(key: string -> string, vs: seq<Visit>)
    ensures NewKeys(TextPass, key, EditVisits(AttributePass, key, vs)) == NewKeys(TextPass, key, vs)
  {
    if vs != [] {
      var e := EditVisit(AttributePass, key, vs[0]);
      AttributeEditKeepsTextCandidates(key, vs[1..]);
      NewKeysAppend(TextPass, key, e, EditVisits(AttributePass, key, vs[1..]));
      if |e| == 2 {
        assert NewKeys(TextPass, key, e) == NewKey(TextPass, key, e[0]) + NewKey(TextPass, key, e[1]) + NewKeys(TextPass, key, []) by {
          assert e[1..][1..] == [];
        }
      } else {
        assert NewKeys(TextPass, key, e) == NewKey(TextPass, key, e[0]) + NewKeys(TextPass, key, []);
      }
    }
  }

  /** The key of a `t('<key>')` call, if `v` is one. */
  function TranslationKey(v: Visit): seq<string> {
    if v.CallVisit? && v.callee == Some("t") && v.firstLiteral.Some? then [v.firstLiteral.value] else []
  }

  /** The text pass does not touch attributes, so the attribute candidates
      the second pass meets are those of the original walk. */
  lemma {:induction false} TextEditKeepsAttributeCandidates(key: string -> string, vs: seq<Visit>)
    ensures NewKeys(AttributePass, key, EditVisits(TextPass, key, vs)) == NewKeys(AttributePass, key, vs)
  {
    if vs != [] {
      var e := EditVisit(TextPass, key, vs[0]);
      TextEditKeepsAttributeCandidates(key, vs[1..]);
      NewKeysAppend(AttributePass, key, e, EditVisits(TextPass, key, vs[1..]));
      assert NewKeys(AttributePass, key, e) == NewKey(AttributePass, key, e[0]) + NewKeys(AttributePass, key, []);
    }
  }

  /** The keys of all `t('<key>')` calls the walk meets, in order. */
  function TranslationKeys(vs: seq<Visit>): (keys: seq<string>)
    ensures |keys| <= |vs|
  {
    if vs == [] then [] else TranslationKey(vs[0]) + TranslationKeys(vs[1..])
  }

  lemma {:induction false} TranslationKeysAppend(a: seq<Visit>, b: seq<Visit>)
    ensures TranslationKeys(a + b) == TranslationKeys(a) + TranslationKeys(b)
  {
    if a == [] {
      assert a + b == b;
    } else {
      Seqs.AppendHeadTail(a, b);
      TranslationKeysAppend(a[1..], b);
      Seqs.AppendAssoc(TranslationKey(a[0]), TranslationKeys(a[1..]), TranslationKeys(b));
    }
  }

  /** One visit's edit adds the candidate's `t` call and keeps any other. */
  lemma EditVisitTranslationKeys(pass: Pass, key: string -> string, v: Visit)
    ensures TranslationKeys(EditVisit(pass, key, v)) == TranslationKey(v) + NewKey(pass, key, v)
  {
    var e := EditVisit(pass, key, v);
    if |e| == 2 {
      assert e[1..][1..] == [];
      assert TranslationKeys(e) == TranslationKey(e[0]) + (TranslationKey(e[1]) + TranslationKeys([]));
    } else {
      assert TranslationKeys(e) == TranslationKey(e[0]) + TranslationKeys([]);
    }
  }

  /** A pass adds exactly one `t` call per candidate, carrying that
      candidate's key, and removes none. */
  lemma {:induction false} EditAddsTranslationCalls(pass: Pass, key: string -> string, vs: seq<Visit>)
    ensures multiset(TranslationKeys(EditVisits(pass, key, vs)))
      == multiset(TranslationKeys(vs)) + multiset(NewKeys(pass, key, vs))
  {
    if vs != [] {
      var v := vs[0];
      EditAddsTranslationCalls(pass, key, vs[1..]);
      TranslationKeysAppend(EditVisit(pass, key, v), EditVisits(pass, key, vs[1..]));
      EditVisitTranslationKeys(pass, key, v);
    }
  }

  // ---------------------------------------------------------------------
  // One file, and the whole run
  // ---------------------------------------------------------------------

  /** The file after one run, and whether it was saved. */
  datatype InjectOutcome = InjectOutcome(file: SourceFile, saved: bool)

  /** Lines 17-54 for one file: the text pass, then the attribute pass over
      the result, then, only when either replaced something, the import and
      hook repair and the save. */
  function InjectFile(input: SourceInput): (out: InjectOutcome)
    ensures out.file.imports == input.tree.imports || out.saved
  {
    var key := KeyGenerator.KeyFor(input.path);
    var afterText := SourceFile(input.tree.imports, RewriteAll(TextPass, key, input.tree.statements));
    var afterAttributes := SourceFile(afterText.imports, RewriteAll(AttributePass, key, afterText.statements));
    var hasReplacements :=
      NewKeys(TextPass, key, FileVisits(input.tree)) != [] || NewKeys(AttributePass, key, FileVisits(afterText)) != [];
    if hasReplacements then InjectOutcome(ImportsAndHooks.AddImportsAndHooks(afterAttributes), true)
    else InjectOutcome(afterAttributes, false)
  }

  /** A file with no candidate is neither changed nor saved. */
  lemma InjectFileUnsaved(input: SourceInput)
    ensures !InjectFile(input).saved ==> InjectFile(input).file == input.tree
  {
    var key := KeyGenerator.KeyFor(input.path);
    if !InjectFile(input).saved {
      RewriteAllUnchanged(TextPass, key, input.tree.statements);
      RewriteAllUnchanged(AttributePass, key, input.tree.statements);
    }
  }

  /** The walk of an injected file: each pass's edit, in order, and the hook
      call when one was inserted. */
  lemma {:induction false} InjectFileVisits(input: SourceInput)
    ensures var key := KeyGenerator.KeyFor(input.path);
      var edited := EditVisits(AttributePass, key, EditVisits(TextPass, key, FileVisits(input.tree)));
      var vs := FileVisits(InjectFile(input).file);
      vs == edited || exists k :: 0 <= k <= |edited| && vs == edited[..k] + [ImportsAndHooks.HookVisit] + edited[k..]
  {
    var key := KeyGenerator.KeyFor(input.path);
    var afterText := SourceFile(input.tree.imports, RewriteAll(TextPass, key, input.tree.statements));
    var afterAttributes := SourceFile(afterText.imports, RewriteAll(AttributePass, key, afterText.statements));
    RewriteAllVisits(TextPass, key, input.tree.statements);
    RewriteAllVisits(AttributePass, key, afterText.statements);
    ImportsAndHooks.AddImportsAndHooksVisits(afterAttributes);
  }

  /** The hook call is not a candidate of either pass. */
  lemma HookIsNoCandidate(pass: Pass, key: string -> string)
    ensures NewKeys(pass, key, [ImportsAndHooks.HookVisit]) == []
  {
    assert NewKey(pass, key, ImportsAndHooks.HookVisit) == [];
    assert [ImportsAndHooks.HookVisit][1..] == [];
  }

  /** Inserting the hook call into a walk leaves a pass's candidates as
      they were. */
  lemma HookKeepsCandidates(pass: Pass, key: string -> string, a: seq<Visit>, b: seq<Visit>)
    ensures NewKeys(pass, key, a + [ImportsAndHooks.HookVisit] + b) == NewKeys(pass, key, a + b)
  {
    var h := [ImportsAndHooks.HookVisit];
    HookIsNoCandidate(pass, key);
    NewKeysAppend(pass, key, a + h, b);
    NewKeysAppend(pass, key, a, h);
    NewKeysAppend(pass, key, a, b);
  }

  /** The hook call is not a `t` call. */
  lemma HookHasNoTranslationKey()
    ensures TranslationKeys([ImportsAndHooks.HookVisit]) == []
  {
    assert TranslationKey(ImportsAndHooks.HookVisit) == [];
    assert [ImportsAndHooks.HookVisit][1..] == [];
  }

  /** Inserting the hook call into a walk leaves its `t` keys as they were. */
  lemma HookKeepsTranslationKeys(a: seq<Visit>, b: seq<Visit>)
    ensures TranslationKeys(a + [ImportsAndHooks.HookVisit] + b) == TranslationKeys(a + b)
  {
    var h := [ImportsAndHooks.HookVisit];
    HookHasNoTranslationKey();
    TranslationKeysAppend(a + h, b);
    TranslationKeysAppend(a, h);
    TranslationKeysAppend(a, b);
  }

  /** The two passes in order add one `t` call per candidate of each pass. */
  lemma EditsAddTranslationCalls(key: string -> string, vs: seq<Visit>)
    ensures var afterText := EditVisits(TextPass, key, vs);
      multiset(TranslationKeys(EditVisits(AttributePass, key, afterText)))
        == multiset(TranslationKeys(vs)) + multiset(NewKeys(TextPass, key, vs) + NewKeys(AttributePass, key, afterText))
  {
    var afterText := EditVisits(TextPass, key, vs);
    EditAddsTranslationCalls(TextPass, key, vs);
    EditAddsTranslationCalls(AttributePass, key, afterText);
  }

  /** One run adds exactly one `t` call per replacement of either pass and
      keeps every call the file already made. */
  lemma {:induction false} InjectFileTranslationCalls(input: SourceInput)
    ensures var key := KeyGenerator.KeyFor(input.path);
      var vs := FileVisits(input.tree);
      multiset(TranslationKeys(FileVisits(InjectFile(input).file)))
        == multiset(TranslationKeys(vs))
          + multiset(NewKeys(TextPass, key, vs) + NewKeys(AttributePass, key, EditVisits(TextPass, key, vs)))
  {
    var key := KeyGenerator.KeyFor(input.path);
    var edited := EditVisits(AttributePass, key, EditVisits(TextPass, key, FileVisits(input.tree)));
    var after := FileVisits(InjectFile(input).file);
    EditsAddTranslationCalls(key, FileVisits(input.tree));
    InjectFileVisits(input);
    HookInsertionKeeps(key, edited, after);
  }

  /** Inserting the hook call anywhere in a walk changes neither pass's
      candidates nor the `t` calls. */
  lemma HookInsertionKeeps(key: string -> string, edited: seq<Visit>, after: seq<Visit>)
    requires after == edited
      || exists k :: 0 <= k <= |edited| && after == edited[..k] + [ImportsAndHooks.HookVisit] + edited[k..]
    ensures NewKeys(TextPass, key, after) == NewKeys(TextPass, key, edited)
    ensures NewKeys(AttributePass, key, after) == NewKeys(AttributePass, key, edited)
    ensures TranslationKeys(after) == TranslationKeys(edited)
  {
    if after != edited {
      var k :| 0 <= k <= |edited| && after == edited[..k] + [ImportsAndHooks.HookVisit] + edited[k..];
      assert edited == edited[..k] + edited[k..];
      HookKeepsCandidates(TextPass, key, edited[..k], edited[k..]);
      HookKeepsCandidates(AttributePass, key, edited[..k], edited[k..]);
      HookKeepsTranslationKeys(edited[..k], edited[k..]);
    }
  }

  /** The two passes in order leave no candidate of either kind. */
  lemma EditsLeaveNoCandidates(key: string -> string, vs: seq<Visit>)
    ensures var edited := EditVisits(AttributePass, key, EditVisits(TextPass, key, vs));
      NewKeys(TextPass, key, edited) == [] && NewKeys(AttributePass, key, edited) == []
  {
    var afterText := EditVisits(TextPass, key, vs);
    EditLeavesNoCandidates(TextPass, key, vs);
    AttributeEditKeepsTextCandidates(key, afterText);
    EditLeavesNoCandidates(AttributePass, key, afterText);
  }

  /** No candidate survives one run, and the hook call does not create one. */
  lemma {:induction false} InjectFileLeavesNoCandidates(input: SourceInput)
    ensures var key := KeyGenerator.KeyFor(input.path);
      var vs := FileVisits(InjectFile(input).file);
      NewKeys(TextPass, key, vs) == [] && NewKeys(AttributePass, key, vs) == []
  {
    var key := KeyGenerator.KeyFor(input.path);
    var edited := EditVisits(AttributePass, key, EditVisits(TextPass, key, FileVisits(input.tree)));
    var vs := FileVisits(InjectFile(input).file);
    EditsLeaveNoCandidates(key, FileVisits(input.tree));
    InjectFileVisits(input);
    HookInsertionKeeps(key, edited, vs);
  }

  /** A second run over the injected file replaces nothing, saves nothing
      and leaves the file as it is. */
  lemma InjectFileIdempotent(input: SourceInput)
    ensures var once := InjectFile(input).file;
      InjectFile(SourceInput(input.path, once)) == InjectOutcome(once, false)
  {
    var once := InjectFile(input).file;
    var key := KeyGenerator.KeyFor(input.path);
    InjectFileLeavesNoCandidates(input);
    RewriteAllUnchanged(TextPass, key, once.statements);
    RewriteAllUnchanged(AttributePass, key, once.statements);
  }

  // ---------------------------------------------------------------------
  // Where the hook goes
  // ---------------------------------------------------------------------

  /** A pass keeps the kind of every node the component choice looks at; only
      a replaced JSX text changes kind, into a JSX expression. */
  lemma RewriteKeepsKind(pass: Pass, key: string -> string, n: Node)
    ensures Rewrite(pass, key, n).FunctionDeclaration? == n.FunctionDeclaration?
    ensures Rewrite(pass, key, n).VariableStatement? == n.VariableStatement?
    ensures Rewrite(pass, key, n).VariableDeclaration? == n.VariableDeclaration?
    ensures Rewrite(pass, key, n).ArrowFunction? == n.ArrowFunction?
  {
  }

  /** A pass changes none of the three tests the component choice makes. */
  lemma RewriteKeepsComponentTests(pass: Pass, key: string -> string, n: Node)
    ensures ImportsAndHooks.IsFunction(Rewrite(pass, key, n)) == ImportsAndHooks.IsFunction(n)
    ensures ImportsAndHooks.IsExportedFunction(Rewrite(pass, key, n)) == ImportsAndHooks.IsExportedFunction(n)
    ensures ImportsAndHooks.IsExportedArrowStatement(Rewrite(pass, key, n)) == ImportsAndHooks.IsExportedArrowStatement(n)
  {
    RewriteKeepsKind(pass, key, n);
    if n.VariableStatement? {
      RewriteKeepsKind(pass, key, n.first);
      if n.first.VariableDeclaration? && n.first.initializer.Some? {
        RewriteKeepsKind(pass, key, n.first.initializer.value);
      }
    }
  }

  /** Lines 94-110 run after both passes, yet choose the component the file
      as written would give. */
  lemma ChooseComponentRewrite(pass: Pass, key: string -> string, s: seq<Node>)
    ensures ImportsAndHooks.ChooseComponent(RewriteAll(pass, key, s)) == ImportsAndHooks.ChooseComponent(s)
  {
    var r := RewriteAll(pass, key, s);
    forall i | 0 <= i < |s|
      ensures ImportsAndHooks.IsFunction(r[i]) == ImportsAndHooks.IsFunction(s[i])
      ensures ImportsAndHooks.IsExportedFunction(r[i]) == ImportsAndHooks.IsExportedFunction(s[i])
      ensures ImportsAndHooks.IsExportedArrowStatement(r[i]) == ImportsAndHooks.IsExportedArrowStatement(s[i])
    {
      RewriteKeepsComponentTests(pass, key, s[i]);
    }
    ImportsAndHooks.FirstIndexAgree(r, s, ImportsAndHooks.IsExportedFunction);
    ImportsAndHooks.FirstIndexAgree(r, s, ImportsAndHooks.IsFunction);
    ImportsAndHooks.FirstIndexAgree(r, s, ImportsAndHooks.IsExportedArrowStatement);
  }

  /** A pass neither adds nor removes a `useTranslation` call: calls are
      kept, and the `t` calls it adds are not hook calls. */
  lemma {:induction false} EditKeepsHookCalls(pass: Pass, key: string -> string, vs: seq<Visit>)
    ensures forall v :: ImportsAndHooks.IsHookCall(v) ==> (v in EditVisits(pass, key, vs) <==> v in vs)
  {
    if vs != [] {
      EditKeepsHookCalls(pass, key, vs[1..]);
      assert vs == [vs[0]] + vs[1..];
    }
  }

  /** The hook goes into the component chosen in the file as written, and
      only when that file has no `useTranslation` call and something was
      replaced; every other statement is the two passes' rewrite of the
      original. */
  lemma InjectFileHookPlacement(input: SourceInput)
    ensures var key := KeyGenerator.KeyFor(input.path);
      var s := input.tree.statements;
      var rs := RewriteAll(AttributePass, key, RewriteAll(TextPass, key, s));
      var out := InjectFile(input);
      var c := ImportsAndHooks.ChooseComponent(s);
      && |out.file.statements| == |s|
      && (forall j :: 0 <= j < |s| && (c.None? || j != c.value.index) ==> out.file.statements[j] == rs[j])
      && (c.Some? ==>
            && ImportsAndHooks.ValidComponent(rs, c.value)
            && out.file.statements[c.value.index]
                 == if out.saved && !ImportsAndHooks.HasHookCall(input.tree)
                    then ImportsAndHooks.WithHook(rs[c.value.index])
                    else rs[c.value.index])
  {
    var key := KeyGenerator.KeyFor(input.path);
    var s := input.tree.statements;
    var ts := RewriteAll(TextPass, key, s);
    var rs := RewriteAll(AttributePass, key, ts);
    ChooseComponentRewrite(TextPass, key, s);
    ChooseComponentRewrite(AttributePass, key, ts);
    RewriteAllVisits(TextPass, key, s);
    RewriteAllVisits(AttributePass, key, ts);
    EditKeepsHookCalls(TextPass, key, VisitsOf(s));
    EditKeepsHookCalls(AttributePass, key, VisitsOf(ts));
    var after := SourceFile(input.tree.imports, rs);
    assert ImportsAndHooks.HasHookCall(after) == ImportsAndHooks.HasHookCall(input.tree);
  }

  /** `inject(filePaths)`: every file on its own, in order. */
  function Inject(inputs: seq<SourceInput>): (outcomes: seq<InjectOutcome>)
    ensures |outcomes| == |inputs|
    ensures forall i :: 0 <= i < |inputs| ==> outcomes[i] == InjectFile(inputs[i])
  {
    Seqs.Map(InjectFile, inputs)
  }
}
