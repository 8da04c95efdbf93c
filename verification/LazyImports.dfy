/**
  The lazy-import guard: a visitor with mutable depth counters over a Python syntax tree,
  proved equal to a judgement about each visited node and its chain of ancestors.
*/
module LazyImports {
  import opened Wrappers
  import opened PythonText

  datatype ScopeKind = FunctionDef | AsyncFunctionDef | ClassDef

  /** Children are listed in the order the generic visitor walks the fields of a node. */
  datatype Node =
    | If(test: Node, body: seq<Node>, orelse: seq<Node>)
    | Scope(kind: ScopeKind, children: seq<Node>)
    | Import(line: nat, children: seq<Node>)
    | ImportFrom(line: nat, children: seq<Node>)
    | Call(line: nat, func: Node, arguments: seq<Node>)
    | Name(id: string)
    | Attribute(value: Node, attr: string)
    | Other(children: seq<Node>)

  datatype Failure = Failure(line: nat, kind: string)

  const MARKERS := ["lazy import justified:", "local import justified:"]
  const TYPE_CHECKING := "TYPE_CHECKING"

  // ---------------------------------------------------------------- justification comments

  predicate OccursAt(text: string, part: string, i: nat) {
    i + |part| <= |text| && text[i..i + |part|] == part
  }

  predicate Contains(text: string, part: string) {
    exists i: nat | i <= |text| :: OccursAt(text, part, i)
  }

  predicate HasMarker(text: string, markers: seq<string>) {
    exists k :: 0 <= k < |markers| && Contains(text, markers[k])
  }

  predicate IsBlank(line: string) {
    Strip(line) == ""
  }

  predicate IsComment(line: string) {
    Strip(line) != "" && Strip(line)[0] == '#'
  }

  /**
    A line is justified by a marker on the line itself, or on a comment above it with
    nothing but comments and blank lines in between.
  */
  ghost predicate Justified(lines: seq<string>, line: int, markers: seq<string>) {
    && 1 <= line <= |lines|
    && (|| HasMarker(lines[line - 1], markers)
        || exists j :: 0 <= j < line - 1 && JustifiesFrom(lines, j, line, markers))
  }

  ghost predicate JustifiesFrom(lines: seq<string>, j: int, line: int, markers: seq<string>)
    requires 0 <= j < line - 1 < |lines|
  {
    && IsComment(lines[j]) && HasMarker(Strip(lines[j]), markers)
    && forall k :: j < k < line - 1 ==> IsBlank(lines[k]) || IsComment(lines[k])
  }

  method HasJustification(lines: seq<string>, line: int, markers: seq<string>) returns (found: bool)
    requires 1 <= line <= |lines|
    ensures found <==> Justified(lines, line, markers)
  {
    if HasMarker(lines[line - 1], markers) {
      return true;
    }
    var index := line - 2;
    while index >= 0
      invariant -1 <= index <= line - 2
      invariant forall k :: index < k < line - 1 ==> IsBlank(lines[k]) || IsComment(lines[k])
      invariant forall j :: index < j < line - 1 ==> !JustifiesFrom(lines, j, line, markers)
    {
      var stripped := Strip(lines[index]);
      if stripped == "" {
        index := index - 1;
      } else if stripped[0] == '#' {
        if HasMarker(stripped, markers) {
          assert JustifiesFrom(lines, index, line, markers);
          return true;
        }
        index := index - 1;
      } else {
        forall j | 0 <= j < line - 1 ensures !JustifiesFrom(lines, j, line, markers) {
          if j <= index {
            assert !(IsBlank(lines[index]) || IsComment(lines[index]));
          }
        }
        return false;
      }
    }
    return false;
  }

  // ---------------------------------------------------------------- judging one node

  predicate IsTypeCheckingGuard(test: Node) {
    match test
    case Name(id) => id == TYPE_CHECKING
    case Attribute(_, attr) => attr == TYPE_CHECKING
    case _ => false
  }

  function CallName(func: Node): Option<string> {
    match func
    case Name(id) => Some(id)
    case Attribute(Name(id), attr) => Some(id + "." + attr)
    case _ => None
  }

  predicate IsDynamicImport(name: Option<string>) {
    name == Some("__import__") || name == Some("importlib.import_module")
  }

  function DynamicLabel(name: string): string {
    "dynamic import call `" + name + "`"
  }

  /** The complaint a node earns by itself: which line and what kind, if any. */
  function Complaint(node: Node, inScope: bool, typeChecking: bool): Option<Failure> {
    match node
    case Import(line, _) => if inScope && !typeChecking then Some(Failure(line, "local import")) else None
    case ImportFrom(line, _) => if inScope && !typeChecking then Some(Failure(line, "local import-from")) else None
    case Call(line, func, _) =>
      if IsDynamicImport(CallName(func)) then Some(Failure(line, DynamicLabel(CallName(func).value))) else None
    case _ => None
  }

  ghost function Unjustified(complaint: Option<Failure>, lines: seq<string>): seq<Failure> {
    if complaint.Some? && !Justified(lines, complaint.value.line, MARKERS) then [complaint.value] else []
  }

  // ---------------------------------------------------------------- the declarative reading

  /** How the walk went from an ancestor to its child. */
  datatype Edge = IntoBody | IntoOrelse | IntoTest | IntoChild

  datatype Frame = Frame(ancestor: Node, edge: Edge)

  datatype Visit = Visit(node: Node, chain: seq<Frame>)

  /** The visited nodes in order, each with all its ancestors; only the test of a guard is not visited. */
  function VisitOrder(node: Node, chain: seq<Frame>): seq<Visit>
    decreases node, 1
  {
    [Visit(node, chain)] + (
      match node
      case If(test, body, orelse) =>
        (if IsTypeCheckingGuard(test) then [] else VisitOrder(test, chain + [Frame(node, IntoTest)]))
        + VisitOrderAll(body, chain + [Frame(node, IntoBody)])
        + VisitOrderAll(orelse, chain + [Frame(node, IntoOrelse)])
      case Call(_, func, arguments) =>
        VisitOrder(func, chain + [Frame(node, IntoChild)])
        + VisitOrderAll(arguments, chain + [Frame(node, IntoChild)])
      case Attribute(value, _) => VisitOrder(value, chain + [Frame(node, IntoChild)])
      case Name(_) => []
      case Scope(_, children) => VisitOrderAll(children, chain + [Frame(node, IntoChild)])
      case Import(_, children) => VisitOrderAll(children, chain + [Frame(node, IntoChild)])
      case ImportFrom(_, children) => VisitOrderAll(children, chain + [Frame(node, IntoChild)])
      case Other(children) => VisitOrderAll(children, chain + [Frame(node, IntoChild)]))
  }

  function VisitOrderAll(nodes: seq<Node>, chain: seq<Frame>): seq<Visit>
    decreases nodes, 0
  {
    if nodes == [] then []
    else VisitOrderAll(nodes[..|nodes| - 1], chain) + VisitOrder(nodes[|nodes| - 1], chain)
  }

  predicate IsScopeFrame(f: Frame) {
    f.ancestor.Scope?
  }

  predicate IsTypeCheckingFrame(f: Frame) {
    f.edge == IntoBody && f.ancestor.If? && IsTypeCheckingGuard(f.ancestor.test)
  }

  /** Some ancestor is a function or class. */
  predicate InScope(chain: seq<Frame>) {
    exists k :: 0 <= k < |chain| && IsScopeFrame(chain[k])
  }

  /** The walk entered the body of some TYPE_CHECKING block. */
  predicate UnderTypeChecking(chain: seq<Frame>) {
    exists k :: 0 <= k < |chain| && IsTypeCheckingFrame(chain[k])
  }

  /** The failures a list of visits deserves, in order. */
  ghost function Judged(visits: seq<Visit>, lines: seq<string>): seq<Failure> {
    if visits == [] then []
    else
      var v := visits[|visits| - 1];
      Judged(visits[..|visits| - 1], lines)
      + Unjustified(Complaint(v.node, InScope(v.chain), UnderTypeChecking(v.chain)), lines)
  }

  lemma {:induction false} JudgedConcat(xs: seq<Visit>, ys: seq<Visit>, lines: seq<string>)
    ensures Judged(xs + ys, lines) == Judged(xs, lines) + Judged(ys, lines)
  {
    if ys == [] {
      assert xs + ys == xs;
    } else {
      var init, v := ys[..|ys| - 1], ys[|ys| - 1];
      JudgedConcat(xs, init, lines);
      assert (xs + ys)[..|xs + ys| - 1] == xs + init;
      var own := Unjustified(Complaint(v.node, InScope(v.chain), UnderTypeChecking(v.chain)), lines);
      FourAssociate(Judged(xs, lines), Judged(init, lines), own, []);
      assert Judged(ys, lines) == Judged(init, lines) + own + [];
    }
  }

  lemma ChainSnoc(chain: seq<Frame>, f: Frame)
    ensures InScope(chain + [f]) <==> InScope(chain) || IsScopeFrame(f)
    ensures UnderTypeChecking(chain + [f]) <==> UnderTypeChecking(chain) || IsTypeCheckingFrame(f)
  {
    var longer := chain + [f];
    assert longer[|chain|] == f;
    assert forall k :: 0 <= k < |chain| ==> longer[k] == chain[k];
    if InScope(chain) {
      var k :| 0 <= k < |chain| && IsScopeFrame(chain[k]);
      assert IsScopeFrame(longer[k]);
    }
    if UnderTypeChecking(chain) {
      var k :| 0 <= k < |chain| && IsTypeCheckingFrame(chain[k]);
      assert IsTypeCheckingFrame(longer[k]);
    }
  }

  // ---------------------------------------------------------------- which nodes are visited, and which reported

  /** `child` stands below `parent` along the edge. */
  predicate IsChild(parent: Node, edge: Edge, child: Node) {
    match parent
    case If(test, body, orelse) =>
      (match edge
       case IntoTest => child == test
       case IntoBody => child in body
       case IntoOrelse => child in orelse
       case IntoChild => false)
    case Call(_, func, arguments) => edge == IntoChild && (child == func || child in arguments)
    case Attribute(value, _) => edge == IntoChild && child == value
    case Name(_) => false
    case Scope(_, children) => edge == IntoChild && child in children
    case Import(_, children) => edge == IntoChild && child in children
    case ImportFrom(_, children) => edge == IntoChild && child in children
    case Other(children) => edge == IntoChild && child in children
  }

  /** An `if` on TYPE_CHECKING, as a name or as an attribute of anything. */
  predicate GuardsTypeChecking(node: Node) {
    && node.If?
    && (node.test == Name("TYPE_CHECKING") || (node.test.Attribute? && node.test.attr == "TYPE_CHECKING"))
  }

  /** `chain` leads from the root to `node`, not through the test of a TYPE_CHECKING guard. */
  predicate LeadsTo(root: Node, chain: seq<Frame>, node: Node)
    decreases |chain|
  {
    if chain == [] then node == root
    else
      var n := |chain| - 1;
      var last := chain[n];
      && LeadsTo(root, chain[..n], last.ancestor) && IsChild(last.ancestor, last.edge, node)
      && !(last.edge == IntoTest && GuardsTypeChecking(last.ancestor))
  }

  lemma LeadsToSnoc(root: Node, chain: seq<Frame>, f: Frame, node: Node)
    ensures LeadsTo(root, chain + [f], node) <==>
            && LeadsTo(root, chain, f.ancestor) && IsChild(f.ancestor, f.edge, node)
            && !(f.edge == IntoTest && GuardsTypeChecking(f.ancestor))
  {
    assert (chain + [f])[..|chain|] == chain;
  }

  /** Everything visited is led to. */
  lemma {:induction false} VisitsLead(root: Node, node: Node, chain: seq<Frame>)
    requires LeadsTo(root, chain, node)
    ensures forall v :: v in VisitOrder(node, chain) ==> LeadsTo(root, v.chain, v.node)
    decreases node, 1
  {
    match node
    case If(_, _, _) => VisitsBelowIfLead(root, node, chain);
    case Call(_, func, arguments) =>
      LeadsToSnoc(root, chain, Frame(node, IntoChild), func);
      VisitsLead(root, func, chain + [Frame(node, IntoChild)]);
      VisitsAllLead(root, arguments, chain, Frame(node, IntoChild));
    case Attribute(value, _) =>
      LeadsToSnoc(root, chain, Frame(node, IntoChild), value);
      VisitsLead(root, value, chain + [Frame(node, IntoChild)]);
    case Name(_) =>
    case _ => VisitsAllLead(root, node.children, chain, Frame(node, IntoChild));
  }

  lemma {:induction false} VisitsBelowIfLead(root: Node, node: Node, chain: seq<Frame>)
    requires node.If? && LeadsTo(root, chain, node)
    ensures forall v :: v in VisitOrder(node, chain) ==> LeadsTo(root, v.chain, v.node)
    decreases node, 0
  {
    var test := node.test;
    LeadsToSnoc(root, chain, Frame(node, IntoTest), test);
    if !IsTypeCheckingGuard(test) {
      VisitsLead(root, test, chain + [Frame(node, IntoTest)]);
    }
    VisitsAllLead(root, node.body, chain, Frame(node, IntoBody));
    VisitsAllLead(root, node.orelse, chain, Frame(node, IntoOrelse));
  }

  lemma {:induction false} VisitsAllLead(root: Node, nodes: seq<Node>, chain: seq<Frame>, f: Frame)
    requires LeadsTo(root, chain, f.ancestor) && f.edge != IntoTest
    requires forall child :: child in nodes ==> IsChild(f.ancestor, f.edge, child)
    ensures forall v :: v in VisitOrderAll(nodes, chain + [f]) ==> LeadsTo(root, v.chain, v.node)
    decreases nodes, 0
  {
    if nodes == [] {
    } else {
      var n := |nodes| - 1;
      VisitsAllLead(root, nodes[..n], chain, f);
      LeadsToSnoc(root, chain, f, nodes[n]);
      VisitsLead(root, nodes[n], chain + [f]);
    }
  }

  lemma {:induction false} AllAreVisited(nodes: seq<Node>, chain: seq<Frame>, child: Node)
    requires child in nodes
    ensures Visit(child, chain) in VisitOrderAll(nodes, chain)
    ensures forall v :: v in VisitOrder(child, chain) ==> v in VisitOrderAll(nodes, chain)
    decreases |nodes|
  {
    var n := |nodes| - 1;
    if child == nodes[n] {
      assert Visit(child, chain) in VisitOrder(child, chain);
    } else {
      AllAreVisited(nodes[..n], chain, child);
    }
  }

  /** Where a node is visited, so are its children, except the test of a guard. */
  lemma ChildIsVisited(node: Node, chain: seq<Frame>, edge: Edge, child: Node)
    requires IsChild(node, edge, child) && !(edge == IntoTest && GuardsTypeChecking(node))
    ensures forall v :: v in VisitOrder(child, chain + [Frame(node, edge)]) ==> v in VisitOrder(node, chain)
    ensures Visit(child, chain + [Frame(node, edge)]) in VisitOrder(node, chain)
  {
    var below := chain + [Frame(node, edge)];
    assert Visit(child, below) in VisitOrder(child, below);
    match node
    case If(test, body, orelse) =>
      if edge == IntoBody {
        AllAreVisited(body, below, child);
      } else if edge == IntoOrelse {
        AllAreVisited(orelse, below, child);
      }
    case Call(_, func, arguments) =>
      if child != func {
        AllAreVisited(arguments, below, child);
      }
    case Attribute(value, _) =>
    case Name(_) =>
    case _ => AllAreVisited(node.children, below, child);
  }

  /** What is visited below a visited node is visited. */
  lemma {:induction false} VisitedBelow(root: Node, chain: seq<Frame>, node: Node)
    requires LeadsTo(root, chain, node)
    ensures forall v :: v in VisitOrder(node, chain) ==> v in VisitOrder(root, [])
    decreases |chain|
  {
    if chain == [] {
    } else {
      var n := |chain| - 1;
      VisitedBelow(root, chain[..n], chain[n].ancestor);
      ChildIsVisited(chain[n].ancestor, chain[..n], chain[n].edge, node);
      assert chain[..n] + [chain[n]] == chain;
    }
  }

  /** The visited nodes are exactly those a chain of children leads to without passing a guard's test. */
  lemma VisitedIff(root: Node, node: Node, chain: seq<Frame>)
    ensures Visit(node, chain) in VisitOrder(root, []) <==> LeadsTo(root, chain, node)
  {
    VisitsLead(root, root, []);
    if LeadsTo(root, chain, node) {
      VisitedBelow(root, chain, node);
      assert Visit(node, chain) in VisitOrder(node, chain);
    }
  }

  /** Some ancestor is a function or a class. */
  predicate IsLocal(chain: seq<Frame>) {
    exists k :: 0 <= k < |chain| && chain[k].ancestor.Scope?
  }

  /** Some ancestor is a guard, entered by its body. */
  predicate IsForTypeChecking(chain: seq<Frame>) {
    exists k :: 0 <= k < |chain| && chain[k].edge == IntoBody && GuardsTypeChecking(chain[k].ancestor)
  }

  /** The failure a node deserves where it stands, if any. */
  predicate Deserves(node: Node, chain: seq<Frame>, failure: Failure) {
    match node
    case Import(line, _) =>
      failure == Failure(line, "local import") && IsLocal(chain) && !IsForTypeChecking(chain)
    case ImportFrom(line, _) =>
      failure == Failure(line, "local import-from") && IsLocal(chain) && !IsForTypeChecking(chain)
    case Call(line, func, _) =>
      || (func == Name("__import__") && failure == Failure(line, "dynamic import call `__import__`"))
      || (func == Attribute(Name("importlib"), "import_module")
          && failure == Failure(line, "dynamic import call `importlib.import_module`"))
    case _ => false
  }

  /** Python identifiers hold no dot. */
  predicate IsIdentifier(text: string) {
    '.' !in text
  }

  lemma DottedNames(a: string, b: string)
    requires IsIdentifier(a) && IsIdentifier(b)
    ensures a + "." + b == "importlib.import_module" <==> a == "importlib" && b == "import_module"
    ensures a + "." + b != "__import__"
    ensures a != "importlib.import_module"
  {
    var whole := "importlib.import_module";
    assert whole[9] == '.';
    assert "importlib" + "." + "import_module" == whole;
    assert '.' in a + "." + b by {
      assert (a + "." + b)[|a|] == '.';
    }
    assert '.' !in "__import__";
    if a + "." + b == whole {
      assert whole[|a|] == '.';
      assert |a| == 9 by {
        assert forall k :: 0 <= k < |a| ==> a[k] == whole[k];
        assert forall k :: 0 <= k < 9 ==> "importlib"[k] == whole[k] && '.' !in "importlib";
      }
      assert a == whole[..9] && b == whole[10..];
    }
  }

  /** The two dynamic imports, by the shape of the called expression. */
  lemma CallNameMeaning(func: Node, count: nat)
    requires Numbered(func, count)
    ensures CallName(func) == Some("__import__") <==> func == Name("__import__")
    ensures CallName(func) == Some("importlib.import_module") <==> func == Attribute(Name("importlib"), "import_module")
  {
    match func
    case Name(id) => DottedNames(id, "");
    case Attribute(Name(id), attr) =>
      assert Numbered(func.value, count);
      DottedNames(id, attr);
    case _ =>
  }

  lemma LabelMeaning()
    ensures DynamicLabel("__import__") == "dynamic import call `__import__`"
    ensures DynamicLabel("importlib.import_module") == "dynamic import call `importlib.import_module`"
  {
  }

  lemma ContextMeaning(chain: seq<Frame>)
    ensures InScope(chain) == IsLocal(chain)
    ensures UnderTypeChecking(chain) == IsForTypeChecking(chain)
  {
    assert forall f :: IsTypeCheckingFrame(f) <==> f.edge == IntoBody && GuardsTypeChecking(f.ancestor);
    assert forall k :: 0 <= k < |chain| ==> (IsScopeFrame(chain[k]) <==> chain[k].ancestor.Scope?);
  }

  /** A node complains of exactly what it deserves. */
  lemma ComplaintIff(node: Node, chain: seq<Frame>, failure: Failure, count: nat)
    requires Numbered(node, count)
    ensures Complaint(node, InScope(chain), UnderTypeChecking(chain)) == Some(failure) <==> Deserves(node, chain, failure)
  {
    ContextMeaning(chain);
    if node.Call? {
      CallNameMeaning(node.func, count);
      LabelMeaning();
    }
  }

  lemma {:induction false} JudgedMembers(visits: seq<Visit>, lines: seq<string>, failure: Failure)
    ensures failure in Judged(visits, lines) <==>
            exists v :: v in visits
              && Complaint(v.node, InScope(v.chain), UnderTypeChecking(v.chain)) == Some(failure)
              && !Justified(lines, failure.line, MARKERS)
  {
    if visits == [] {
    } else {
      var init, last := visits[..|visits| - 1], visits[|visits| - 1];
      JudgedMembers(init, lines, failure);
      assert visits == init + [last];
    }
  }

  /** Some node a chain leads to deserves the failure, and no marker justifies its line. */
  ghost predicate IsReported(tree: Node, lines: seq<string>, failure: Failure) {
    && !Justified(lines, failure.line, MARKERS)
    && exists chain, node :: LeadsTo(tree, chain, node) && Deserves(node, chain, failure)
  }

  lemma {:induction false} LedToIsNumbered(root: Node, chain: seq<Frame>, node: Node, count: nat)
    requires Numbered(root, count) && LeadsTo(root, chain, node)
    ensures Numbered(node, count)
    decreases |chain|
  {
    if chain == [] {
    } else {
      var last := chain[|chain| - 1];
      LedToIsNumbered(root, chain[..|chain| - 1], last.ancestor, count);
    }
  }

  /** The judgement of a file, by its nodes: which failures it holds. */
  lemma ReportedIff(tree: Node, lines: seq<string>, failure: Failure)
    requires Numbered(tree, |lines|)
    ensures failure in Judged(VisitOrder(tree, []), lines) <==> IsReported(tree, lines, failure)
  {
    var visits := VisitOrder(tree, []);
    JudgedMembers(visits, lines, failure);
    if failure in Judged(visits, lines) {
      var v :| v in visits && Complaint(v.node, InScope(v.chain), UnderTypeChecking(v.chain)) == Some(failure);
      VisitedIff(tree, v.node, v.chain);
      LedToIsNumbered(tree, v.chain, v.node, |lines|);
      ComplaintIff(v.node, v.chain, failure, |lines|);
    }
    if IsReported(tree, lines, failure) {
      var chain, node :| LeadsTo(tree, chain, node) && Deserves(node, chain, failure);
      VisitedIff(tree, node, chain);
      LedToIsNumbered(tree, chain, node, |lines|);
      ComplaintIff(node, chain, failure, |lines|);
      assert Visit(node, chain) in visits;
    }
  }

  // ---------------------------------------------------------------- the context-passing reading

  /** What the visitor reports below a node, given only the two facts its counters encode. */
  ghost function Report(node: Node, inScope: bool, typeChecking: bool, lines: seq<string>): seq<Failure>
    decreases node, 1
  {
    Unjustified(Complaint(node, inScope, typeChecking), lines) + (
      match node
      case If(test, body, orelse) =>
        var guard := IsTypeCheckingGuard(test);
        (if guard then [] else Report(test, inScope, typeChecking, lines))
        + ReportAll(body, inScope, typeChecking || guard, lines)
        + ReportAll(orelse, inScope, typeChecking, lines)
      case Call(_, func, arguments) =>
        Report(func, inScope, typeChecking, lines) + ReportAll(arguments, inScope, typeChecking, lines)
      case Attribute(value, _) => Report(value, inScope, typeChecking, lines)
      case Name(_) => []
      case Scope(_, children) => ReportAll(children, true, typeChecking, lines)
      case Import(_, children) => ReportAll(children, inScope, typeChecking, lines)
      case ImportFrom(_, children) => ReportAll(children, inScope, typeChecking, lines)
      case Other(children) => ReportAll(children, inScope, typeChecking, lines))
  }

  ghost function ReportAll(nodes: seq<Node>, inScope: bool, typeChecking: bool, lines: seq<string>): seq<Failure>
    decreases nodes, 0
  {
    if nodes == [] then []
    else
      ReportAll(nodes[..|nodes| - 1], inScope, typeChecking, lines)
      + Report(nodes[|nodes| - 1], inScope, typeChecking, lines)
  }

  /**
    The report is exactly the judgement of the visited nodes, in visit order: scoped
    imports outside TYPE_CHECKING bodies and dynamic imports anywhere, unless justified.
  */
  lemma {:induction false} ReportIsJudgement(node: Node, chain: seq<Frame>, lines: seq<string>)
    ensures Report(node, InScope(chain), UnderTypeChecking(chain), lines) == Judged(VisitOrder(node, chain), lines)
    decreases node, 1
  {
    var own := [Visit(node, chain)];
    assert own[..0] == [];
    assert Judged(own, lines) == Unjustified(Complaint(node, InScope(chain), UnderTypeChecking(chain)), lines);
    match node
    case If(test, body, orelse) =>
      var t, b, o := chain + [Frame(node, IntoTest)], chain + [Frame(node, IntoBody)], chain + [Frame(node, IntoOrelse)];
      ChainSnoc(chain, Frame(node, IntoTest));
      ChainSnoc(chain, Frame(node, IntoBody));
      ChainSnoc(chain, Frame(node, IntoOrelse));
      var first := if IsTypeCheckingGuard(test) then [] else VisitOrder(test, t);
      if !IsTypeCheckingGuard(test) {
        ReportIsJudgement(test, t, lines);
      }
      ReportAllIsJudgement(body, b, lines);
      ReportAllIsJudgement(orelse, o, lines);
      JudgedConcat(first, VisitOrderAll(body, b), lines);
      JudgedConcat(first + VisitOrderAll(body, b), VisitOrderAll(orelse, o), lines);
      JudgedConcat(own, first + VisitOrderAll(body, b) + VisitOrderAll(orelse, o), lines);
    case Call(_, func, arguments) =>
      var below := chain + [Frame(node, IntoChild)];
      ChainSnoc(chain, Frame(node, IntoChild));
      ReportIsJudgement(func, below, lines);
      ReportAllIsJudgement(arguments, below, lines);
      JudgedConcat(VisitOrder(func, below), VisitOrderAll(arguments, below), lines);
      JudgedConcat(own, VisitOrder(func, below) + VisitOrderAll(arguments, below), lines);
    case Attribute(value, _) =>
      var below := chain + [Frame(node, IntoChild)];
      ChainSnoc(chain, Frame(node, IntoChild));
      ReportIsJudgement(value, below, lines);
      JudgedConcat(own, VisitOrder(value, below), lines);
    case Name(_) =>
      JudgedConcat(own, [], lines);
    case _ =>
      var below := chain + [Frame(node, IntoChild)];
      ChainSnoc(chain, Frame(node, IntoChild));
      ReportAllIsJudgement(node.children, below, lines);
      JudgedConcat(own, VisitOrderAll(node.children, below), lines);
  }

  lemma {:induction false} ReportAllIsJudgement(nodes: seq<Node>, chain: seq<Frame>, lines: seq<string>)
    ensures ReportAll(nodes, InScope(chain), UnderTypeChecking(chain), lines) ==
            Judged(VisitOrderAll(nodes, chain), lines)
    decreases nodes, 0
  {
    if nodes == [] {
    } else {
      var n := |nodes| - 1;
      ReportAllIsJudgement(nodes[..n], chain, lines);
      ReportIsJudgement(nodes[n], chain, lines);
      JudgedConcat(VisitOrderAll(nodes[..n], chain), VisitOrder(nodes[n], chain), lines);
    }
  }

  // ---------------------------------------------------------------- the order of the report

  /** The lines of the imports and calls of a tree. */
  function LinesOf(node: Node): set<nat>
    decreases node, 1
  {
    match node
    case If(test, body, orelse) => LinesOf(test) + LinesOfAll(body) + LinesOfAll(orelse)
    case Call(line, func, arguments) => {line} + LinesOf(func) + LinesOfAll(arguments)
    case Attribute(value, _) => LinesOf(value)
    case Name(_) => {}
    case Scope(_, children) => LinesOfAll(children)
    case Import(line, children) => {line} + LinesOfAll(children)
    case ImportFrom(line, children) => {line} + LinesOfAll(children)
    case Other(children) => LinesOfAll(children)
  }

  function LinesOfAll(nodes: seq<Node>): set<nat>
    decreases nodes, 0
  {
    if nodes == [] then {} else LinesOfAll(nodes[..|nodes| - 1]) + LinesOf(nodes[|nodes| - 1])
  }

  predicate NoLater(a: set<nat>, b: set<nat>) {
    forall x, y :: x in a && y in b ==> x <= y
  }

  /** The parts of every node follow each other in the text as they do in the tree. */
  predicate InTextOrder(node: Node)
    decreases node, 1
  {
    match node
    case If(test, body, orelse) =>
      && InTextOrder(test) && AllInTextOrder(body) && AllInTextOrder(orelse)
      && NoLater(LinesOf(test), LinesOfAll(body)) && NoLater(LinesOf(test) + LinesOfAll(body), LinesOfAll(orelse))
    case Call(line, func, arguments) =>
      && InTextOrder(func) && AllInTextOrder(arguments)
      && NoLater({line}, LinesOf(func)) && NoLater({line} + LinesOf(func), LinesOfAll(arguments))
    case Attribute(value, _) => InTextOrder(value)
    case Name(_) => true
    case Scope(_, children) => AllInTextOrder(children)
    case Import(line, children) => AllInTextOrder(children) && NoLater({line}, LinesOfAll(children))
    case ImportFrom(line, children) => AllInTextOrder(children) && NoLater({line}, LinesOfAll(children))
    case Other(children) => AllInTextOrder(children)
  }

  predicate AllInTextOrder(nodes: seq<Node>)
    decreases nodes, 0
  {
    nodes != [] ==>
      && AllInTextOrder(nodes[..|nodes| - 1]) && InTextOrder(nodes[|nodes| - 1])
      && NoLater(LinesOfAll(nodes[..|nodes| - 1]), LinesOf(nodes[|nodes| - 1]))
  }

  /** Failures from the top of the file to its end, on the given lines. */
  predicate GoesDown(failures: seq<Failure>, lines: set<nat>) {
    && (forall i, j :: 0 <= i < j < |failures| ==> failures[i].line <= failures[j].line)
    && (forall i :: 0 <= i < |failures| ==> failures[i].line in lines)
  }

  lemma GoesDownConcat(a: seq<Failure>, b: seq<Failure>, linesA: set<nat>, linesB: set<nat>)
    requires GoesDown(a, linesA) && GoesDown(b, linesB) && NoLater(linesA, linesB)
    ensures GoesDown(a + b, linesA + linesB)
  {
  }

  /** In a tree in text order the report goes down the file. */
  lemma {:induction false} ReportGoesDown(node: Node, inScope: bool, typeChecking: bool, lines: seq<string>)
    requires InTextOrder(node)
    ensures GoesDown(Report(node, inScope, typeChecking, lines), LinesOf(node))
    decreases node, 1
  {
    var own := Unjustified(Complaint(node, inScope, typeChecking), lines);
    match node
    case If(test, body, orelse) =>
      var below := ReportBelowIf(node, inScope, typeChecking, lines);
      ReportGoesDown(test, inScope, typeChecking, lines);
      ReportAllGoesDown(body, inScope, typeChecking || IsTypeCheckingGuard(test), lines);
      ReportAllGoesDown(orelse, inScope, typeChecking, lines);
      GoesDownConcat(below.0, below.1, LinesOf(test), LinesOfAll(body));
      GoesDownConcat(below.0 + below.1, below.2, LinesOf(test) + LinesOfAll(body), LinesOfAll(orelse));
      ReportIf(node, inScope, typeChecking, lines, []);
      var all := Report(node, inScope, typeChecking, lines);
      assert [] + below.0 == below.0 && [] + all == all;
    case Call(line, func, arguments) =>
      var first, rest := Report(func, inScope, typeChecking, lines), ReportAll(arguments, inScope, typeChecking, lines);
      ReportGoesDown(func, inScope, typeChecking, lines);
      ReportAllGoesDown(arguments, inScope, typeChecking, lines);
      GoesDownConcat(own, first, {line}, LinesOf(func));
      GoesDownConcat(own + first, rest, {line} + LinesOf(func), LinesOfAll(arguments));
      ReportCall(node, inScope, typeChecking, lines);
    case Import(line, children) => ReportImportGoesDown(node, inScope, typeChecking, lines);
    case ImportFrom(line, children) => ReportImportGoesDown(node, inScope, typeChecking, lines);
    case Scope(_, children) =>
      ReportAllGoesDown(children, true, typeChecking, lines);
      assert own + ReportAll(children, true, typeChecking, lines) == ReportAll(children, true, typeChecking, lines);
    case Attribute(value, _) =>
      ReportGoesDown(value, inScope, typeChecking, lines);
      ReportGeneric(node, inScope, typeChecking, lines);
    case Name(_) => ReportGeneric(node, inScope, typeChecking, lines);
    case Other(children) =>
      ReportAllGoesDown(children, inScope, typeChecking, lines);
      ReportGeneric(node, inScope, typeChecking, lines);
  }

  lemma {:induction false} ReportImportGoesDown(node: Node, inScope: bool, typeChecking: bool, lines: seq<string>)
    requires (node.Import? || node.ImportFrom?) && InTextOrder(node)
    ensures GoesDown(Report(node, inScope, typeChecking, lines), LinesOf(node))
    decreases node, 0
  {
    var own := Unjustified(Complaint(node, inScope, typeChecking), lines);
    var below := ReportAll(node.children, inScope, typeChecking, lines);
    ReportAllGoesDown(node.children, inScope, typeChecking, lines);
    GoesDownConcat(own, below, {node.line}, LinesOfAll(node.children));
    ReportImport(node, inScope, typeChecking, lines);
    assert own + below + [] == own + below;
  }

  lemma {:induction false} ReportAllGoesDown(nodes: seq<Node>, inScope: bool, typeChecking: bool, lines: seq<string>)
    requires AllInTextOrder(nodes)
    ensures GoesDown(ReportAll(nodes, inScope, typeChecking, lines), LinesOfAll(nodes))
    decreases nodes, 0
  {
    if nodes == [] {
    } else {
      var init, last := nodes[..|nodes| - 1], nodes[|nodes| - 1];
      ReportAllGoesDown(init, inScope, typeChecking, lines);
      ReportGoesDown(last, inScope, typeChecking, lines);
      GoesDownConcat(ReportAll(init, inScope, typeChecking, lines), Report(last, inScope, typeChecking, lines),
                     LinesOfAll(init), LinesOf(last));
    }
  }

  // ---------------------------------------------------------------- the visitor

  lemma FourAssociate<T>(a: seq<T>, b: seq<T>, c: seq<T>, d: seq<T>)
    ensures a + b + c + d == a + (b + c + d)
  {
  }

  ghost function ReportBelowIf(node: Node, inScope: bool, typeChecking: bool, lines: seq<string>)
    : (seq<Failure>, seq<Failure>, seq<Failure>)
    requires node.If?
  {
    var guard := IsTypeCheckingGuard(node.test);
    (if guard then [] else Report(node.test, inScope, typeChecking, lines),
     ReportAll(node.body, inScope, typeChecking || guard, lines),
     ReportAll(node.orelse, inScope, typeChecking, lines))
  }

  lemma ReportIf(node: Node, inScope: bool, typeChecking: bool, lines: seq<string>, before: seq<Failure>)
    requires node.If?
    ensures var below := ReportBelowIf(node, inScope, typeChecking, lines);
            before + below.0 + below.1 + below.2 == before + Report(node, inScope, typeChecking, lines)
  {
    var below := ReportBelowIf(node, inScope, typeChecking, lines);
    FourAssociate(before, below.0, below.1, below.2);
  }

  lemma ReportImport(node: Node, inScope: bool, typeChecking: bool, lines: seq<string>)
    requires node.Import? || node.ImportFrom?
    ensures Report(node, inScope, typeChecking, lines) ==
            Unjustified(Complaint(node, inScope, typeChecking), lines)
            + ReportAll(node.children, inScope, typeChecking, lines) + []
  {
  }

  lemma ReportGeneric(node: Node, inScope: bool, typeChecking: bool, lines: seq<string>)
    requires node.Attribute? || node.Name? || node.Other?
    ensures Report(node, inScope, typeChecking, lines) ==
            if node.Attribute? then Report(node.value, inScope, typeChecking, lines)
            else if node.Name? then []
            else ReportAll(node.children, inScope, typeChecking, lines)
  {
    assert Unjustified(Complaint(node, inScope, typeChecking), lines) == [];
    match node
    case Attribute(value, _) =>
      var below := Report(value, inScope, typeChecking, lines);
      assert [] + below == below;
    case Name(_) =>
    case Other(children) =>
      var below := ReportAll(children, inScope, typeChecking, lines);
      assert [] + below == below;
  }

  lemma ReportScope(node: Node, inScope: bool, typeChecking: bool, lines: seq<string>)
    requires node.Scope?
    ensures Report(node, inScope, typeChecking, lines) == ReportAll(node.children, true, typeChecking, lines)
  {
    var below := ReportAll(node.children, true, typeChecking, lines);
    assert Unjustified(Complaint(node, inScope, typeChecking), lines) == [] && [] + below == below;
  }

  lemma ReportCall(node: Node, inScope: bool, typeChecking: bool, lines: seq<string>)
    requires node.Call?
    ensures Report(node, inScope, typeChecking, lines) ==
            Unjustified(Complaint(node, inScope, typeChecking), lines)
            + Report(node.func, inScope, typeChecking, lines)
            + ReportAll(node.arguments, inScope, typeChecking, lines)
  {
  }

  /** Every line number of the tree is a line of the file, and names are identifiers. */
  ghost predicate Numbered(node: Node, count: nat) {
    match node
    case If(test, body, orelse) =>
      && Numbered(test, count)
      && (forall child :: child in body ==> Numbered(child, count))
      && (forall child :: child in orelse ==> Numbered(child, count))
    case Call(line, func, arguments) =>
      1 <= line <= count && Numbered(func, count) && forall child :: child in arguments ==> Numbered(child, count)
    case Attribute(value, attr) => IsIdentifier(attr) && Numbered(value, count)
    case Name(id) => IsIdentifier(id)
    case Scope(_, children) => forall child :: child in children ==> Numbered(child, count)
    case Import(line, children) => 1 <= line <= count && forall child :: child in children ==> Numbered(child, count)
    case ImportFrom(line, children) => 1 <= line <= count && forall child :: child in children ==> Numbered(child, count)
    case Other(children) => forall child :: child in children ==> Numbered(child, count)
  }

  class LazyImportVisitor {
    const lines: seq<string>
    var scopeDepth: int
    var typeCheckingDepth: int
    var failures: seq<Failure>

    constructor (lines: seq<string>)
      ensures this.lines == lines && scopeDepth == 0 && typeCheckingDepth == 0 && failures == []
    {
      this.lines := lines;
      scopeDepth, typeCheckingDepth, failures := 0, 0, [];
    }

    /** Both counters come back to where they were, and the failures below `node` are appended. */
    method Visit(node: Node)
      requires scopeDepth >= 0 && typeCheckingDepth >= 0 && Numbered(node, |lines|)
      modifies this
      ensures scopeDepth == old(scopeDepth) && typeCheckingDepth == old(typeCheckingDepth)
      ensures failures == old(failures) + Report(node, scopeDepth > 0, typeCheckingDepth > 0, lines)
      decreases node, 1
    {
      match node
      case If(_, _, _) => VisitIf(node);
      case Scope(_, _) => VisitScope(node);
      case Import(_, _) => VisitImport(node);
      case ImportFrom(_, _) => VisitImport(node);
      case Call(_, _, _) => VisitCall(node);
      case _ => GenericVisit(node);
    }

    /** Nodes without a visitor of their own. */
    method GenericVisit(node: Node)
      requires node.Attribute? || node.Name? || node.Other?
      requires scopeDepth >= 0 && typeCheckingDepth >= 0 && Numbered(node, |lines|)
      modifies this
      ensures scopeDepth == old(scopeDepth) && typeCheckingDepth == old(typeCheckingDepth)
      ensures failures == old(failures) + Report(node, scopeDepth > 0, typeCheckingDepth > 0, lines)
      decreases node, 0
    {
      ReportGeneric(node, scopeDepth > 0, typeCheckingDepth > 0, lines);
      match node
      case Attribute(value, _) => Visit(value);
      case Name(_) =>
      case Other(children) => VisitAll(children);
    }

    method VisitIf(node: Node)
      requires node.If?
      requires scopeDepth >= 0 && typeCheckingDepth >= 0 && Numbered(node, |lines|)
      modifies this
      ensures scopeDepth == old(scopeDepth) && typeCheckingDepth == old(typeCheckingDepth)
      ensures failures == old(failures) + Report(node, scopeDepth > 0, typeCheckingDepth > 0, lines)
      decreases node, 0
    {
      ghost var before, below := failures, ReportBelowIf(node, scopeDepth > 0, typeCheckingDepth > 0, lines);
      ReportIf(node, scopeDepth > 0, typeCheckingDepth > 0, lines, before);
      if IsTypeCheckingGuard(node.test) {
        assert before + below.0 == before;
        typeCheckingDepth := typeCheckingDepth + 1;
        VisitAll(node.body);
        typeCheckingDepth := typeCheckingDepth - 1;
        VisitAll(node.orelse);
      } else {
        Visit(node.test);
        VisitAll(node.body);
        VisitAll(node.orelse);
      }
    }

    method VisitScope(node: Node)
      requires node.Scope?
      requires scopeDepth >= 0 && typeCheckingDepth >= 0 && Numbered(node, |lines|)
      modifies this
      ensures scopeDepth == old(scopeDepth) && typeCheckingDepth == old(typeCheckingDepth)
      ensures failures == old(failures) + Report(node, scopeDepth > 0, typeCheckingDepth > 0, lines)
      decreases node, 0
    {
      ReportScope(node, scopeDepth > 0, typeCheckingDepth > 0, lines);
      scopeDepth := scopeDepth + 1;
      VisitAll(node.children);
      scopeDepth := scopeDepth - 1;
    }

    method VisitImport(node: Node)
      requires node.Import? || node.ImportFrom?
      requires scopeDepth >= 0 && typeCheckingDepth >= 0 && Numbered(node, |lines|)
      modifies this
      ensures scopeDepth == old(scopeDepth) && typeCheckingDepth == old(typeCheckingDepth)
      ensures failures == old(failures) + Report(node, scopeDepth > 0, typeCheckingDepth > 0, lines)
      decreases node, 0
    {
      ghost var before, own := failures, Unjustified(Complaint(node, scopeDepth > 0, typeCheckingDepth > 0), lines);
      ghost var below := ReportAll(node.children, scopeDepth > 0, typeCheckingDepth > 0, lines);
      ReportImport(node, scopeDepth > 0, typeCheckingDepth > 0, lines);
      CheckLocalImport(node.line, if node.Import? then "local import" else "local import-from");
      assert failures == before + own;
      VisitAll(node.children);
      FourAssociate(before, own, below, []);
    }

    method VisitCall(node: Node)
      requires node.Call?
      requires scopeDepth >= 0 && typeCheckingDepth >= 0 && Numbered(node, |lines|)
      modifies this
      ensures scopeDepth == old(scopeDepth) && typeCheckingDepth == old(typeCheckingDepth)
      ensures failures == old(failures) + Report(node, scopeDepth > 0, typeCheckingDepth > 0, lines)
      decreases node, 0
    {
      ghost var before := failures;
      ghost var own := Unjustified(Complaint(node, scopeDepth > 0, typeCheckingDepth > 0), lines);
      ghost var first := Report(node.func, scopeDepth > 0, typeCheckingDepth > 0, lines);
      ghost var rest := ReportAll(node.arguments, scopeDepth > 0, typeCheckingDepth > 0, lines);
      ReportCall(node, scopeDepth > 0, typeCheckingDepth > 0, lines);
      var name := CallName(node.func);
      if IsDynamicImport(name) {
        AddFailureIfUnjustified(Failure(node.line, DynamicLabel(name.value)));
      }
      assert failures == before + own;
      Visit(node.func);
      VisitAll(node.arguments);
      FourAssociate(before, own, first, rest);
    }

    method VisitAll(nodes: seq<Node>)
      requires scopeDepth >= 0 && typeCheckingDepth >= 0
      requires forall child :: child in nodes ==> Numbered(child, |lines|)
      modifies this
      ensures scopeDepth == old(scopeDepth) && typeCheckingDepth == old(typeCheckingDepth)
      ensures failures == old(failures) + ReportAll(nodes, scopeDepth > 0, typeCheckingDepth > 0, lines)
      decreases nodes, 0
    {
      for i := 0 to |nodes|
        invariant scopeDepth == old(scopeDepth) && typeCheckingDepth == old(typeCheckingDepth)
        invariant failures == old(failures) + ReportAll(nodes[..i], scopeDepth > 0, typeCheckingDepth > 0, lines)
      {
        ghost var before := ReportAll(nodes[..i], scopeDepth > 0, typeCheckingDepth > 0, lines);
        ghost var below := Report(nodes[i], scopeDepth > 0, typeCheckingDepth > 0, lines);
        Visit(nodes[i]);
        assert nodes[..i + 1][..i] == nodes[..i];
        FourAssociate(old(failures), before, below, []);
        assert before + below + [] == before + below;
      }
      assert nodes[..|nodes|] == nodes;
    }

    method CheckLocalImport(line: nat, kind: string)
      requires 1 <= line <= |lines|
      modifies this`failures
      ensures failures == old(failures) + (
                if typeCheckingDepth > 0 || scopeDepth == 0 then [] else Unjustified(Some(Failure(line, kind)), lines))
    {
      if typeCheckingDepth > 0 || scopeDepth == 0 {
        return;
      }
      AddFailureIfUnjustified(Failure(line, kind));
    }

    method AddFailureIfUnjustified(failure: Failure)
      requires 1 <= failure.line <= |lines|
      modifies this`failures
      ensures failures == old(failures) + Unjustified(Some(failure), lines)
    {
      var justified := HasJustification(lines, failure.line, MARKERS);
      if !justified {
        failures := failures + [failure];
      }
    }
  }

  /** One file: the visitor's failures are the judgement of every node it visits from the root. */
  method CollectFailures(tree: Node, lines: seq<string>) returns (failures: seq<Failure>)
    requires Numbered(tree, |lines|)
    ensures failures == Judged(VisitOrder(tree, []), lines)
    ensures forall failure :: failure in failures <==> IsReported(tree, lines, failure)
    ensures InTextOrder(tree) ==> forall i, j :: 0 <= i < j < |failures| ==> failures[i].line <= failures[j].line
  {
    var visitor := new LazyImportVisitor(lines);
    visitor.Visit(tree);
    ReportIsJudgement(tree, [], lines);
    failures := visitor.failures;
    if InTextOrder(tree) {
      ReportGoesDown(tree, false, false, lines);
    }
    forall failure ensures failure in failures <==> IsReported(tree, lines, failure) {
      ReportedIff(tree, lines, failure);
    }
  }
}
